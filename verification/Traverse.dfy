/** lfs_dir_traverse over the bytes of a metadata block, with its redundancy filter. */
module Traverse {
  import opened Wrappers
  import opened Words
  import opened Tags
  import opened Sequences
  import opened MetadataLog
  import opened Compaction

  /** The part of lfs_mdir_t a traversal reads: the current block of the pair and where its log ends. */
  datatype Mdir = Mdir(block: seq<byte>, off: nat)

  /** A pending attribute as a caller of lfs_dir_commit passes it: a move names the directory it takes from. */
  datatype Pending =
    | Direct(tag: Tag)
    | Skip
    | MoveFrom(to: nat, from: nat, dir: Mdir)
    | Attrs(id: nat, list: seq<Attr>)

  ghost predicate HasLog(dir: Mdir) {
    exists log :: Holds(dir.block, log, dir.off)
  }

  ghost function LogOf(dir: Mdir): (log: Log)
    requires HasLog(dir)
    ensures Holds(dir.block, log, dir.off)
  {
    var log :| Holds(dir.block, log, dir.off);
    log
  }

  ghost predicate ValidPending(p: Pending) {
    (p.MoveFrom? ==> HasLog(p.dir) && Room(LogOf(p.dir), [], MovedTags)) && ValidItem(ItemOf(p))
  }

  ghost function ItemOf(p: Pending): Item
    requires p.MoveFrom? ==> HasLog(p.dir)
  {
    match p
    case Direct(t) => Plain(t)
    case Skip => Noop
    case MoveFrom(to, from, dir) => Move(to, from, LogOf(dir))
    case Attrs(id, list) => UserAttrs(id, list)
  }

  ghost predicate AllValid(ps: seq<Pending>) {
    forall i :: 0 <= i < |ps| ==> ValidPending(ps[i])
  }

  ghost function ItemsOf(ps: seq<Pending>): (r: seq<Item>)
    requires AllValid(ps)
    ensures |r| == |ps| && ValidItems(r)
    ensures forall i :: 0 <= i < |ps| ==> r[i] == ItemOf(ps[i])
  {
    if ps == [] then [] else [ItemOf(ps[0])] + ItemsOf(ps[1..])
  }

  // ---------------------------------------------------------------- filtering one tag

  /** A filtered tag keeps an id that fits its field until something makes it redundant. */
  ghost predicate Fits(f: Tag, rest: Log)
    requires PlainLog(rest)
    decreases |rest|
  {
    f.id < 0x400 &&
    (rest == [] || Redundant(f, rest[0]) ||
     (AdjustedNat(f, rest[0]); Fits(f.(id := Adjusted(f, rest[0])), rest[1..])))
  }

  /** Every tag a traversal looks at keeps a fitting id while it is filtered. */
  ghost predicate Room(log: Log, after: Log, sel: Selection) {
    PlainLog(log) && PlainLog(after)
    && forall i :: 0 <= i < |log| && Selected(sel, log[i].kind) ==> Fits(log[i], log[i + 1..] + after)
  }

  ghost predicate Carries(w: TagWord, f: Tag) {
    f.kind < 0x800 && f.id < 0x400 && f.size < 0x400 && w % TOP_BIT == MkTag(f.kind, f.id, f.size)
  }

  /** lfs_dir_traverse_filter on tag words. */
  method FilterStep(tag: TagWord, filtertag: TagWord, ghost u: Tag, ghost f: Tag) returns (redundant: bool, adjusted: TagWord)
    requires u.PlainSplice() && Carries(tag, u) && Carries(filtertag, f)
    requires !Redundant(f, u) ==> 0 <= Adjusted(f, u) < 0x400
    ensures redundant <==> Redundant(f, u)
    ensures !redundant ==> Carries(adjusted, f.(id := Adjusted(f, u)))
  {
    hide Type3, Id, Size;
    FieldsOfMkTag(u.kind, u.id, u.size, tag);
    FieldsOfMkTag(f.kind, f.id, f.size, filtertag);
    // which mask depends on a bit of the visited tag
    var mask := KeyMask(Type3(tag));
    adjusted := filtertag;
    if (SameKind(mask, Type3(tag), Type3(filtertag)) && Id(tag) == Id(filtertag))
       || IsDelete(filtertag)
       || (Type3(tag) == TYPE_DELETE && Id(tag) == Id(filtertag)) {
      return true, adjusted;
    }
    if Type1(tag) == TYPE_SPLICE && Id(tag) <= Id(filtertag) {
      var d := Splice(tag);
      MovedWord(filtertag, f, f.id + d);
      adjusted := (filtertag + d * 0x400) % WORD_LIMIT;
    }
    return false, adjusted;
  }

  /** Adding a multiple of one id step to a tag word changes its id only. */
  lemma MovedWord(w: TagWord, f: Tag, id: int)
    requires Carries(w, f) && 0 <= id < 0x400
    ensures Carries((w + (id - f.id) * 0x400) % WORD_LIMIT, f.(id := id))
  {
    var q, low := w / TOP_BIT, MkTag(f.kind, id, f.size);
    assert w == q * TOP_BIT + MkTag(f.kind, f.id, f.size) && 0 <= q < 2;
    var x := w + (id - f.id) * 0x400;
    assert x == q * TOP_BIT + low && low < TOP_BIT;
    ModUnique(x, TOP_BIT, q, low);
    ModUnique(x, WORD_LIMIT, 0, x);
  }

  /** Filtering against a list of tags held in memory. */
  method FilterTags(tags: Log, filtertag: TagWord, ghost f: Tag) returns (redundant: bool, adjusted: TagWord)
    requires PlainLog(tags) && Carries(filtertag, f) && Fits(f, tags)
    requires forall i :: 0 <= i < |tags| ==> tags[i].Valid()
    ensures redundant <==> Survive(f, tags).None?
    ensures !redundant ==> Carries(adjusted, f.(id := Survive(f, tags).value))
  {
    hide Type3, Id, Size, MkTag, Redundant, Adjusted;
    adjusted := filtertag;
    ghost var g := f;
    var i := 0;
    while i < |tags|
      invariant 0 <= i <= |tags|
      invariant Carries(adjusted, g) && Fits(g, tags[i..]) && Survive(f, tags) == Survive(g, tags[i..])
      invariant g == f.(id := g.id)
    {
      ghost var u := tags[i];
      DropFirst(tags, i);
      WordCarries(u);
      if !Redundant(g, u) { AdjustedNat(g, u); }
      redundant, adjusted := FilterStep(MkTag(tags[i].kind, tags[i].id, tags[i].size), adjusted, u, g);
      if redundant {
        return;
      }
      g := g.(id := Adjusted(g, u));
      i := i + 1;
    }
    redundant := false;
  }

  lemma WordCarries(u: Tag)
    requires u.Valid()
    ensures Carries(MkTag(u.kind, u.id, u.size), u)
  {
  }

  lemma DropFirst<T>(s: seq<T>, i: nat)
    requires i < |s|
    ensures s[i..][0] == s[i] && s[i..][1..] == s[i + 1..]
  {
  }

  // ---------------------------------------------------------------- reading forward

  /** The cursor (off, ptag) of a forward traversal has tag i of the log next. */
  ghost predicate Before(log: Log, i: nat, off: nat, ptag: TagWord) {
    i <= |log| && ValidLog(log[..i]) && off + DSize(ptag) == TagOffset(log, i)
    && ptag % TOP_BIT == LastKey(BLOCK_NULL, log[..i]) % TOP_BIT
  }

  lemma BeforeFirst(log: Log)
    ensures Before(log, 0, 0, BLOCK_NULL)
  {
    assert log[..0] == [];
    FieldsOfMkTag(0x7ff, 0x3ff, 0x3ff, BLOCK_NULL);
  }

  /** The loop condition of the traversal. */
  lemma MoreTags(dir: Mdir, log: Log, i: nat, off: nat, ptag: TagWord)
    requires Holds(dir.block, log, dir.off) && Before(log, i, off, ptag)
    ensures off + DSize(ptag) < dir.off <==> i < |log|
  {
    if i < |log| {
      ReadTag(dir.block, log, dir.off, i);
    } else {
      assert log[..i] == log;
    }
  }

  method ReadNext(dir: Mdir, off: nat, ptag: TagWord, ghost log: Log, ghost i: nat)
    returns (noff: nat, tag: TagWord, data: seq<byte>)
    requires Holds(dir.block, log, dir.off) && Before(log, i, off, ptag) && i < |log|
    ensures Carries(tag, log[i]) && data == log[i].data && log[i].Valid()
    ensures Type3(tag) == log[i].kind && Id(tag) == log[i].id && Size(tag) == log[i].size
    ensures Before(log, i + 1, noff, tag)
  {
    hide Type3, Id, Size, FromBe32, Encode, SetTop, XorWord, MkTag;
    noff := off + DSize(ptag);
    ReadTag(dir.block, log, dir.off, i);
    ghost var t := log[i];
    var word := FromBe32(dir.block[noff..noff + 4]);
    DecodeForward(word, LastKey(BLOCK_NULL, log[..i]), t.Word(), ptag);
    var x := XorWord(word, ptag);
    tag := SetTop(x);
    FieldsOfMkTag(t.kind, t.id, t.size, tag);
    data := dir.block[noff + 4..noff + DSize(tag)];
    SplitAt(log, i);
    Snoc(log[..i], t);
  }

  // ---------------------------------------------------------------- filtering against everything that follows

  lemma {:induction false} SurviveConcat(f: Tag, a: Log, b: Log)
    requires PlainLog(a) && PlainLog(b)
    ensures Survive(f, a + b) == var s := Survive(f, a); if s.None? then None else Survive(f.(id := s.value), b)
    ensures Fits(f, a + b) ==> Fits(f, a)
    ensures Fits(f, a + b) && Survive(f, a).Some? ==> Fits(f.(id := Survive(f, a).value), b)
    decreases |a|
  {
    if a == [] {
      Neutral(b);
      assert f.(id := f.id) == f;
    } else {
      assert (a + b)[0] == a[0] && (a + b)[1..] == a[1..] + b;
      if !Redundant(f, a[0]) {
        AdjustedNat(f, a[0]);
        SurviveConcat(f.(id := Adjusted(f, a[0])), a[1..], b);
      }
    }
  }

  lemma SurviveCons(f: Tag, u: Tag, rest: Log)
    requires PlainLog([u] + rest)
    ensures PlainLog(rest) && u.PlainSplice()
    ensures !Redundant(f, u) ==> Adjusted(f, u) >= 0
    ensures Survive(f, [u] + rest) ==
            if Redundant(f, u) then None else (AdjustedNat(f, u); Survive(f.(id := Adjusted(f, u)), rest))
    ensures Fits(f, [u] + rest) && !Redundant(f, u) ==> (AdjustedNat(f, u); Fits(f.(id := Adjusted(f, u)), rest))
  {
    var all := [u] + rest;
    assert all[0] == u && all[1..] == rest;
    assert u.PlainSplice();
    assert forall i :: 0 <= i < |rest| ==> rest[i] == all[i + 1];
    if !Redundant(f, u) { AdjustedNat(f, u); }
  }

  lemma FitsId(f: Tag, rest: Log)
    requires PlainLog(rest) && Fits(f, rest)
    ensures f.id < 0x400
  {
  }

  /** The disk part of a filtering traversal. */
  method FilterDisk(dir: Mdir, off: nat, ptag: TagWord, filtertag: TagWord, ghost log: Log, ghost i: nat, ghost f: Tag)
    returns (redundant: bool, adjusted: TagWord)
    requires Holds(dir.block, log, dir.off) && Before(log, i, off, ptag)
    requires Carries(filtertag, f) && Fits(f, log[i..])
    ensures redundant <==> Survive(f, log[i..]).None?
    ensures !redundant ==> Carries(adjusted, f.(id := Survive(f, log[i..]).value))
  {
    hide Type3, Id, Size, MkTag, Redundant, Adjusted, DSize, Carries, Encode, LogSize;
    var o: nat, p: TagWord := off, ptag;
    adjusted, redundant := filtertag, false;
    ghost var g, k := f, i;
    MoreTags(dir, log, k, o, p);
    assert f.(id := f.id) == f;
    while o + DSize(p) < dir.off
      invariant i <= k <= |log| && Before(log, k, o, p) && (o + DSize(p) < dir.off <==> k < |log|)
      invariant Carries(adjusted, g) && Fits(g, log[k..]) && Survive(f, log[i..]) == Survive(g, log[k..])
      invariant g == f.(id := g.id)
      decreases |log| - k
    {
      ghost var u := log[k];
      var tag, data;
      o, tag, data := ReadNext(dir, o, p, log, k);
      p := tag;
      HeadTail(log[k..]);
      DropFirst(log, k);
      SurviveCons(g, u, log[k + 1..]);
      if !Redundant(g, u) { FitsId(g.(id := Adjusted(g, u)), log[k + 1..]); }
      redundant, adjusted := FilterStep(tag, adjusted, u, g);
      if redundant {
        return;
      }
      g := g.(id := Adjusted(g, u));
      k := k + 1;
      MoreTags(dir, log, k, o, p);
    }
    assert log[k..] == [];
  }

  /** Everything that follows the cursor: disk tags, pending items, the deletion of a pending move. */
  ghost function Following(log: Log, i: nat, ps: seq<Pending>, move: Log): Log
    requires i <= |log| && AllValid(ps)
  {
    log[i..] + (ExpandAll(ItemsOf(ps)) + move)
  }

  ghost function PendingTags(ps: seq<Pending>, move: Log): Log
    requires AllValid(ps)
  {
    ExpandAll(ItemsOf(ps)) + move
  }

  lemma ExpandOne(ps: seq<Pending>, move: Log)
    requires AllValid(ps) && ps != []
    ensures AllValid(ps[1..]) && ValidPending(ps[0])
    ensures PendingTags(ps, move) == Expand(ItemOf(ps[0])) + PendingTags(ps[1..], move)
    ensures ItemsOf(ps) == [ItemOf(ps[0])] + ItemsOf(ps[1..])
  {
    var items := ItemsOf(ps);
    assert items[1..] == ItemsOf(ps[1..]);
    Assoc(Expand(items[0]), ExpandAll(items[1..]), move);
  }

  /** The in-memory part of a filtering traversal. */
  method FilterPending(ps: seq<Pending>, move: Log, filtertag: TagWord, ghost f: Tag)
    returns (redundant: bool, adjusted: TagWord)
    requires AllValid(ps) && MoveLog(move)
    requires Carries(filtertag, f) && PlainLog(PendingTags(ps, move)) && Fits(f, PendingTags(ps, move))
    ensures redundant <==> Survive(f, PendingTags(ps, move)).None?
    ensures !redundant ==> Carries(adjusted, f.(id := Survive(f, PendingTags(ps, move)).value))
    decreases |ps|, 0
  {
    hide Carries, Survive, Fits, ExpandAll;
    if |ps| == 0 {
      ExpandNothing(move);
      redundant, adjusted := FilterTags(move, filtertag, f);
    } else {
      ghost var p := ps[0];
      ExpandOne(ps, move);
      SurviveConcat(f, Expand(ItemOf(p)), PendingTags(ps[1..], move));
      var tags := Gather(ps[0], HeaderId(ps[0]));
      redundant, adjusted := FilterTags(tags, filtertag, f);
      if !redundant {
        redundant, adjusted := FilterPending(ps[1..], move, adjusted, f.(id := Survive(f, tags).value));
      }
    }
  }

  /** lfs_dir_traverse with the filter as callback: the tags after the cursor against one tag. */
  method Filter(dir: Mdir, off: nat, ptag: TagWord, ps: seq<Pending>, move: Log, filtertag: TagWord,
                ghost log: Log, ghost i: nat, ghost f: Tag) returns (redundant: bool, adjusted: TagWord)
    requires Holds(dir.block, log, dir.off) && i <= |log| && Before(log, i, off, ptag) && AllValid(ps) && MoveLog(move)
    requires Carries(filtertag, f) && PlainLog(Following(log, i, ps, move)) && Fits(f, Following(log, i, ps, move))
    ensures redundant <==> Survive(f, Following(log, i, ps, move)).None?
    ensures !redundant ==> Carries(adjusted, f.(id := Survive(f, Following(log, i, ps, move)).value))
    decreases |ps|, 1
  {
    hide Carries, Before, Survive, Fits, ExpandAll;
    SurviveConcat(f, log[i..], PendingTags(ps, move));
    redundant, adjusted := FilterDisk(dir, off, ptag, filtertag, log, i, f);
    if !redundant {
      redundant, adjusted := FilterPending(ps, move, adjusted, f.(id := Survive(f, log[i..]).value));
    }
  }

  lemma ExpandNothing(move: Log)
    ensures PendingTags([], move) == move
  {
    Neutral(move);
  }

  function HeaderId(p: Pending): nat {
    match p
    case Direct(t) => t.id
    case Skip => 0
    case MoveFrom(to, _, _) => to
    case Attrs(id, _) => id
  }

  /** The tags a pending attribute stands for: what an unfiltered traversal hands to its callback for it. */
  method Gather(p: Pending, id: nat) returns (out: Log)
    requires ValidPending(p) && id < 0x400
    ensures out == TagsAt(ItemOf(p), id)
    ensures forall i :: 0 <= i < |out| ==> out[i].Valid()
    decreases 0, 4
  {
    hide EmitLog, Room, Selected, Survive;
    match p
    case Direct(t) => out := [t.(id := id)];
    case Skip => out := [];
    case Attrs(_, list) => out := GatherAttrs(list, id);
    case MoveFrom(to, from, dir) =>
      var off, ptag;
      ExpandNothing([]);
      out, off, ptag := EmitDisk(dir, [], [], MovedTags, from, from + 1, id - from, LogOf(dir));
  }

  method GatherAttrs(list: seq<Attr>, id: nat) returns (out: Log)
    ensures out == AttrTags(list, id)
  {
    out := [];
    var k := 0;
    while k < |list|
      invariant 0 <= k <= |list| && out == AttrTags(list, id)[..k]
    {
      out := out + [Tag(list[k].kind, id, list[k].size, list[k].data)];
      k := k + 1;
    }
    assert AttrTags(list, id)[..|list|] == AttrTags(list, id);
  }

  /** One turn of a filtering traversal: the tag just read, handed on if it survives as an id in range. */
  method EmitOne(dir: Mdir, off: nat, tag: TagWord, data: seq<byte>, ps: seq<Pending>, move: Log, sel: Selection,
                 begin: nat, end: nat, diff: int, ghost log: Log, ghost i: nat) returns (one: Log)
    requires Holds(dir.block, log, dir.off) && AllValid(ps) && MoveLog(move) && i < |log| && Before(log, i + 1, off, tag)
    requires Carries(tag, log[i]) && Type3(tag) == log[i].kind && data == log[i].data && log[i].Valid()
    requires 0 <= begin + diff && end + diff <= 0x400 && PlainLog(log) && PlainLog(PendingTags(ps, move))
    requires Selected(sel, log[i].kind) ==> Fits(log[i], log[i + 1..] + PendingTags(ps, move))
    ensures one == EmitTag(log[i], log[i + 1..] + PendingTags(ps, move), sel, begin, end, diff)
    ensures forall j :: 0 <= j < |one| ==> one[j].Valid()
    decreases |ps|, 2
  {
    hide Carries, Before, Survive, Fits, ExpandAll, Selected, Type3, Id, Size, MkTag, PendingTags, TagOffset;
    one := [];
    ghost var t, rest := log[i], log[i + 1..] + PendingTags(ps, move);
    if Selected(sel, Type3(tag)) {
      assert Following(log, i + 1, ps, move) == rest by { FollowingIs(log, i + 1, ps, move); }
      var redundant, w := Filter(dir, off, tag, ps, move, tag, log, i + 1, t);
      if !redundant {
        CarriedFields(w, t.(id := Survive(t, rest).value));
        if begin <= Id(w) < end {
          one := [Tag(Type3(w), Id(w) + diff, Size(w), data)];
        }
      }
    }
  }

  lemma FollowingIs(log: Log, i: nat, ps: seq<Pending>, move: Log)
    requires i <= |log| && AllValid(ps)
    ensures Following(log, i, ps, move) == log[i..] + PendingTags(ps, move)
  {
  }

  /** The disk part of a traversal that filters. */
  method EmitDisk(dir: Mdir, ps: seq<Pending>, move: Log, sel: Selection, begin: nat, end: nat, diff: int, ghost log: Log)
    returns (out: Log, off: nat, ptag: TagWord)
    requires Holds(dir.block, log, dir.off) && AllValid(ps) && MoveLog(move)
    requires 0 <= begin + diff && end + diff <= 0x400
    requires Room(log, PendingTags(ps, move), sel)
    ensures out == EmitLog(log, PendingTags(ps, move), sel, begin, end, diff)
    ensures forall i :: 0 <= i < |out| ==> out[i].Valid()
    ensures Before(log, |log|, off, ptag)
    decreases |ps|, 3
  {
    hide Carries, Before, Survive, Fits, ExpandAll, Selected, Type3, Id, Size, MkTag, DSize, EmitTag, PendingTags;
    out, off, ptag := [], 0, BLOCK_NULL;
    ghost var after := PendingTags(ps, move);
    ghost var i: nat := 0;
    BeforeFirst(log);
    MoreTags(dir, log, 0, off, ptag);
    assert log[0..] == log;
    while off + DSize(ptag) < dir.off
      invariant i <= |log| && Before(log, i, off, ptag) && (off + DSize(ptag) < dir.off <==> i < |log|)
      invariant PlainLog(log[i..])
      invariant EmitLog(log, after, sel, begin, end, diff) == out + EmitLog(log[i..], after, sel, begin, end, diff)
      invariant forall j :: 0 <= j < |out| ==> out[j].Valid()
      decreases |log| - i
    {
      var tag, data;
      off, tag, data := ReadNext(dir, off, ptag, log, i);
      ptag := tag;
      DropFirst(log, i);
      var one := EmitOne(dir, off, tag, data, ps, move, sel, begin, end, diff, log, i);
      Assoc(out, one, EmitLog(log[i + 1..], after, sel, begin, end, diff));
      out := out + one;
      i := i + 1;
      MoreTags(dir, log, i, off, ptag);
    }
    Neutral(out);
  }

  lemma CarriedFields(w: TagWord, f: Tag)
    requires Carries(w, f)
    ensures Type3(w) == f.kind && Id(w) == f.id && Size(w) == f.size
  {
    FieldsOfMkTag(f.kind, f.id, f.size, w);
  }

  // ---------------------------------------------------------------- ids fit when directories are small

  /** A tag of an entry that exists, or would be the next one, keeps a fitting id while directories are small. */
  lemma {:induction false} FitsInSmallDirs(d: Dir, f: Tag, rest: Log)
    requires PlainLog(rest) && SmallDirs(d, rest) && f.id <= |d|
    ensures Fits(f, rest)
    decreases |rest|
  {
    if rest == [] {
      assert |Replay(d, rest[..0])| < 0x400;
    } else {
      var u, rest' := rest[0], rest[1..];
      HeadTail(rest);
      SmallDirsTail(d, u, rest');
      if !Redundant(f, u) {
        AdjustedNat(f, u);
        FitsInSmallDirs(Apply(d, u), f.(id := Adjusted(f, u)), rest');
      }
    }
  }

  lemma SelectedIsAttr(sel: Selection, kind: nat)
    requires Selected(sel, kind)
    ensures kind < 0x400
  {
  }

  /** As long as no directory on the way exceeds the id field, filtering never overflows an id: the tags of the log ... */
  lemma RoomInSmallDirs(log: Log, after: Log, sel: Selection)
    requires PlainLog(log) && PlainLog(after) && SmallDirs([], log + after)
    ensures Room(log, after, sel)
  {
    hide Selected;
    forall i | 0 <= i < |log| && Selected(sel, log[i].kind)
      ensures Fits(log[i], log[i + 1..] + after)
    {
      var d, t, rest := Replay([], log[..i]), log[i], log[i + 1..] + after;
      SelectedIsAttr(sel, t.kind);
      assert log + after == log[..i] + ([t] + rest);
      SmallDirsFrom([], log[..i], [t] + rest);
      SmallDirsTail(d, t, rest);
      FitsInSmallDirs(Apply(d, t), t, rest);
    }
  }

  /** The entries that groups name exist once the tags they stand for are written, or would be the next ones. */
  ghost predicate NamesEntries(d: Dir, items: seq<Item>)
    requires ValidItems(items)
    decreases |items|
  {
    items == []
    || ((items[0].Plain? || Header(items[0]).id <= |Replay(d, Expand(items[0]))|)
        && NamesEntries(Replay(d, Expand(items[0])), items[1..]))
  }

  /** ... and the pending items, each filtered against the ones behind it. */
  lemma {:induction false} PendingRoomInSmallDirs(d: Dir, ps: seq<Pending>, move: Log)
    requires AllValid(ps) && MoveLog(move) && SmallDirs(d, PendingTags(ps, move)) && NamesEntries(d, ItemsOf(ps))
    ensures PendingRoom(ps, move)
    decreases |ps|
  {
    if ps != [] {
      hide Selected, ExpandAll, Survive, Fits;
      var it, rest := ItemOf(ps[0]), PendingTags(ps[1..], move);
      ExpandOne(ps, move);
      assert ItemsOf(ps)[1..] == ItemsOf(ps[1..]);
      SmallDirsFrom(d, Expand(it), rest);
      var d' := Replay(d, Expand(it));
      PendingRoomInSmallDirs(d', ps[1..], move);
      if Selected(EntryTags, Header(it).kind) {
        if it.Plain? { PlainNamesEntry(d, it); }
        FitsInSmallDirs(d', Header(it), rest);
      }
    }
  }

  lemma PlainNamesEntry(d: Dir, it: Item)
    requires it.Plain? && ValidItem(it) && Selected(EntryTags, it.tag.kind)
    ensures Header(it).id <= |Replay(d, Expand(it))|
  {
    Snoc([], it.tag);
    assert Expand(it) == [] + [it.tag];
    SelectedIsAttr(EntryTags, it.tag.kind);
  }

  // ---------------------------------------------------------------- the two traversals of a commit

  function HeaderKind(p: Pending): nat {
    match p
    case Direct(t) => t.kind
    case Skip => FROM_NOOP
    case MoveFrom(_, _, _) => FROM_MOVE
    case Attrs(_, _) => FROM_USERATTRS
  }

  function HeaderSize(p: Pending): nat {
    match p
    case Direct(t) => t.size
    case Skip => 0
    case MoveFrom(_, from, _) => from
    case Attrs(_, list) => |list|
  }

  lemma HeaderFields(p: Pending)
    requires ValidPending(p)
    ensures var h := Header(ItemOf(p)); h.kind == HeaderKind(p) && h.id == HeaderId(p) && h.size == HeaderSize(p)
    ensures HeaderKind(p) < 0x800 && HeaderId(p) < 0x400 && HeaderSize(p) < 0x400
  {
    hide ValidLog, Room;
  }

  lemma HeaderCarries(p: Pending, w: TagWord)
    requires ValidPending(p) && HeaderKind(p) < 0x800 && HeaderId(p) < 0x400 && HeaderSize(p) < 0x400
    requires w == MkTag(HeaderKind(p), HeaderId(p), HeaderSize(p))
    ensures Carries(w, Header(ItemOf(p))) && Type3(w) == Header(ItemOf(p)).kind
  {
    hide Type3, Id, Size, ValidPending, ItemOf, HeaderKind, HeaderId, HeaderSize, Header;
    HeaderFields(p);
    ModUnique(w, TOP_BIT, 0, w);
    FieldsOfMkTag(HeaderKind(p), HeaderId(p), HeaderSize(p), w);
  }

  /** Every pending item that is copied keeps a fitting id while it is filtered. */
  ghost predicate PendingRoom(ps: seq<Pending>, move: Log)
    requires AllValid(ps)
  {
    PlainLog(move) &&
    (ps == [] ||
     ((Selected(EntryTags, Header(ItemOf(ps[0])).kind) ==> Fits(Header(ItemOf(ps[0])), PendingTags(ps[1..], move)))
      && PendingRoom(ps[1..], move)))
  }

  /** The first pending attribute: filtered, then written or, for the attributes of a moved entry, gathered. */
  method EmitFirst(dir: Mdir, off: nat, ptag: TagWord, ps: seq<Pending>, move: Log, begin: nat, end: nat, ghost log: Log)
    returns (out: Log)
    requires Holds(dir.block, log, dir.off) && Before(log, |log|, off, ptag) && |ps| > 0
    requires AllValid(ps) && MoveLog(move) && PendingRoom(ps, move) && end <= 0x400
    ensures out == EmitItem(ItemOf(ps[0]), PendingTags(ps[1..], move), begin, end, 0 - begin)
  {
    hide Carries, Before, Survive, Fits, ExpandAll, Selected, Type3, Id, Size, MkTag, TagsAt;
    out := [];
    ghost var it, rest := ItemOf(ps[0]), PendingTags(ps[1..], move);
    ExpandOne(ps, move);
    HeaderFields(ps[0]);
    var w := MkTag(HeaderKind(ps[0]), HeaderId(ps[0]), HeaderSize(ps[0]));
    HeaderCarries(ps[0], w);
    ghost var h := Header(it);
    if Selected(EntryTags, Type3(w)) {
      assert Following(log, |log|, ps[1..], move) == rest by {
        FollowingIs(log, |log|, ps[1..], move);
        Neutral(rest);
      }
      var redundant, adjusted := Filter(dir, off, ptag, ps[1..], move, w, log, |log|, h);
      if !redundant {
        CarriedFields(adjusted, h.(id := Survive(h, rest).value));
        if begin <= Id(adjusted) < end {
          out := Gather(ps[0], Id(adjusted) - begin);
        }
      }
    }
  }

  /** The pending part of a compaction, each item filtered against the ones after it. */
  method EmitPending(dir: Mdir, off: nat, ptag: TagWord, ps: seq<Pending>, move: Log, begin: nat, end: nat, ghost log: Log)
    returns (out: Log)
    requires Holds(dir.block, log, dir.off) && Before(log, |log|, off, ptag)
    requires AllValid(ps) && MoveLog(move) && PendingRoom(ps, move) && end <= 0x400
    ensures out == EmitItems(ItemsOf(ps), move, begin, end, 0 - begin)
    decreases |ps|
  {
    hide EmitItem, Carries, Before, Survive, Fits, ExpandAll, Selected, TagsAt, Holds;
    out := [];
    if |ps| > 0 {
      ExpandOne(ps, move);
      var first := EmitFirst(dir, off, ptag, ps, move, begin, end, log);
      var more := EmitPending(dir, off, ptag, ps[1..], move, begin, end, log);
      out := first + more;
      assert ItemsOf(ps)[1..] == ItemsOf(ps[1..]);
    }
  }

  /** The traversal of lfs_dir_compact: what it hands to its callback is the compacted log. */
  method TraverseCompact(dir: Mdir, ps: seq<Pending>, move: Log, begin: nat, end: nat, ghost log: Log) returns (out: Log)
    requires Holds(dir.block, log, dir.off) && AllValid(ps) && MoveLog(move) && begin <= end <= 0x400
    requires Room(log, PendingTags(ps, move), EntryTags) && PendingRoom(ps, move)
    ensures out == Compacted(log, ItemsOf(ps), move, begin, end)
  {
    hide Survive, Fits, ExpandAll, Selected, EmitLog, EmitItems, Before;
    var off, ptag;
    out, off, ptag := EmitDisk(dir, ps, move, EntryTags, begin, end, 0 - begin, log);
    var more := EmitPending(dir, off, ptag, ps, move, begin, end, log);
    out := out + more;
  }

  /** The traversal of an in-place commit, which starts at the end of the log and filters nothing. */
  method TraverseInPlace(ps: seq<Pending>, move: Log) returns (out: Log)
    requires AllValid(ps) && MoveLog(move)
    ensures out == PendingTags(ps, move)
    decreases |ps|
  {
    hide ExpandAll;
    if |ps| == 0 {
      ExpandNothing(move);
      out := move;
    } else {
      ExpandOne(ps, move);
      HeaderFields(ps[0]);
      var head := Gather(ps[0], HeaderId(ps[0]));
      var more := TraverseInPlace(ps[1..], move);
      out := head + more;
    }
  }
}
