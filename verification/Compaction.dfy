/** What compaction writes: the tags that survive the redundancy filter, and why they mean what the log meant. */
module Compaction {
  import opened Wrappers
  import opened Words
  import opened Tags
  import opened Sequences
  import opened MetadataLog

  /** Which types a traversal looks at: the entry tags a compaction copies, or the part of an entry a move carries. */
  datatype Selection = EntryTags | MovedTags

  predicate Selected(sel: Selection, kind: nat) {
    kind < 0x800 &&
    match sel
    case EntryTags => kind / 0x400 % 2 == 0
    case MovedTags => kind / 0x200 % 4 == 1
  }

  /** Two attributes of one entry replace each other when they share the type without chunk; user attributes and
      the in-memory sources, which have bit 0x100, when they share the whole type. */
  function KeyMask(kind: nat): (m: nat)
    ensures m > 0
  {
    if kind / 0x100 % 2 == 1 then 1 else 0x100
  }

  ghost predicate PlainLog(log: Log) {
    forall i :: 0 <= i < |log| ==> log[i].PlainSplice()
  }

  // ---------------------------------------------------------------- the filter

  /** lfs_dir_traverse_filter: tag `u`, met after `f`, makes `f` redundant. The mask is chosen by `u`. */
  predicate Redundant(f: Tag, u: Tag) {
    (SameKind(KeyMask(u.kind), u.kind, f.kind) && u.id == f.id)
    || f.size == NO_SIZE
    || (u.kind == TYPE_DELETE && u.id == f.id)
  }

  /** The id of `f` after the splice `u`, if `u` is one. */
  function Adjusted(f: Tag, u: Tag): int {
    if KindType1(u.kind) == TYPE_SPLICE && u.id <= f.id then f.id + KindSplice(u.kind) else f.id
  }

  /** A later tag that does not make `f` redundant never moves it below id 0. */
  lemma AdjustedNat(f: Tag, u: Tag)
    requires u.PlainSplice() && !Redundant(f, u)
    ensures Adjusted(f, u) >= 0
  {
  }

  /** The id `f` ends up with after the tags that follow it, or None when one of them makes it redundant. */
  function Survive(f: Tag, rest: Log): Option<nat>
    requires PlainLog(rest)
    decreases |rest|
  {
    if rest == [] then Some(f.id)
    else if Redundant(f, rest[0]) then None
    else
      AdjustedNat(f, rest[0]);
      Survive(f.(id := Adjusted(f, rest[0])), rest[1..])
  }

  /** A tag put in front of a log is the last one a backward walk comes to. */
  lemma BackScanCons(u: Tag, rest: Log, mask: nat, kind: nat, id: nat)
    requires mask > 0
    ensures BackScan([u], mask, kind, id) == BackStep(u, mask, kind, id)
    ensures var b := BackScan(rest, mask, kind, id);
            BackScan([u] + rest, mask, kind, id) == if b.Hit? then b else BackStep(u, mask, kind, b.id)
  {
    BackScanConcat([u], rest, mask, kind, id);
    BackScanOne(u, mask, kind, id);
    var b := BackScan(rest, mask, kind, id);
    if b.Reached? { BackScanOne(u, mask, kind, b.id); }
  }

  lemma BackScanOne(u: Tag, mask: nat, kind: nat, id: nat)
    requires mask > 0
    ensures BackScan([u], mask, kind, id) == BackStep(u, mask, kind, id)
  {
    Snoc([], u);
    Neutral([u]);
    var b := BackStep(u, mask, kind, id);
    assert BackScan([u], mask, kind, id) == ScanOn(b, [], mask, kind);
  }

  /** The forward filter and the backward walk see the same history: `f` survives as id j exactly when the walk for
      f's own type, started at j after the later tags, comes out at f's id. */
  lemma {:induction false} SurviveIsBackScan(f: Tag, rest: Log, j: nat)
    requires PlainLog(rest) && f.size != NO_SIZE && f.kind < 0x400
    ensures Survive(f, rest) == Some(j) <==> BackScan(rest, KeyMask(f.kind), f.kind, j) == Reached(f.id)
    decreases |rest|
  {
    if rest != [] {
      hide Redundant, Adjusted, BackStep, BackScan;
      var u, rest' := rest[0], rest[1..];
      assert rest == [u] + rest';
      BackScanCons(u, rest', KeyMask(f.kind), f.kind, j);
      if Redundant(f, u) {
        FilterIsStep(f, u, BackScan(rest', KeyMask(f.kind), f.kind, j));
      } else {
        AdjustedNat(f, u);
        FilterIsStep(f, u, BackScan(rest', KeyMask(f.kind), f.kind, j));
        SurviveIsBackScan(f.(id := Adjusted(f, u)), rest', j);
      }
    }
  }

  /** One tag: stepping back over `u` arrives at f's id exactly from the id that passing `u` forward gives f. */
  lemma FilterIsStep(f: Tag, u: Tag, b: Back)
    requires u.PlainSplice() && f.size != NO_SIZE && f.kind < 0x400
    ensures b.Reached? && Redundant(f, u) ==> BackStep(u, KeyMask(f.kind), f.kind, b.id) != Reached(f.id)
    ensures b.Reached? && !Redundant(f, u) ==>
              (BackStep(u, KeyMask(f.kind), f.kind, b.id) == Reached(f.id) <==> b.id == Adjusted(f, u))
  {
  }

  // ---------------------------------------------------------------- what a traversal emits

  /** What one pass hands to its callback for tag `t`, when `rest` is everything that still follows. */
  function EmitTag(t: Tag, rest: Log, sel: Selection, begin: nat, end: nat, diff: int): (r: Log)
    requires PlainLog(rest) && 0 <= begin + diff
    ensures forall i :: 0 <= i < |r| ==> Selected(sel, r[i].kind) && begin + diff <= r[i].id < end + diff
  {
    if !Selected(sel, t.kind) then []
    else
      var j := Survive(t, rest);
      if j.Some? && begin <= j.value < end then [t.(id := j.value + diff)] else []
  }

  /** The emission for the tags of a log that is followed by `after`. */
  function EmitLog(log: Log, after: Log, sel: Selection, begin: nat, end: nat, diff: int): (r: Log)
    requires PlainLog(log) && PlainLog(after) && 0 <= begin + diff
    ensures forall i :: 0 <= i < |r| ==> Selected(sel, r[i].kind) && begin + diff <= r[i].id < end + diff
  {
    if log == [] then []
    else EmitTag(log[0], log[1..] + after, sel, begin, end, diff) + EmitLog(log[1..], after, sel, begin, end, diff)
  }

  /** A pending change handed to a commit: a tag, nothing, an entry carried over from another directory, or a list of
      user attributes. The last three never reach the disk as such. */
  datatype Item =
    | Plain(tag: Tag)
    | Noop
    | Move(to: nat, from: nat, source: Log)
    | UserAttrs(id: nat, list: seq<Attr>)

  ghost predicate ValidItem(it: Item) {
    match it
    case Plain(t) => t.Valid() && t.PlainSplice() && t.kind != FROM_NOOP && KindType1(t.kind) != TYPE_FROM
    case Noop => true
    case Move(to, from, source) =>
      to < 0x400 && from < NO_SIZE && ValidLog(source) && (source != [] ==> !Last(source).IsAttr())
    case UserAttrs(id, list) =>
      id < 0x400 && |list| < NO_SIZE
      && forall i :: 0 <= i < |list| ==> KindType1(list[i].kind) == TYPE_USERATTR && list[i].size < NO_SIZE
                                         && |list[i].data| == list[i].size
  }

  ghost predicate ValidItems(items: seq<Item>) {
    forall i :: 0 <= i < |items| ==> ValidItem(items[i])
  }

  function AttrTags(list: seq<Attr>, id: nat): (r: Log)
    ensures |r| == |list|
    ensures forall i :: 0 <= i < |list| ==> r[i] == Tag(list[i].kind, id, list[i].size, list[i].data)
  {
    seq(|list|, i requires 0 <= i < |list| => Tag(list[i].kind, id, list[i].size, list[i].data))
  }

  /** The tags an item stands for when its entry has id `id`. */
  function TagsAt(it: Item, id: nat): (r: Log)
    requires ValidItem(it)
    ensures PlainLog(r) && forall i :: 0 <= i < |r| ==> r[i].id == id
  {
    match it
    case Plain(t) => [t.(id := id)]
    case Noop => []
    case Move(to, from, source) => EmitLog(source, [], MovedTags, from, from + 1, id - from)
    case UserAttrs(_, list) => AttrTags(list, id)
  }

  /** The tag word the item itself carries while it is being filtered. */
  function Header(it: Item): Tag {
    match it
    case Plain(t) => t
    case Noop => Tag(FROM_NOOP, 0, 0, [])
    case Move(to, from, source) => Tag(FROM_MOVE, to, from, [])
    case UserAttrs(id, list) => Tag(FROM_USERATTRS, id, |list|, [])
  }

  function Expand(it: Item): Log
    requires ValidItem(it)
  {
    TagsAt(it, Header(it).id)
  }

  function ExpandAll(items: seq<Item>): (r: Log)
    requires ValidItems(items)
    ensures PlainLog(r)
  {
    if items == [] then [] else Expand(items[0]) + ExpandAll(items[1..])
  }

  function EmitItem(it: Item, rest: Log, begin: nat, end: nat, diff: int): Log
    requires ValidItem(it) && PlainLog(rest) && 0 <= begin + diff
  {
    if !Selected(EntryTags, Header(it).kind) then []
    else
      var j := Survive(Header(it), rest);
      if j.Some? && begin <= j.value < end then TagsAt(it, j.value + diff) else []
  }

  function EmitItems(items: seq<Item>, after: Log, begin: nat, end: nat, diff: int): Log
    requires ValidItems(items) && PlainLog(after) && 0 <= begin + diff
  {
    if items == [] then []
    else EmitItem(items[0], ExpandAll(items[1..]) + after, begin, end, diff) + EmitItems(items[1..], after, begin, end, diff)
  }

  /** What a compaction of ids [begin, end) writes: the disk tags, then the pending items, each filtered against
      everything after it; `move` is the deletion a pending move adds at the very end, if there is one. */
  function Compacted(log: Log, items: seq<Item>, move: Log, begin: nat, end: nat): Log
    requires PlainLog(log) && ValidItems(items) && PlainLog(move)
  {
    var diff: int := 0 - begin;
    EmitLog(log, ExpandAll(items) + move, EntryTags, begin, end, diff) + EmitItems(items, move, begin, end, diff)
  }

  /** What the same commit means: the log with every pending change applied. */
  function Intended(log: Log, items: seq<Item>, move: Log): Log
    requires ValidItems(items)
  {
    log + (ExpandAll(items) + move)
  }

  // ---------------------------------------------------------------- meaning is preserved

  /** A type entries are asked for, under the mask that tells two of its attributes apart. */
  predicate Key(sel: Selection, mask: nat, kind: nat) {
    kind < 0x400 && mask == KeyMask(kind) && Selected(sel, kind) && KindType1(kind) != TYPE_FROM
  }

  /** The types of attributes on disk are names, structs and user attributes, of which only user attributes differ by
      their chunk; a move carries structs and user attributes. */
  lemma DiskKinds(mask: nat, kind: nat)
    ensures Key(EntryTags, mask, kind) <==> kind < 0x400 && kind / 0x100 != 1 && mask == (if kind >= 0x300 then 1 else 0x100)
    ensures Key(MovedTags, mask, kind) <==> 0x200 <= kind < 0x400 && mask == (if kind >= 0x300 then 1 else 0x100)
  {
  }

  /** How a walk over the emitted tags (at id `jd`) may differ from the walk over the originals (at the id it stands
      for): only by not recording that something is absent. */
  predicate Matches(orig: Back, emitted: Back, jd: nat) {
    match orig
    case Reached(_) => emitted == Reached(jd)
    case Hit(a) =>
      if Live(a).Some? then emitted == orig
      else emitted == Reached(jd) || (emitted.Hit? && Live(emitted.found).None?)
  }

  lemma {:induction false} ScanMisses(log: Log, mask: nat, kind: nat, id: nat)
    requires mask > 0
    requires forall i :: 0 <= i < |log| ==> log[i].kind < 0x400 && (log[i].id != id || !SameKind(mask, log[i].kind, kind))
    ensures BackScan(log, mask, kind, id) == Reached(id)
  {
    if log != [] {
      assert Front(log) == log[..|log| - 1];
      ScanMisses(Front(log), mask, kind, id);
    }
  }

  lemma {:induction false} BackScanSameKey(log: Log, mask: nat, kind: nat, other: nat, id: nat)
    requires mask > 0 && SameKind(mask, kind, other)
    ensures BackScan(log, mask, kind, id) == BackScan(log, mask, other, id)
  {
    if log != [] {
      var b := BackStep(Last(log), mask, kind, id);
      if b.Reached? { BackScanSameKey(Front(log), mask, kind, other, b.id); }
    }
  }

  /** One tag of the type asked for: it answers the walk over the emission exactly when it answers the original one. */
  lemma TagAnswers(t: Tag, rest: Log, sel: Selection, begin: nat, end: nat, diff: int, mask: nat, kind: nat, j: nat)
    requires PlainLog(rest) && 0 <= begin + diff && begin <= j < end
    requires Key(sel, mask, kind) && Selected(sel, t.kind) && SameKind(mask, t.kind, kind) && t.size != NO_SIZE
    ensures var y := EmitTag(t, rest, sel, begin, end, diff);
            && (BackScan(rest, mask, kind, j) == Reached(t.id) <==> y == [t.(id := j + diff)])
            && (y == [] || y == [t.(id := j + diff)] || (|y| == 1 && y[0].id != j + diff))
  {
    hide Selected, PlainLog;
    SameKey(mask, kind, t.kind);
    SurviveIsBackScan(t, rest, j);
    BackScanSameKey(rest, mask, t.kind, kind, j);
  }

  /** One tag: if the walks agree on what follows, they agree with the tag and its emission put in front. */
  lemma TagMatches(t: Tag, rest: Log, emitted: Log, sel: Selection, begin: nat, end: nat, diff: int,
                   mask: nat, kind: nat, j: nat)
    requires PlainLog(rest) && t.PlainSplice() && t.kind < 0x800 && 0 <= begin + diff && begin <= j < end
    requires Key(sel, mask, kind)
    requires Matches(BackScan(rest, mask, kind, j), BackScan(emitted, mask, kind, j + diff), j + diff)
    ensures Matches(BackScan([t] + rest, mask, kind, j),
                    BackScan(EmitTag(t, rest, sel, begin, end, diff) + emitted, mask, kind, j + diff), j + diff)
  {
    hide BackScan, PlainLog;
    var o, e := BackScan(rest, mask, kind, j), BackScan(emitted, mask, kind, j + diff);
    var y := EmitTag(t, rest, sel, begin, end, diff);
    BackScanCons(t, rest, mask, kind, j);
    if y == [] {
      Neutral(emitted);
    } else {
      BackScanCons(y[0], emitted, mask, kind, j + diff);
    }
    if Selected(sel, t.kind) && SameKind(mask, t.kind, kind) {
      SameKey(mask, kind, t.kind);
      if t.size != NO_SIZE {
        TagAnswers(t, rest, sel, begin, end, diff, mask, kind, j);
      } else {
        DeletionDropped(t, rest, sel, begin, end, diff, mask, kind, j);
      }
    }
  }

  /** A record of a deletion is only emitted when nothing follows it. */
  lemma DeletionDropped(t: Tag, rest: Log, sel: Selection, begin: nat, end: nat, diff: int, mask: nat, kind: nat, j: nat)
    requires PlainLog(rest) && 0 <= begin + diff && t.size == NO_SIZE && mask > 0
    ensures var y := EmitTag(t, rest, sel, begin, end, diff);
            y == [] || (y == [t.(id := t.id + diff)] && BackScan(rest, mask, kind, j) == Reached(j))
  {
    hide Selected;
    if rest != [] { assert Redundant(t, rest[0]); }
  }

  lemma SameKey(mask: nat, kind: nat, other: nat)
    requires mask == KeyMask(kind) && SameKind(mask, other, kind)
    ensures KeyMask(other) == mask && SameKind(mask, other, kind)
    ensures kind < 0x400 ==> other < 0x400
  {
  }

  /** The disk part of a traversal keeps the agreement, tag by tag. */
  lemma {:induction false} LogMatches(log: Log, after: Log, emitted: Log, sel: Selection, begin: nat, end: nat, diff: int,
                                      mask: nat, kind: nat, j: nat)
    requires ValidLog(log) && PlainLog(after) && 0 <= begin + diff && begin <= j < end && Key(sel, mask, kind)
    requires Matches(BackScan(after, mask, kind, j), BackScan(emitted, mask, kind, j + diff), j + diff)
    ensures Matches(BackScan(log + after, mask, kind, j),
                    BackScan(EmitLog(log, after, sel, begin, end, diff) + emitted, mask, kind, j + diff), j + diff)
    decreases |log|
  {
    if log == [] {
      Neutral(after);
      Neutral(emitted);
    } else {
      var t, rest := log[0], log[1..];
      LogMatches(rest, after, emitted, sel, begin, end, diff, mask, kind, j);
      var x, y := EmitTag(t, rest + after, sel, begin, end, diff), EmitLog(rest, after, sel, begin, end, diff);
      TagMatches(t, rest + after, y + emitted, sel, begin, end, diff, mask, kind, j);
      HeadTail(log);
      Assoc([t], rest, after);
      Assoc(x, y, emitted);
    }
  }

  /** A walk for a type no tag has only follows ids; walks that pass every attribute, or stop at a creation, agree with it. */
  lemma {:induction false} OriginAgrees(log: Log, mask: nat, kind: nat, source: nat, id: nat)
    requires mask > 0 && NoSources(log) && KindType1(source) == TYPE_FROM
    requires var b := BackScan(log, mask, kind, id); b.Reached? || b == Hit(None)
    ensures BackScan(log, 1, source, id) == BackScan(log, mask, kind, id)
  {
    if log != [] {
      assert Front(log) == log[..|log| - 1];
      var b := BackStep(Last(log), mask, kind, id);
      assert BackStep(Last(log), 1, source, id) == b;
      if b.Reached? { OriginAgrees(Front(log), mask, kind, source, b.id); }
    }
  }

  ghost predicate NoSources(log: Log) {
    forall i :: 0 <= i < |log| ==> KindType1(log[i].kind) != TYPE_FROM
  }

  ghost predicate NoDeletions(log: Log) {
    forall i :: 0 <= i < |log| ==> log[i].IsAttr() ==> log[i].size != NO_SIZE
  }

  lemma {:induction false} FindsNoDeletion(log: Log, mask: nat, kind: nat, id: nat)
    requires mask > 0 && NoDeletions(log)
    ensures var b := BackScan(log, mask, kind, id); b.Hit? && b.found.Some? ==> Live(b.found).Some?
  {
    if log != [] {
      assert Front(log) == log[..|log| - 1];
      var b := BackStep(Last(log), mask, kind, id);
      if b.Reached? { FindsNoDeletion(Front(log), mask, kind, b.id); }
    }
  }

  /** Live attributes of one entry. */
  ghost predicate OneEntry(x: Log, id: nat) {
    forall i :: 0 <= i < |x| ==>
      x[i].IsAttr() && x[i].id == id && KindType1(x[i].kind) != TYPE_FROM && x[i].size != NO_SIZE
  }

  ghost predicate Retagged(x: Log, y: Log, id: nat) {
    |x| == |y| && forall i :: 0 <= i < |x| ==> y[i] == x[i].(id := id)
  }

  /** A list of attributes of one entry reads the same wherever that entry stands. */
  lemma {:induction false} ScanRetagged(x: Log, y: Log, a: nat, b: nat, mask: nat, kind: nat)
    requires mask > 0 && OneEntry(x, a) && Retagged(x, y, b)
    ensures var o, e := BackScan(x, mask, kind, a), BackScan(y, mask, kind, b);
            (o.Hit? && e == o && Live(o.found).Some?) || (o == Reached(a) && e == Reached(b))
  {
    if x != [] {
      hide SameKind;
      var t := Last(x);
      assert Last(y) == t.(id := b) && t.IsAttr() && t.id == a && t.size != NO_SIZE;
      assert Front(x) == x[..|x| - 1] && Front(y) == y[..|y| - 1];
      assert OneEntry(Front(x), a) && Retagged(Front(x), Front(y), b);
      ScanRetagged(Front(x), Front(y), a, b, mask, kind);
      var o := BackStep(t, mask, kind, a);
      assert BackScan(x, mask, kind, a) == ScanOn(o, Front(x), mask, kind);
    }
  }

  /** The shift only decides which ids an emission carries. */
  lemma {:induction false} EmitLogShift(log: Log, after: Log, sel: Selection, begin: nat, end: nat, d: int, d': int)
    requires PlainLog(log) && PlainLog(after) && 0 <= begin + d && 0 <= begin + d' && end <= begin + 1
    ensures Retagged(EmitLog(log, after, sel, begin, end, d), EmitLog(log, after, sel, begin, end, d'), begin + d')
  {
    if log != [] {
      EmitLogShift(log[1..], after, sel, begin, end, d, d');
    }
  }

  /** Filtering against what follows drops deletion records, as long as something does follow. */
  lemma {:induction false} EmitLogNoDeletions(log: Log, sel: Selection, begin: nat, end: nat, diff: int)
    requires ValidLog(log) && 0 <= begin + diff && (log != [] ==> !Last(log).IsAttr())
    ensures NoDeletions(EmitLog(log, [], sel, begin, end, diff))
  {
    if log != [] {
      Neutral(log[1..]);
      var t := log[0];
      if |log| > 1 {
        assert Last(log[1..]) == Last(log);
        EmitLogNoDeletions(log[1..], sel, begin, end, diff);
        assert t.size == NO_SIZE ==> Redundant(t, log[1..][0]);
      }
    }
  }

  predicate IsGroup(it: Item) { it.Move? || it.UserAttrs? }

  lemma MovedKinds(kind: nat)
    requires Selected(MovedTags, kind)
    ensures kind < 0x400 && KindType1(kind) != TYPE_FROM
  {
  }

  lemma MoveTags(source: Log, from: nat, id: nat)
    requires ValidLog(source) && (source != [] ==> !Last(source).IsAttr())
    ensures OneEntry(EmitLog(source, [], MovedTags, from, from + 1, id - from), id)
  {
    var x := EmitLog(source, [], MovedTags, from, from + 1, id - from);
    EmitLogNoDeletions(source, MovedTags, from, from + 1, id - from);
    forall i | 0 <= i < |x|
      ensures x[i].IsAttr() && x[i].id == id && KindType1(x[i].kind) != TYPE_FROM && x[i].size != NO_SIZE
    {
      MovedKinds(x[i].kind);
    }
  }

  /** The tags of a group: live attributes of one entry, the same ones wherever the entry stands. */
  lemma GroupTags(it: Item, a: nat, b: nat)
    requires ValidItem(it) && IsGroup(it)
    ensures OneEntry(TagsAt(it, a), a) && Retagged(TagsAt(it, a), TagsAt(it, b), b)
  {
    hide Selected, EmitLog;
    if it.Move? {
      MoveTags(it.source, it.from, a);
      EmitLogShift(it.source, [], MovedTags, it.from, it.from + 1, a - it.from, b - it.from);
    }
  }

  lemma MissOther(it: Item, a: nat, id: nat, mask: nat, kind: nat)
    requires ValidItem(it) && IsGroup(it) && a != id && mask > 0
    ensures BackScan(TagsAt(it, a), mask, kind, id) == Reached(id)
  {
    hide TagsAt;
    GroupTags(it, a, a);
    ScanMisses(TagsAt(it, a), mask, kind, id);
  }

  /** When a group's entry survives as id j', its tags are emitted at j'; otherwise nothing is. */
  lemma GroupEmission(it: Item, rest: Log, begin: nat, end: nat, diff: int)
    requires ValidItem(it) && IsGroup(it) && PlainLog(rest) && 0 <= begin + diff
    ensures var j := Survive(Header(it), rest);
            EmitItem(it, rest, begin, end, diff) ==
            if j.Some? && begin <= j.value < end then TagsAt(it, j.value + diff) else []
  {
    hide Survive, TagsAt, PlainLog, ValidItem;
    assert Selected(EntryTags, FROM_MOVE) && Selected(EntryTags, FROM_USERATTRS);
  }

  /** Where the walk for a type ends up decides whether the group's entry is the one looked for. */
  lemma GroupSurvives(it: Item, rest: Log, mask: nat, kind: nat, j: nat)
    requires ValidItem(it) && IsGroup(it) && PlainLog(rest) && NoSources(rest) && mask > 0
    requires var b := BackScan(rest, mask, kind, j); b.Reached? || b == Hit(None)
    ensures Survive(Header(it), rest) == Some(j) <==> BackScan(rest, mask, kind, j) == Reached(Header(it).id)
  {
    hide Survive, BackScan;
    SurviveIsBackScan(Header(it), rest, j);
    OriginAgrees(rest, mask, kind, Header(it).kind, j);
  }

  /** A group is filtered by its own header and copied whole, unfiltered against what follows. */
  lemma GroupMatches(it: Item, rest: Log, emitted: Log, begin: nat, end: nat, diff: int, mask: nat, kind: nat, j: nat)
    requires ValidItem(it) && IsGroup(it) && PlainLog(rest) && NoSources(rest)
    requires 0 <= begin + diff && begin <= j < end && Key(EntryTags, mask, kind)
    requires !IsRemoval(BackScan(rest, mask, kind, j))
    requires Matches(BackScan(rest, mask, kind, j), BackScan(emitted, mask, kind, j + diff), j + diff)
    ensures Matches(BackScan(Expand(it) + rest, mask, kind, j),
                    BackScan(EmitItem(it, rest, begin, end, diff) + emitted, mask, kind, j + diff), j + diff)
  {
    hide BackScan, Survive, TagsAt, EmitItem, PlainLog, NoSources, Selected;
    var h, jd := Header(it), j + diff;
    var x, y := Expand(it), EmitItem(it, rest, begin, end, diff);
    BackScanConcat(x, rest, mask, kind, j);
    BackScanConcat(y, emitted, mask, kind, jd);
    GroupEmission(it, rest, begin, end, diff);
    var o := BackScan(rest, mask, kind, j);
    if o.Reached? || o == Hit(None) { GroupSurvives(it, rest, mask, kind, j); }
    if o == Reached(h.id) {
      GroupTags(it, h.id, jd);
      ScanRetagged(x, y, h.id, jd, mask, kind);
    } else {
      if o.Reached? { MissOther(it, h.id, o.id, mask, kind); }
      if y == [] {
        Neutral(emitted);
      } else {
        var to := Survive(h, rest).value + diff;
        if to != jd { MissOther(it, to, jd, mask, kind); }
      }
    }
  }

  // ---------------------------------------------------------------- when a removal is lost

  /** The walk found the record of a removed attribute. */
  predicate IsRemoval(b: Back) { b.Hit? && b.found.Some? && b.found.value.size == NO_SIZE }

  /** The newest record of an attribute is its removal, and something follows it: then the filter drops the removal. */
  predicate RemovalDropped(rest: Log, mask: nat, kind: nat, j: nat)
    requires mask > 0
  {
    IsRemoval(BackScan(rest, mask, kind, j)) && rest != [] && BackStep(Last(rest), mask, kind, j).Reached?
  }

  /** A group sets an attribute of the entry that becomes id j behind the tags `rest`, in which the attribute is removed
      again. The first walk looks for the group's own type, which no tag has, so that it only follows the id. */
  predicate LosesAt(it: Item, rest: Log, mask: nat, kind: nat, j: nat)
    requires ValidItem(it) && mask > 0
  {
    && IsGroup(it)
    && BackScan(rest, 1, Header(it).kind, j) == Reached(Header(it).id)
    && BackScan(Expand(it), mask, kind, Header(it).id).Hit?
    && RemovalDropped(rest, mask, kind, j)
  }

  /** One of the pending items sets an attribute whose later removal is dropped. */
  predicate Loses(items: seq<Item>, move: Log, mask: nat, kind: nat, j: nat)
    requires ValidItems(items) && mask > 0
  {
    items != []
    && (LosesAt(items[0], ExpandAll(items[1..]) + move, mask, kind, j) || Loses(items[1..], move, mask, kind, j))
  }

  /** How the walk over what is emitted relates to the walk over the original when nothing is lost: a removal is
      recorded if it is the last tag of all and leaves no trace otherwise. */
  predicate Tracks(rest: Log, emitted: Log, mask: nat, kind: nat, j: nat, jd: nat)
    requires mask > 0
  {
    var o, e := BackScan(rest, mask, kind, j), BackScan(emitted, mask, kind, jd);
    Matches(o, e, jd) && (IsRemoval(o) ==> (RemovalDropped(rest, mask, kind, j) <==> e == Reached(jd)))
  }

  /** What happens to one attribute: it is lost, or the walks agree. */
  predicate Outcome(lost: bool, rest: Log, emitted: Log, mask: nat, kind: nat, j: nat, jd: nat)
    requires mask > 0
  {
    if lost then
      RemovalDropped(rest, mask, kind, j) && BackScan(emitted, mask, kind, jd).Hit?
      && Live(BackScan(emitted, mask, kind, jd).found).Some?
    else Tracks(rest, emitted, mask, kind, j, jd)
  }

  /** A removal stays the newest record, and what is emitted for it stays the same, when tags are put in front. */
  lemma RemovalStays(x: Log, rest: Log, mask: nat, kind: nat, j: nat)
    requires mask > 0 && IsRemoval(BackScan(rest, mask, kind, j))
    ensures BackScan(x + rest, mask, kind, j) == BackScan(rest, mask, kind, j)
    ensures RemovalDropped(x + rest, mask, kind, j) <==> RemovalDropped(rest, mask, kind, j)
  {
    BackScanConcat(x, rest, mask, kind, j);
    AppendFront(x, rest);
  }

  /** A group in front of a removal: whether it brings the attribute back. */
  lemma GroupOutcome(it: Item, rest: Log, emitted: Log, begin: nat, end: nat, diff: int, mask: nat, kind: nat, j: nat)
    requires ValidItem(it) && IsGroup(it) && PlainLog(rest) && NoSources(rest)
    requires 0 <= begin + diff && begin <= j < end && Key(EntryTags, mask, kind)
    requires Tracks(rest, emitted, mask, kind, j, j + diff)
    ensures Outcome(LosesAt(it, rest, mask, kind, j), Expand(it) + rest, EmitItem(it, rest, begin, end, diff) + emitted,
                    mask, kind, j, j + diff)
  {
    hide BackScan, BackStep, Survive, TagsAt, EmitItem, PlainLog, NoSources, Selected;
    var h, jd := Header(it), j + diff;
    var x, y := Expand(it), EmitItem(it, rest, begin, end, diff);
    var o := BackScan(rest, mask, kind, j);
    if !IsRemoval(o) {
      GroupMatches(it, rest, emitted, begin, end, diff, mask, kind, j);
      GroupRemovesNothing(it, rest, mask, kind, j);
    } else {
      RemovalStays(x, rest, mask, kind, j);
      BackScanConcat(y, emitted, mask, kind, jd);
      GroupEmission(it, rest, begin, end, diff);
      SurviveIsBackScan(h, rest, j);
      if BackScan(rest, 1, h.kind, j) == Reached(h.id) {
        GroupTags(it, h.id, jd);
        ScanRetagged(x, y, h.id, jd, mask, kind);
      } else if y == [] {
        Neutral(emitted);
      } else {
        MissOther(it, Survive(h, rest).value + diff, jd, mask, kind);
      }
    }
  }

  lemma GroupRemovesNothing(it: Item, rest: Log, mask: nat, kind: nat, j: nat)
    requires ValidItem(it) && IsGroup(it) && mask > 0 && !IsRemoval(BackScan(rest, mask, kind, j))
    ensures !IsRemoval(BackScan(Expand(it) + rest, mask, kind, j))
  {
    hide BackScan, BackStep, TagsAt;
    var h, o := Header(it), BackScan(rest, mask, kind, j);
    BackScanConcat(Expand(it), rest, mask, kind, j);
    GroupTags(it, h.id, h.id);
    if o == Reached(h.id) {
      ScanRetagged(Expand(it), Expand(it), h.id, h.id, mask, kind);
    } else if o.Reached? {
      MissOther(it, h.id, o.id, mask, kind);
    }
  }

  /** A single pending tag in front of a removal brings nothing back. */
  lemma PlainBeforeRemoval(t: Tag, rest: Log, begin: nat, end: nat, diff: int, mask: nat, kind: nat, j: nat)
    requires PlainLog(rest) && t.PlainSplice() && t.kind < 0x800 && 0 <= begin + diff && begin <= j < end
    requires Key(EntryTags, mask, kind) && IsRemoval(BackScan(rest, mask, kind, j))
    ensures BackScan(EmitTag(t, rest, EntryTags, begin, end, diff), mask, kind, j + diff) == Reached(j + diff)
  {
    hide BackScan, PlainLog;
    var y := EmitTag(t, rest, EntryTags, begin, end, diff);
    if y == [] {
      ScanMisses(y, mask, kind, j + diff);
    } else {
      BackScanOne(y[0], mask, kind, j + diff);
      if SameKind(mask, t.kind, kind) {
        if t.size != NO_SIZE {
          TagAnswers(t, rest, EntryTags, begin, end, diff, mask, kind, j);
        } else {
          DeletionDropped(t, rest, EntryTags, begin, end, diff, mask, kind, j);
        }
      }
    }
  }

  /** A single pending tag that is itself the newest record and removes the attribute: it is kept only if it is last. */
  lemma PlainIsRemoval(t: Tag, rest: Log, begin: nat, end: nat, diff: int, mask: nat, kind: nat, j: nat)
    requires PlainLog(rest) && t.kind < 0x800 && 0 <= begin + diff && begin <= j < end && Key(EntryTags, mask, kind)
    requires BackScan(rest, mask, kind, j).Reached? && IsRemoval(BackStep(t, mask, kind, BackScan(rest, mask, kind, j).id))
    ensures IsRemoval(BackScan([t] + rest, mask, kind, j))
    ensures var y := EmitTag(t, rest, EntryTags, begin, end, diff);
            if RemovalDropped([t] + rest, mask, kind, j) then y == []
            else BackScan(y, mask, kind, j + diff) == BackStep(t, mask, kind, t.id)
  {
    hide PlainLog;
    BackScanCons(t, rest, mask, kind, j);
    if rest == [] {
      assert [t] + rest == [t];
      BackScanOne(t.(id := j + diff), mask, kind, j + diff);
    } else {
      AppendFront([t], rest);
      assert Redundant(t, rest[0]);
      assert BackScan(rest, mask, kind, j) == ScanOn(BackStep(Last(rest), mask, kind, j), Front(rest), mask, kind);
    }
  }

  /** A single pending tag in front. */
  lemma PlainOutcome(t: Tag, rest: Log, emitted: Log, begin: nat, end: nat, diff: int, mask: nat, kind: nat, j: nat)
    requires PlainLog(rest) && t.PlainSplice() && t.kind < 0x800 && 0 <= begin + diff && begin <= j < end
    requires Key(EntryTags, mask, kind) && Tracks(rest, emitted, mask, kind, j, j + diff)
    ensures Tracks([t] + rest, EmitTag(t, rest, EntryTags, begin, end, diff) + emitted, mask, kind, j, j + diff)
  {
    hide BackScan, BackStep, PlainLog, EmitTag, Selected, RemovalDropped;
    var y := EmitTag(t, rest, EntryTags, begin, end, diff);
    var o := BackScan(rest, mask, kind, j);
    TagMatches(t, rest, emitted, EntryTags, begin, end, diff, mask, kind, j);
    BackScanConcat(y, emitted, mask, kind, j + diff);
    BackScanCons(t, rest, mask, kind, j);
    if IsRemoval(o) {
      RemovalStays([t], rest, mask, kind, j);
      PlainBeforeRemoval(t, rest, begin, end, diff, mask, kind, j);
    } else if o.Reached? && IsRemoval(BackStep(t, mask, kind, o.id)) {
      PlainIsRemoval(t, rest, begin, end, diff, mask, kind, j);
      OwnStep(t, mask, kind, o.id);
      Neutral(emitted);
    } else {
      NotDropped([t] + rest, mask, kind, j);
    }
  }

  lemma OwnStep(t: Tag, mask: nat, kind: nat, id: nat)
    requires mask > 0 && IsRemoval(BackStep(t, mask, kind, id))
    ensures BackStep(t, mask, kind, t.id) == BackStep(t, mask, kind, id)
  {
  }

  lemma NotDropped(rest: Log, mask: nat, kind: nat, j: nat)
    requires mask > 0 && !IsRemoval(BackScan(rest, mask, kind, j))
    ensures !RemovalDropped(rest, mask, kind, j)
  {
  }

  lemma ExpandKinds(it: Item)
    requires ValidItem(it)
    ensures NoSources(Expand(it)) && (it.Plain? || NoDeletions(Expand(it)))
  {
    hide TagsAt;
    if IsGroup(it) {
      GroupTags(it, Header(it).id, Header(it).id);
    } else {
      PlainOrNoop(it);
    }
  }

  lemma PlainOrNoop(it: Item)
    requires ValidItem(it) && !IsGroup(it)
    ensures Expand(it) == if it.Plain? then [it.tag] else []
  {
  }

  lemma {:induction false} ExpandAllKinds(items: seq<Item>)
    requires ValidItems(items)
    ensures NoSources(ExpandAll(items))
    ensures (forall k :: 0 <= k < |items| && items[k].Plain? && items[k].tag.IsAttr() ==> items[k].tag.size != NO_SIZE)
            ==> NoDeletions(ExpandAll(items))
  {
    if items != [] {
      hide TagsAt;
      ExpandKinds(items[0]);
      if items[0].Plain? { PlainOrNoop(items[0]); }
      ExpandAllKinds(items[1..]);
    }
  }

  /** The pending items, item by item: an attribute is lost exactly where Loses says so, all others agree. */
  lemma {:induction false} ItemsOutcome(items: seq<Item>, move: Log, begin: nat, end: nat, diff: int, mask: nat, kind: nat, j: nat)
    requires ValidItems(items) && MoveLog(move)
    requires 0 <= begin + diff && begin <= j < end && Key(EntryTags, mask, kind)
    ensures Outcome(Loses(items, move, mask, kind, j), ExpandAll(items) + move, EmitItems(items, move, begin, end, diff),
                    mask, kind, j, j + diff)
  {
    if items == [] {
      Neutral(move);
      if move != [] { BackScanOne(move[0], mask, kind, j); }
    } else {
      hide Outcome, Expand, EmitItem, LosesAt;
      var it, items' := items[0], items[1..];
      var rest, emitted := ExpandAll(items') + move, EmitItems(items', move, begin, end, diff);
      ItemsOutcome(items', move, begin, end, diff, mask, kind, j);
      Assoc(Expand(it), ExpandAll(items'), move);
      RestHasNoSources(items', move);
      ItemOutcome(it, rest, emitted, begin, end, diff, mask, kind, j, Loses(items', move, mask, kind, j));
    }
  }

  /** One pending item in front of others of which the outcome is known. */
  lemma ItemOutcome(it: Item, rest: Log, emitted: Log, begin: nat, end: nat, diff: int, mask: nat, kind: nat, j: nat, lost: bool)
    requires ValidItem(it) && PlainLog(rest) && NoSources(rest)
    requires 0 <= begin + diff && begin <= j < end && Key(EntryTags, mask, kind)
    requires Outcome(lost, rest, emitted, mask, kind, j, j + diff)
    ensures Outcome(lost || LosesAt(it, rest, mask, kind, j), Expand(it) + rest,
                    EmitItem(it, rest, begin, end, diff) + emitted, mask, kind, j, j + diff)
  {
    hide BackScan, Tracks, Expand, EmitItem, EmitTag, Selected, RemovalDropped, LosesAt, NoSources, PlainLog;
    if lost {
      LostStaysLost(Expand(it), EmitItem(it, rest, begin, end, diff), rest, emitted, mask, kind, j, j + diff);
    } else if IsGroup(it) {
      GroupOutcome(it, rest, emitted, begin, end, diff, mask, kind, j);
    } else {
      NoGroupLosesNothing(it, rest, mask, kind, j);
      if it.Plain? {
        PlainItem(it, rest, begin, end, diff);
        PlainOutcome(it.tag, rest, emitted, begin, end, diff, mask, kind, j);
      } else {
        NoopItem(it, rest, begin, end, diff);
        Neutral(rest);
        Neutral(emitted);
      }
    }
  }

  lemma LostStaysLost(x: Log, y: Log, rest: Log, emitted: Log, mask: nat, kind: nat, j: nat, jd: nat)
    requires mask > 0 && Outcome(true, rest, emitted, mask, kind, j, jd)
    ensures Outcome(true, x + rest, y + emitted, mask, kind, j, jd)
  {
    RemovalStays(x, rest, mask, kind, j);
    BackScanConcat(y, emitted, mask, kind, jd);
  }

  lemma NoGroupLosesNothing(it: Item, rest: Log, mask: nat, kind: nat, j: nat)
    requires ValidItem(it) && !IsGroup(it) && mask > 0
    ensures !LosesAt(it, rest, mask, kind, j)
  {
  }

  lemma PlainItem(it: Item, rest: Log, begin: nat, end: nat, diff: int)
    requires it.Plain? && ValidItem(it) && PlainLog(rest) && 0 <= begin + diff
    ensures Expand(it) == [it.tag] && EmitItem(it, rest, begin, end, diff) == EmitTag(it.tag, rest, EntryTags, begin, end, diff)
  {
  }

  lemma NoopItem(it: Item, rest: Log, begin: nat, end: nat, diff: int)
    requires it.Noop? && PlainLog(rest) && 0 <= begin + diff
    ensures Expand(it) == [] && EmitItem(it, rest, begin, end, diff) == []
  {
  }

  lemma RestHasNoSources(items: seq<Item>, move: Log)
    requires ValidItems(items) && MoveLog(move)
    ensures NoSources(ExpandAll(items) + move)
  {
    hide ExpandAll;
    ExpandAllKinds(items);
  }

  /** A pending move of this pair adds one deletion; without one nothing is added. */
  ghost predicate MoveLog(move: Log) {
    move == [] || (|move| == 1 && move[0].Valid() && move[0].kind == TYPE_DELETE && move[0].size == 0)
  }

  /** Compaction preserves the meaning of the log for one attribute type and entry, the entries [begin, end) of the
      original being the entries of what is written, if and only if the pending items do not lose that attribute; a lost
      one was removed by the commit and is back after it. */
  lemma CompactionPreservesMeaning(log: Log, items: seq<Item>, move: Log, begin: nat, end: nat, mask: nat, kind: nat, j: nat)
    requires ValidLog(log) && ValidItems(items) && MoveLog(move)
    requires begin <= j < end
    requires kind < 0x400 && kind / 0x100 != 1 && mask == (if kind >= 0x300 then 1 else 0x100)
    ensures Held(At(Replay([], Compacted(log, items, move, begin, end)), j - begin), mask, kind)
            == Held(At(Replay([], Intended(log, items, move)), j), mask, kind)
            <==> !Loses(items, move, mask, kind, j)
    ensures Loses(items, move, mask, kind, j) ==>
              Held(At(Replay([], Intended(log, items, move)), j), mask, kind).None?
              && Held(At(Replay([], Compacted(log, items, move, begin, end)), j - begin), mask, kind).Some?
  {
    hide BackScan, Selected, EmitLog, EmitItems, ExpandAll, Replay, Loses, RemovalDropped;
    var diff: int := 0 - begin;
    DiskKinds(mask, kind);
    ItemsOutcome(items, move, begin, end, diff, mask, kind, j);
    var after, emitted := ExpandAll(items) + move, EmitItems(items, move, begin, end, diff);
    if Loses(items, move, mask, kind, j) {
      DroppedIsRemoval(after, mask, kind, j);
      RemovalStays(log, after, mask, kind, j);
      BackScanConcat(EmitLog(log, after, EntryTags, begin, end, diff), emitted, mask, kind, j - begin);
    } else {
      LogMatches(log, after, emitted, EntryTags, begin, end, diff, mask, kind, j);
    }
    BackScanIsReplay([], Compacted(log, items, move, begin, end), mask, kind, j - begin);
    BackScanIsReplay([], Intended(log, items, move), mask, kind, j);
  }

  lemma DroppedIsRemoval(rest: Log, mask: nat, kind: nat, j: nat)
    requires mask > 0 && RemovalDropped(rest, mask, kind, j)
    ensures IsRemoval(BackScan(rest, mask, kind, j))
  {
  }

  /** Deletions of attributes come before the items that are copied whole: no deletion follows a group. */
  ghost predicate DeletionsFirst(items: seq<Item>) {
    forall i, k :: 0 <= i < k < |items| && IsGroup(items[i]) && items[k].Plain? && items[k].tag.IsAttr() ==>
                     items[k].tag.size != NO_SIZE
  }

  /** A list that removes attributes only before its groups, as every caller's does, loses nothing. */
  lemma {:induction false} DeletionsFirstLosesNothing(items: seq<Item>, move: Log, mask: nat, kind: nat, j: nat)
    requires ValidItems(items) && MoveLog(move) && DeletionsFirst(items) && mask > 0
    ensures !Loses(items, move, mask, kind, j)
  {
    if items != [] {
      hide BackScan, ExpandAll;
      DeletionsFirstLosesNothing(items[1..], move, mask, kind, j);
      if IsGroup(items[0]) {
        ExpandAllKinds(items[1..]);
        FindsNoDeletion(ExpandAll(items[1..]) + move, mask, kind, j);
      }
    }
  }

  /** No entry beyond the compacted range is written. */
  lemma CompactionWritesNothingElse(log: Log, items: seq<Item>, move: Log, begin: nat, end: nat, mask: nat, kind: nat, id: nat)
    requires PlainLog(log) && ValidItems(items) && PlainLog(move) && begin <= end <= begin + id && mask > 0
    ensures Held(At(Replay([], Compacted(log, items, move, begin, end)), id), mask, kind).None?
  {
    hide EmitLog, EmitItems, ExpandAll, Survive, TagsAt, Selected, Replay, BackScan, Held;
    var diff: int := 0 - begin;
    EmitLogIds(log, ExpandAll(items) + move, begin, end, diff);
    EmitItemsIds(items, move, begin, end, diff);
    var all: Log := Compacted(log, items, move, begin, end);
    ScanMisses(all, mask, kind, id);
    BackScanIsReplay([], all, mask, kind, id);
    assert Held(At(Replay([], all), id), mask, kind).None? by { NothingHeld(Replay([], all), id, mask, kind); }
  }

  lemma NothingHeld(d: Dir, id: nat, mask: nat, kind: nat)
    requires mask > 0 && Newest(At(d, id), mask, kind).None?
    ensures Held(At(d, id), mask, kind).None?
  {
  }

  lemma EmitLogIds(log: Log, after: Log, begin: nat, end: nat, diff: int)
    requires PlainLog(log) && PlainLog(after) && 0 <= begin + diff
    ensures forall t: Tag :: t in EmitLog(log, after, EntryTags, begin, end, diff) ==>
                               t.kind < 0x400 && begin + diff <= t.id < end + diff
  {
    hide EmitLog;
    forall t: Tag | t in EmitLog(log, after, EntryTags, begin, end, diff)
      ensures t.kind < 0x400 && begin + diff <= t.id < end + diff
    {
      assert Selected(EntryTags, t.kind);
    }
  }

  lemma {:induction false} EmitItemsIds(items: seq<Item>, move: Log, begin: nat, end: nat, diff: int)
    requires ValidItems(items) && PlainLog(move) && 0 <= begin + diff
    ensures forall t: Tag :: t in EmitItems(items, move, begin, end, diff) ==> t.kind < 0x400 && begin + diff <= t.id < end + diff
  {
    if items != [] {
      hide EmitTag, EmitLog, Survive, TagsAt, Selected;
      var it, rest := items[0], ExpandAll(items[1..]) + move;
      EmitItemsIds(items[1..], move, begin, end, diff);
      EmitItemIds(it, rest, begin, end, diff);
    }
  }

  lemma EmitItemIds(it: Item, rest: Log, begin: nat, end: nat, diff: int)
    requires ValidItem(it) && PlainLog(rest) && 0 <= begin + diff
    ensures forall t: Tag :: t in EmitItem(it, rest, begin, end, diff) ==> t.kind < 0x400 && begin + diff <= t.id < end + diff
  {
    hide EmitItem, TagsAt, PlainLog, ValidItem, Survive, EmitTag;
    var e := EmitItem(it, rest, begin, end, diff);
    if IsGroup(it) {
      hide Selected;
      var j := Survive(Header(it), rest);
      GroupEmission(it, rest, begin, end, diff);
      if j.Some? && begin <= j.value < end { GroupTags(it, j.value + diff, 0); }
    } else if it.Plain? {
      PlainItem(it, rest, begin, end, diff);
      assert forall i :: 0 <= i < |e| ==> Selected(EntryTags, e[i].kind);
    } else {
      NoopItem(it, rest, begin, end, diff);
    }
  }

  /** A carried entry: afterwards it holds, of each struct or user attribute type, what the source entry holds, and
      keeps its own attribute only where the source entry has none. */
  lemma MoveCarriesEntry(log: Log, to: nat, from: nat, source: Log, mask: nat, kind: nat)
    requires ValidItem(Move(to, from, source)) && 0x200 <= kind < 0x400 && mask == (if kind >= 0x300 then 1 else 0x100)
    ensures var moved := Held(At(Replay([], source), from), mask, kind);
            Held(At(Replay([], log + Expand(Move(to, from, source))), to), mask, kind)
            == if moved.Some? then moved else Held(At(Replay([], log), to), mask, kind)
  {
    hide Selected, EmitLog, Replay, BackScan;
    DiskKinds(mask, kind);
    var x := Expand(Move(to, from, source));
    ScanMisses([], mask, kind, from);
    ScanMisses([], mask, kind, to);
    LogMatches(source, [], [], MovedTags, from, from + 1, to - from, mask, kind, from);
    Neutral(source);
    Neutral(x);
    GroupTags(Move(to, from, source), to, to);
    ScanRetagged(x, x, to, to, mask, kind);
    BackScanIsReplay([], source, mask, kind, from);
    ReplayConcat([], log, x);
    BackScanIsReplay(Replay([], log), x, mask, kind, to);
  }

  /** Nothing else is carried: other entries, and the target's own name, stay as they are. */
  lemma MoveLeavesRest(log: Log, to: nat, from: nat, source: Log, mask: nat, kind: nat, id: nat)
    requires ValidItem(Move(to, from, source)) && (mask == 1 || mask == 0x80 || mask == 0x100) && (id != to || kind < 0x200)
    ensures Held(At(Replay([], log + Expand(Move(to, from, source))), id), mask, kind)
            == Held(At(Replay([], log), id), mask, kind)
  {
    hide EmitLog, Replay, BackScan, Held, Selected;
    var x := Expand(Move(to, from, source));
    if id != to {
      MissOther(Move(to, from, source), to, id, mask, kind);
    } else {
      forall i | 0 <= i < |x|
        ensures 0x200 <= x[i].kind < 0x400
      {
        MovedRange(x[i].kind);
      }
      ScanOtherKinds(x, mask, kind, id);
    }
    ReplayConcat([], log, x);
    BackScanIsReplay(Replay([], log), x, mask, kind, id);
    HeldIsLive(Replay([], log + x), Replay([], log), id, mask, kind);
  }

  lemma HeldIsLive(d: Dir, d': Dir, id: nat, mask: nat, kind: nat)
    requires mask > 0 && Newest(At(d, id), mask, kind) == Newest(At(d', id), mask, kind)
    ensures Held(At(d, id), mask, kind) == Held(At(d', id), mask, kind)
  {
  }

  lemma MovedRange(kind: nat)
    requires Selected(MovedTags, kind)
    ensures 0x200 <= kind < 0x400
  {
  }

  lemma {:induction false} ScanOtherKinds(x: Log, mask: nat, kind: nat, id: nat)
    requires (mask == 1 || mask == 0x80 || mask == 0x100) && kind < 0x200
    requires forall i :: 0 <= i < |x| ==> 0x200 <= x[i].kind < 0x400
    ensures BackScan(x, mask, kind, id) == Reached(id)
  {
    if x != [] {
      assert forall i :: 0 <= i < |x| - 1 ==> Front(x)[i] == x[i];
      ScanOtherKinds(Front(x), mask, kind, id);
    }
  }

  /** A list of user attributes sets each of them to its last value in the list, and leaves all others alone. */
  lemma UserAttrsSet(log: Log, id: nat, list: seq<Attr>, kind: nat)
    requires ValidItem(UserAttrs(id, list)) && kind < 0x400
    ensures var given := Newest(list, 1, kind);
            Held(At(Replay([], log + Expand(UserAttrs(id, list))), id), 1, kind)
            == if given.Some? then given else Held(At(Replay([], log), id), 1, kind)
  {
    hide Replay, BackScan;
    var x := Expand(UserAttrs(id, list));
    ScanList(list, id, kind);
    ReplayConcat([], log, x);
    BackScanIsReplay(Replay([], log), x, 1, kind, id);
    if Newest(list, 1, kind).Some? { var i := GivenIsThere(list, kind); }
  }

  lemma {:induction false} ScanList(list: seq<Attr>, id: nat, kind: nat)
    requires forall i :: 0 <= i < |list| ==> list[i].kind < 0x400
    ensures var given := Newest(list, 1, kind);
            BackScan(AttrTags(list, id), 1, kind, id) == if given.Some? then Hit(given) else Reached(id)
  {
    if list != [] {
      assert Front(AttrTags(list, id)) == AttrTags(Front(list), id);
      assert forall i :: 0 <= i < |list| - 1 ==> Front(list)[i] == list[i];
      ScanList(Front(list), id, kind);
    }
  }

  lemma {:induction false} GivenIsThere(list: seq<Attr>, kind: nat) returns (i: nat)
    requires Newest(list, 1, kind).Some?
    ensures i < |list| && list[i] == Newest(list, 1, kind).value
  {
    if SameKind(1, Last(list).kind, kind) {
      i := |list| - 1;
    } else {
      i := GivenIsThere(Front(list), kind);
    }
  }

  const LIST := UserAttrs(0, [Attr(0x374, 1, [7])])
  const LIST_TAG := Tag(0x374, 0, 1, [7])
  const REMOVAL := Tag(0x374, 0, NO_SIZE, [])
  const STRUCT_TAG := Tag(0x201, 0, 0, [])
  const LOSING := [LIST, Plain(REMOVAL), Plain(STRUCT_TAG)]

  lemma LosingItems()
    ensures ValidItems(LOSING)
    ensures LOSING[1..] == [Plain(REMOVAL), Plain(STRUCT_TAG)] && LOSING[1..][1..] == [Plain(STRUCT_TAG)]
    ensures LOSING[1..][1..][1..] == []
    ensures Expand(LIST) == [LIST_TAG] && Expand(Plain(REMOVAL)) == [REMOVAL] && Expand(Plain(STRUCT_TAG)) == [STRUCT_TAG]
    ensures ExpandAll(LOSING[1..][1..]) == [STRUCT_TAG] && ExpandAll(LOSING[1..]) == [REMOVAL, STRUCT_TAG]
    ensures ExpandAll(LOSING) == [LIST_TAG, REMOVAL, STRUCT_TAG]
  {
  }

  lemma LosingIsLost()
    requires ValidItems(LOSING)
    ensures Loses(LOSING, [], 1, 0x374, 0)
  {
    LosingItems();
    var rest := [REMOVAL] + [STRUCT_TAG];
    assert ExpandAll(LOSING[1..]) + [] == rest;
    BackScanCons(REMOVAL, [STRUCT_TAG], 1, 0x374, 0);
    BackScanOne(STRUCT_TAG, 1, 0x374, 0);
    BackScanCons(REMOVAL, [STRUCT_TAG], 1, FROM_USERATTRS, 0);
    BackScanOne(STRUCT_TAG, 1, FROM_USERATTRS, 0);
    BackScanOne(LIST_TAG, 1, 0x374, 0);
    assert Last(rest) == STRUCT_TAG;
    assert LosesAt(LIST, rest, 1, 0x374, 0);
  }

  lemma LastRemovalIsKept()
    requires ValidItems(LOSING)
    ensures ValidItems(LOSING[..2]) && !Loses(LOSING[..2], [], 1, 0x374, 0)
  {
    hide LosesAt, ExpandAll;
    var items, last := LOSING[..2], [Plain(REMOVAL)];
    assert items[0] == LIST && items[1..] == last && last[1..] == [];
    LastAlone();
    assert !Loses(last, [], 1, 0x374, 0) by { NoGroupLosesNothing(last[0], ExpandAll(last[1..]) + [], 1, 0x374, 0); }
  }

  lemma LastAlone()
    requires ValidItems(LOSING)
    ensures !LosesAt(LIST, ExpandAll([Plain(REMOVAL)]) + [], 1, 0x374, 0)
  {
    var last := [Plain(REMOVAL)];
    assert last[1..] == [];
    assert ExpandAll(last) + [] == [REMOVAL];
  }

  /** The smallest case: a list sets an attribute, the same commit removes it, and one more tag follows. The compacted
      entry keeps the attribute; without the last tag it would not. */
  lemma DeletionAfterGroupIsLost()
    ensures ValidItems(LOSING) && Loses(LOSING, [], 1, 0x374, 0)
    ensures ValidItems(LOSING[..2]) && !Loses(LOSING[..2], [], 1, 0x374, 0)
    ensures Held(At(Replay([], Intended([], LOSING, [])), 0), 1, 0x374).None?
    ensures Held(At(Replay([], Compacted([], LOSING, [], 0, 1)), 0), 1, 0x374).Some?
  {
    hide Loses, Replay, Held, Compacted, Intended;
    LosingItems();
    LosingIsLost();
    LastRemovalIsKept();
    CompactionPreservesMeaning([], LOSING, [], 0, 1, 1, 0x374, 0);
  }
}
