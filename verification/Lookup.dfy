/** lfs_dir_getslice: looking an attribute up by walking the tag chain backwards from the end of the log. */
module Lookup {
  import opened Wrappers
  import opened Words
  import opened Tags
  import opened Sequences
  import opened MetadataLog

  datatype GetResult = NoEntry | Corrupt | Found(tag: TagWord)

  /** The ids an entry had along the walk all fit the 10-bit field of a tag. */
  ghost predicate IdsFit(log: Log, mask: nat, kind: nat, id: nat)
    requires mask > 0
  {
    id < 0x400 &&
    (log == [] ||
     var b := BackStep(Last(log), mask, kind, id);
     b.Reached? ==> IdsFit(Front(log), mask, kind, b.id))
  }

  function Deletes(log: Log): nat {
    if log == [] then 0 else Deletes(Front(log)) + (if Last(log).kind == TYPE_DELETE then 1 else 0)
  }

  /** Only deletions raise the id on the way back. */
  lemma {:induction false} IdsFitWhenFewDeletes(log: Log, mask: nat, kind: nat, id: nat)
    requires mask > 0 && id + Deletes(log) < 0x400
    ensures IdsFit(log, mask, kind, id)
  {
    if log != [] {
      var b := BackStep(Last(log), mask, kind, id);
      if b.Reached? { IdsFitWhenFewDeletes(Front(log), mask, kind, b.id); }
    }
  }

  /** Entries that exist have had fitting ids all along, in every log that names existing entries and keeps its
      directories small. */
  lemma {:induction false} IdsFitInSmallDirs(log: Log, mask: nat, kind: nat, id: nat)
    requires mask > 0 && Named(log) && SmallDirs([], log) && id < |Replay([], log)|
    ensures IdsFit(log, mask, kind, id)
  {
    assert log[..|log|] == log;
    assert |Replay([], log[..|log|])| < 0x400;
    if log != [] {
      FrontLast(log);
      var before := Front(log);
      forall n | 0 <= n <= |before|
        ensures |Replay([], before[..n])| < 0x400
      {
        assert before[..n] == log[..n];
      }
      if NoSplices(log) {
        IdsFitWithoutSplices(log, mask, kind, id);
      } else {
        var b := BackStep(Last(log), mask, kind, id);
        if b.Reached? {
          EntryBefore(Replay([], before), Last(log), mask, kind, id);
          IdsFitInSmallDirs(before, mask, kind, b.id);
        }
      }
    }
  }

  lemma {:induction false} IdsFitWithoutSplices(log: Log, mask: nat, kind: nat, id: nat)
    requires mask > 0 && NoSplices(log) && id < 0x400
    ensures IdsFit(log, mask, kind, id)
  {
    if log != [] { IdsFitWithoutSplices(Front(log), mask, kind, id); }
  }

  /** Where an entry stood before a tag that names an existing one. */
  lemma EntryBefore(d: Dir, t: Tag, mask: nat, kind: nat, id: nat)
    requires mask > 0 && id < |Apply(d, t)| && BackStep(t, mask, kind, id).Reached?
    requires Names(d, t)
    ensures BackStep(t, mask, kind, id).id < |d|
  {
  }

  /** The newest tag of a type, whatever its id: how directory-wide attributes such as the global state are found. */
  function NewestTag(log: Log, mask: nat, kind: nat): Option<Tag>
    requires mask > 0
  {
    if log == [] then None
    else if SameKind(mask, Last(log).kind, kind) then Some(Last(log))
    else NewestTag(Front(log), mask, kind)
  }

  function AttrOf(t: Tag): Attr { Attr(t.kind, t.size, t.data) }

  /** What the whole log, replayed from the front, holds for a request. */
  function Replayed(log: Log, mask: nat, kind: nat, id: nat, byId: bool): Option<Attr>
    requires mask > 0
  {
    if byId then Held(At(Replay([], log), id), mask, kind)
    else
      var t := NewestTag(log, mask, kind);
      if t.None? then None else Live(Some(AttrOf(t.value)))
  }

  /** The walk back over the tags before index i, for an entry known there as c. */
  ghost predicate Answers(log: Log, i: nat, mask: nat, kind: nat, c: nat, byId: bool, want: Option<Attr>)
    requires mask > 0 && i <= |log|
  {
    if byId then
      IdsFit(log[..i], mask, kind, c) && want == Answer(BackScan(log[..i], mask, kind, c), [], mask, kind)
    else
      var t := NewestTag(log[..i], mask, kind);
      want == if t.None? then None else Some(AttrOf(t.value))
  }

  /** Where in the log the tag lies at which the walk back stops with an attribute. */
  function Place(log: Log, mask: nat, kind: nat, c: nat, byId: bool): (k: Option<nat>)
    requires mask > 0
    ensures k.Some? ==> k.value < |log|
  {
    if log == [] then None
    else if byId then
      match BackStep(Last(log), mask, kind, c)
      case Hit(a) => if a.Some? then Some(|log| - 1) else None
      case Reached(c') => Place(Front(log), mask, kind, c', byId)
    else if SameKind(mask, Last(log).kind, kind) then Some(|log| - 1)
    else Place(Front(log), mask, kind, c, byId)
  }

  lemma AnswersAll(log: Log, mask: nat, kind: nat, id: nat, byId: bool) returns (want: Option<Attr>)
    requires mask > 0 && (byId ==> IdsFit(log, mask, kind, id))
    ensures Answers(log, |log|, mask, kind, id, byId, want)
    ensures Replayed(log, mask, kind, id, byId) == Live(want)
  {
    assert log[..|log|] == log;
    BackScanIsReplay([], log, mask, kind, id);
    want := if byId then Newest(At(Replay([], log), id), mask, kind)
            else
              var t := NewestTag(log, mask, kind);
              if t.None? then None else Some(AttrOf(t.value));
  }

  lemma AnswersNone(log: Log, mask: nat, kind: nat, c: nat, byId: bool, want: Option<Attr>)
    requires mask > 0 && Answers(log, 0, mask, kind, c, byId, want)
    ensures want.None? && Place(log[..0], mask, kind, c, byId) == None
  {
  }

  /** One step back: the tag before the cursor answers, or is passed with the id it stood for. */
  lemma AnswersStep(log: Log, i: nat, mask: nat, kind: nat, c: nat, byId: bool, want: Option<Attr>)
    requires LookupMask(mask) && 0 < i <= |log| && Answers(log, i, mask, kind, c, byId, want)
    requires (byId ==> kind < 0x400) && log[i - 1].PlainSplice()
    ensures var t := log[i - 1];
            var splice := byId && KindType1(t.kind) == TYPE_SPLICE && t.id <= c;
            if splice && t.kind == TYPE_CREATE && t.id == c then want.None? && Place(log[..i], mask, kind, c, byId) == None
            else
              var c' := if splice then c - KindSplice(t.kind) else c;
              if SameKind(mask, t.kind, kind) && (byId ==> t.id == c') then
                want == Some(AttrOf(t)) && Place(log[..i], mask, kind, c, byId) == Some(i - 1)
              else
                Answers(log, i - 1, mask, kind, c', byId, want) && (byId ==> c' < 0x400)
                && Place(log[..i], mask, kind, c, byId) == Place(log[..i - 1], mask, kind, c', byId)
  {
    var t, before := log[i - 1], log[..i - 1];
    SplitAt(log, i - 1);
    Snoc(before, t);
    assert Front(log[..i]) == before && Last(log[..i]) == t;
    if byId {
      var b := BackStep(t, mask, kind, c);
      assert want == Answer(ScanOn(b, before, mask, kind), [], mask, kind);
    }
  }

  /** The masks lookups use: the whole type, the type without the low seven chunk bits, the type without its chunk. */
  predicate LookupMask(mask: nat) { mask == 1 || mask == 0x80 || mask == 0x100 }

  /** Fields of the tag under the cursor and the key left for the next step back. */
  lemma StepBack(block: seq<byte>, log: Log, end: nat, i: nat, ntag: TagWord)
    requires Holds(block, log, end) && 0 < i <= |log|
    requires ntag % TOP_BIT == LastKey(BLOCK_NULL, log[..i]) % TOP_BIT
    ensures ValidLog(log[..i - 1]) && Front(log[..i]) == log[..i - 1] && Last(log[..i]) == log[i - 1]
    ensures var t := log[i - 1];
            && Type3(ntag) == t.kind && Id(ntag) == t.id && Size(ntag) == t.size && DSize(ntag) == 4 + |t.data|
            && TagOffset(log, i) == TagOffset(log, i - 1) + 4 + |t.data| <= end
            && ntag % TOP_BIT == t.Word()
    ensures var o := TagOffset(log, i - 1);
            && XorWord(FromBe32(block[o..o + 4]), ntag) % TOP_BIT == LastKey(BLOCK_NULL, log[..i - 1]) % TOP_BIT
            && block[o + 4..o + 4 + |log[i - 1].data|] == log[i - 1].data
  {
    var t := log[i - 1];
    SplitAt(log, i - 1);
    Snoc(log[..i - 1], t);
    ReadTag(block, log, end, i - 1);
    FieldsOfMkTag(t.kind, t.id, t.size, ntag);
    var o := TagOffset(log, i - 1);
    DecodeBackward(FromBe32(block[o..o + 4]), LastKey(BLOCK_NULL, log[..i - 1]), t.Word(), ntag);
  }

  function Zeros(n: nat): (s: seq<byte>)
    ensures |s| == n
  {
    seq(n, _ => 0)
  }

  /** The bytes an attribute holds from `goff` on, cut or zero-filled to `gsize`. */
  function ExactSlice(data: seq<byte>, goff: nat, gsize: nat): seq<byte> {
    if goff >= |data| then Zeros(gsize)
    else if gsize <= |data| - goff then data[goff..goff + gsize]
    else data[goff..] + Zeros(gsize - (|data| - goff))
  }

  /** How many bytes of the attribute the source copies: its size is capped by the buffer, but not shortened by `goff`. */
  function CopyLen(size: nat, gsize: nat): nat { if size < gsize then size else gsize }

  /** The slice the source reads stays inside the attribute. */
  predicate SliceInside(size: nat, goff: nat, gsize: nat) {
    goff + CopyLen(size, gsize) <= size
  }

  /** Taking a multiple of one id step off a tag moves its id and leaves type and size alone. */
  lemma MovedTag(tag: TagWord, gdiff: int, c: nat)
    requires c < 0x400 && gdiff == (Id(tag) - c) * 0x400
    ensures var w := (tag - gdiff) % WORD_LIMIT;
            && Type3(w) == Type3(tag) && Id(w) == c && Size(w) == Size(tag)
            && (IsValid(tag) ==> w == MkTag(Type3(tag), c, Size(tag)))
  {
    hide Type3, Id, Size;
    MkTagOfFields(tag);
    var low := tag % TOP_BIT;
    var top := tag - low;
    assert top == 0 || top == TOP_BIT;
    var w := tag - gdiff;
    assert w == top + MkTag(Type3(tag), c, Size(tag));
    ModUnique(w, TOP_BIT, if top == 0 then 0 else 1, MkTag(Type3(tag), c, Size(tag)));
    ModUnique(w, WORD_LIMIT, 0, w);
    FieldsOfMkTag(Type3(tag), c, Size(tag), w);
  }

  /** The walk stops exactly when no tag is left. */
  lemma LoopGuard(block: seq<byte>, log: Log, end: nat, i: nat, ntag: TagWord)
    requires Holds(block, log, end) && i <= |log|
    requires ValidLog(log[..i]) && ntag % TOP_BIT == LastKey(BLOCK_NULL, log[..i]) % TOP_BIT
    ensures TagOffset(log, i) >= 4 + DSize(ntag) <==> i > 0
  {
    if i > 0 {
      StepBack(block, log, end, i, ntag);
    } else {
      assert log[..0] == [];
      assert ntag % TOP_BIT == MkTag(0x7ff, 0x3ff, 0x3ff);
      FieldsOfMkTag(0x7ff, 0x3ff, 0x3ff, ntag);
    }
  }

  /** A word read from the log is a creation of id c exactly when its tag is. */
  lemma CreateWord(t: Tag, tag: TagWord, c: nat)
    requires t.Valid() && t.PlainSplice() && KindType1(t.kind) == TYPE_SPLICE && c < 0x400
    requires tag == t.Word()
    ensures tag == MkTag(TYPE_CREATE, c, 0) <==> t.kind == TYPE_CREATE && t.id == c
    ensures Splice(tag) == (if t.kind == TYPE_CREATE then 1 else -1)
  {
    FieldsOfMkTag(t.kind, t.id, t.size, tag);
    if tag == MkTag(TYPE_CREATE, c, 0) {
      FieldsOfMkTag(TYPE_CREATE, c, 0, tag);
    }
  }

  /** What the bytes copied out of the block say about the attribute stored at `o`. */
  lemma CopiedSlice(block: seq<byte>, o: nat, data: seq<byte>, size: nat, goff: nat, gsize: nat, buffer: seq<byte>)
    requires o + |data| <= |block| && block[o..o + |data|] == data && |data| == PayloadLen(size) && size != NO_SIZE
    requires o + goff + CopyLen(size, gsize) <= |block|
    requires buffer == block[o + goff..o + goff + CopyLen(size, gsize)] + Zeros(gsize - CopyLen(size, gsize))
    ensures |buffer| == gsize
    ensures forall j :: 0 <= j < gsize && goff + j < |data| ==> buffer[j] == data[goff + j]
    ensures SliceInside(size, goff, gsize) ==> buffer == ExactSlice(data, goff, gsize)
  {
    forall j | 0 <= j < gsize && goff + j < |data|
      ensures buffer[j] == data[goff + j]
    {
      assert block[o..o + |data|][goff + j] == block[o + goff + j];
    }
  }

  /** One move of the cursor: the tag under it is taken, the word before its payload gives the next one. */
  method ReadPrevious(block: seq<byte>, off: nat, tag: TagWord, ghost log: Log, ghost end: nat, ghost i: nat)
    returns (noff: nat, ntag: TagWord)
    requires Holds(block, log, end) && 0 < i <= |log| && off == TagOffset(log, i)
    requires ValidLog(log[..i]) && tag % TOP_BIT == LastKey(BLOCK_NULL, log[..i]) % TOP_BIT
    requires tag < TOP_BIT || tag == LastKey(BLOCK_NULL, log[..i])
    ensures KindType1(log[i - 1].kind) != TYPE_CRC ==> tag < TOP_BIT
    ensures var t := log[i - 1];
            && Type3(tag) == t.kind && Id(tag) == t.id && Size(tag) == t.size && tag % TOP_BIT == t.Word()
    ensures ValidLog(log[..i - 1]) && noff == TagOffset(log, i - 1)
    ensures ntag < TOP_BIT && ntag % TOP_BIT == LastKey(BLOCK_NULL, log[..i - 1]) % TOP_BIT
    ensures noff >= 4 + DSize(ntag) <==> i - 1 > 0
  {
    hide Type3, Id, Size, DSize, FromBe32, Encode;
    StepBack(block, log, end, i, tag);
    noff := off - DSize(tag);
    var word := FromBe32(block[noff..noff + 4]);
    ntag := XorWord(word, tag) % TOP_BIT;
    LoopGuard(block, log, end, i - 1, ntag);
  }

  /** Move around a splice: whether it created the entry looked for, and the id shift from there on. */
  method AroundSplice(tag: TagWord, gtag: TagWord, gdiff: int, ghost t: Tag, ghost c: nat)
    returns (created: bool, gdiff': int, ghost c': nat)
    requires t.Valid() && t.PlainSplice() && tag % TOP_BIT == t.Word() && (KindType1(t.kind) != TYPE_CRC ==> tag < TOP_BIT)
    requires Type3(tag) == t.kind && Id(tag) == t.id
    requires IsValid(gtag) && c < 0x400 && gdiff == (Id(gtag) - c) * 0x400
    ensures var splice := KindType1(t.kind) == TYPE_SPLICE && t.id <= c;
            && (created <==> splice && t.kind == TYPE_CREATE && t.id == c)
            && (!created ==> c' == (if splice then c - KindSplice(t.kind) else c) && gdiff' == (Id(gtag) - c') * 0x400)
  {
    hide Type3, Id, Size, MkTag;
    created, gdiff', c' := false, gdiff, c;
    var cur: TagWord := (gtag - gdiff) % WORD_LIMIT;
    MovedTag(gtag, gdiff, c);
    if Type1(tag) == TYPE_SPLICE && Id(tag) <= Id(cur) {
      CreateWord(t, tag, c);
      if tag == MkTag(TYPE_CREATE, Id(cur), 0) {
        created := true;
      } else {
        gdiff' := gdiff + Splice(tag) * 0x400;
        c' := c - Splice(tag);
      }
    }
  }

  /** The walk itself, for the entry that now has id c0: the offset, tag and id shift of the tag that answers. */
  method FindTag(block: seq<byte>, dirOff: nat, etag: TagWord, mask: nat, byId: bool, gtag: TagWord, gdiff0: int, ghost c0: nat,
                 ghost log: Log, ghost want: Option<Attr>)
    returns (found: bool, off: nat, tag: TagWord, gdiff: int, ghost k: nat)
    requires Holds(block, log, dirOff) && etag == LastKey(BLOCK_NULL, log)
    requires LookupMask(mask) && IsValid(gtag) && (byId ==> Type3(gtag) < 0x400)
    requires c0 < 0x400 && gdiff0 == (Id(gtag) - c0) * 0x400 && Answers(log, |log|, mask, Type3(gtag), c0, byId, want)
    ensures Place(log, mask, Type3(gtag), c0, byId) == if found then Some(k) else None
    ensures !found ==> want.None?
    ensures found ==> k < |log| && off == TagOffset(log, k) && tag % TOP_BIT == log[k].Word() && want == Some(AttrOf(log[k]))
    ensures found ==> gdiff == if byId then (Id(gtag) - log[k].id) * 0x400 else gdiff0
  {
    hide Type3, Id, Size, DSize, MkTag, NextKey, Encode, Answers, BackScan, IdsFit, Place;
    off, tag, gdiff, found, k := dirOff, etag, gdiff0, false, 0;
    var ntag: TagWord := etag;
    ghost var i: nat, c: nat := |log|, c0;
    assert log[..|log|] == log;
    LoopGuard(block, log, dirOff, i, ntag);
    while off >= 4 + DSize(ntag)
      invariant i <= |log| && ValidLog(log[..i]) && off == TagOffset(log, i)
      invariant ntag % TOP_BIT == LastKey(BLOCK_NULL, log[..i]) % TOP_BIT
      invariant off >= 4 + DSize(ntag) <==> i > 0
      invariant ntag < TOP_BIT || ntag == LastKey(BLOCK_NULL, log[..i])
      invariant gdiff == (Id(gtag) - c) * 0x400 && (!byId ==> gdiff == gdiff0) && c < 0x400
      invariant Answers(log, i, mask, Type3(gtag), c, byId, want)
      invariant Place(log, mask, Type3(gtag), c0, byId) == Place(log[..i], mask, Type3(gtag), c, byId)
      decreases i
    {
      AnswersStep(log, i, mask, Type3(gtag), c, byId, want);
      tag := ntag;
      off, ntag := ReadPrevious(block, off, tag, log, dirOff, i);

      if byId {
        var created;
        created, gdiff, c := AroundSplice(tag, gtag, gdiff, log[i - 1], c);
        if created {
          return;
        }
      }

      var cur: TagWord := (gtag - gdiff) % WORD_LIMIT;
      MovedTag(gtag, gdiff, c);
      if SameKind(mask, Type3(tag), Type3(cur)) && (byId ==> Id(tag) == Id(cur)) {
        found, k := true, i - 1;
        return;
      }
      i := i - 1;
    }
    AnswersNone(log, mask, Type3(gtag), c, byId, want);
  }

  /** The id whose history lfs_dir_getslice walks while entry `moved` of the directory is being moved away: it counts one
      up for the entries up to the moved one. */
  function Sought(id: nat, moved: Option<nat>): nat { if moved.Some? && id <= moved.value then id + 1 else id }

  /** lfs_dir_getslice, on a block that holds a log; `moved` is the entry that the global state says is being moved away
      from here, if there is one. */
  method GetSlice(block: seq<byte>, dirOff: nat, etag: TagWord, mask: nat, byId: bool, gtag: TagWord,
                  goff: nat, gsize: nat, moved: Option<nat>, ghost log: Log) returns (r: GetResult, buffer: seq<byte>)
    requires Holds(block, log, dirOff) && etag == LastKey(BLOCK_NULL, log)
    requires LookupMask(mask) && IsValid(gtag) && (moved.Some? ==> moved.value < 0x3ff)
    requires byId ==> Type3(gtag) < 0x400 && IdsFit(log, mask, Type3(gtag), Sought(Id(gtag), moved))
    ensures r.NoEntry? <==> Replayed(log, mask, Type3(gtag), Sought(Id(gtag), moved), byId).None?
    ensures r.Found? ==>
              var a := Replayed(log, mask, Type3(gtag), Sought(Id(gtag), moved), byId).value;
              && (byId || moved.None? ==> Type3(r.tag) == a.kind && Size(r.tag) == a.size)
              && (byId ==> Id(r.tag) == Id(gtag))
              && |buffer| == gsize
              && (SliceInside(a.size, goff, gsize) ==> buffer == ExactSlice(a.data, goff, gsize))
              && (forall j :: 0 <= j < gsize && goff + j < |a.data| ==> buffer[j] == a.data[goff + j])
    ensures r.Corrupt? <==>
              var k := Place(log, mask, Type3(gtag), Sought(Id(gtag), moved), byId);
              k.Some? && log[k.value].size != NO_SIZE
              && TagOffset(log, k.value) + 4 + goff + (if log[k.value].size < gsize then log[k.value].size else gsize) > |block|
    ensures r.Corrupt? ==>
              !SliceInside(Replayed(log, mask, Type3(gtag), Sought(Id(gtag), moved), byId).value.size, goff, gsize)
  {
    hide Type3, Id, Size, DSize, MkTag, NextKey, LastKey, Encode, Answers, BackScan, IdsFit, Replayed, ExactSlice, Place,
      FromBe32, XorWord;
    buffer := [];
    var gdiff := 0;
    // a pending move out of this directory
    if moved.Some? && Id(gtag) <= moved.value {
      gdiff := gdiff - 0x400;
    }
    ghost var c0 := Sought(Id(gtag), moved);
    ghost var want := AnswersAll(log, mask, Type3(gtag), c0, byId);
    var found, off, tag;
    ghost var k;
    found, off, tag, gdiff, k := FindTag(block, dirOff, etag, mask, byId, gtag, gdiff, c0, log, want);
    if !found {
      return NoEntry, [];
    }
    ghost var t := log[k];
    ReadTag(block, log, dirOff, k);
    FieldsOfMkTag(t.kind, t.id, t.size, tag);
    if IsDelete(tag) {
      return NoEntry, [];
    }
    var diff := CopyLen(Size(tag), gsize);
    if off + 4 + goff + diff > |block| {
      return Corrupt, [];
    }
    buffer := block[off + 4 + goff..off + 4 + goff + diff] + Zeros(gsize - diff);
    CopiedSlice(block, off + 4, t.data, t.size, goff, gsize, buffer);
    if byId || moved.None? {
      MovedTag(tag, -gdiff, if byId then Id(gtag) else t.id);
    }
    r := Found((tag + gdiff) % WORD_LIMIT);
  }

  // ---------------------------------------------------------------- lookups while an entry is being moved away

  /** The directory as it is to be read: without the entry that is being moved away. */
  function WithoutMoved(d: Dir, moved: nat): Dir { Apply(d, Tag(TYPE_DELETE, moved, 0, [])) }

  /** While entry `moved` is being moved away, lookups are to read the directory without it. They do so for the moved id
      itself and past the end; for every other id there are directories for which they read the neighbour instead. */
  lemma MovedLookups(n: nat, moved: nat, id: nat, mask: nat, kind: nat)
    requires moved < n && LookupMask(mask) && kind < 0x400
    ensures (forall d: Dir | |d| == n :: Held(At(d, Sought(id, Some(moved))), mask, kind)
                                         == Held(At(WithoutMoved(d, moved), id), mask, kind))
            <==> id == moved || id >= n
  {
    if id == moved || id >= n {
      forall d: Dir | |d| == n
        ensures Held(At(d, Sought(id, Some(moved))), mask, kind) == Held(At(WithoutMoved(d, moved), id), mask, kind)
      {
        RemoveAt(d, moved, id);
      }
    } else {
      // only entry number id has the attribute
      var a := Attr(kind, 0, []);
      var d: Dir := seq(n, i => if i == id then [a] else []);
      RemoveAt(d, moved, id);
      assert At(d, id) == [a] && At(d, id + 1) == [];
      assert Held([a], mask, kind) == Some(a) && Held([], mask, kind) == None;
    }
  }

  /** The bytes the source hands out, when `bytes` is the block from the attribute's first byte on. */
  function SourceSlice(bytes: seq<byte>, size: nat, goff: nat, gsize: nat): seq<byte>
    requires goff + size + gsize <= |bytes|
  {
    bytes[goff..goff + CopyLen(size, gsize)] + Zeros(gsize - CopyLen(size, gsize))
  }

  /** The source copies min(size, gsize) bytes from `goff` on. That is the slice asked for, on every block, exactly
      when it does not run past the attribute; a reader that starts inside a short attribute gets foreign bytes. */
  lemma SliceExactIffInside(size: nat, goff: nat, gsize: nat)
    requires size < NO_SIZE && goff <= size
    ensures SliceInside(size, goff, gsize) <==>
            forall bytes: seq<byte> | goff + size + gsize <= |bytes| ::
              SourceSlice(bytes, size, goff, gsize) == ExactSlice(bytes[..size], goff, gsize)
  {
    var n := CopyLen(size, gsize);
    if SliceInside(size, goff, gsize) {
      forall bytes: seq<byte> | goff + size + gsize <= |bytes|
        ensures SourceSlice(bytes, size, goff, gsize) == ExactSlice(bytes[..size], goff, gsize)
      {
        CopiedSlice(bytes, 0, bytes[..size], size, goff, gsize, SourceSlice(bytes, size, goff, gsize));
      }
    } else {
      var bytes: seq<byte> := seq(goff + size + gsize, _ => 1);
      var j := size - goff;
      assert SourceSlice(bytes, size, goff, gsize)[j] == 1;
      assert ExactSlice(bytes[..size], goff, gsize)[j] == 0;
    }
  }
}
