/** lfs_dir_fetchmatch without a pattern (lfs_dir_fetch): finding the newest sealed log of a metadata pair. */
module Fetch {
  import opened Words
  import opened Tags
  import opened Sequences
  import opened MetadataLog
  import opened Crc32
  import opened Commit

  /** What a scan has gathered: where the next tag lies, the key to decode it, and the running checksum and directory facts. */
  datatype Cursor = Cursor(off: nat, ptag: TagWord, crc: bv32, count: int, tail: seq<byte>, split: bool)

  /** The newest commit a scan has accepted, if any: the fields lfs_dir_fetchmatch leaves in lfs_mdir_t. */
  datatype Found = Nothing | Newest(off: nat, etag: TagWord, count: int, tail: seq<byte>, split: bool)

  datatype Step = Halt(clean: bool) | Skip(next: Cursor) | Accept(next: Cursor)

  const NULL_PAIR: seq<byte> := [0xff, 0xff, 0xff, 0xff, 0xff, 0xff, 0xff, 0xff]

  function FoundAt(c: Cursor): Found { Newest(c.off, c.ptag, c.count, c.tail, c.split) }

  /** How a tag changes the entry count. */
  function CountAfter(count: int, kind: nat, id: nat): int {
    if KindType1(kind) == TYPE_NAME then (if id >= count then id + 1 else count)
    else if KindType1(kind) == TYPE_SPLICE then count + KindSplice(kind)
    else count
  }

  /** One turn of the scanning loop. `clean` tells that it ended at something that does not read as a tag. */
  function ScanStep(block: seq<byte>, c: Cursor): Step {
    if c.off + 4 > |block| then Halt(false)
    else
      var tag := XorWord(FromBe32(block[c.off..c.off + 4]), c.ptag);
      if !IsValid(tag) || c.off + DSize(tag) > |block| then Halt(true)
      else
        var crc := Crc(c.crc, block[c.off..c.off + 4]);
        var noff := c.off + DSize(tag);
        if Type1(tag) == TYPE_CRC then
          if c.off + 8 > |block| || FromLeBytes(block[c.off + 4..c.off + 8]) != crc then Halt(false)
          else Accept(Cursor(noff, if Chunk(tag) % 2 == 1 then FlipTop(tag) else tag, CRC_INIT, c.count, c.tail, c.split))
        else if Type1(tag) == TYPE_TAIL && c.off + 12 > |block| then Halt(false)
        else
          var isTail := Type1(tag) == TYPE_TAIL;
          Skip(Cursor(noff, tag, Crc(crc, block[c.off + 4..noff]), CountAfter(c.count, Type3(tag), Id(tag)),
                      if isTail then block[c.off + 4..c.off + 12] else c.tail,
                      if isTail then Chunk(tag) % 2 == 1 else c.split))
  }

  lemma ScanStepAdvances(block: seq<byte>, c: Cursor)
    ensures var s := ScanStep(block, c); !s.Halt? ==> c.off < s.next.off <= |block|
  {
  }

  function Start(block: seq<byte>): Cursor
    requires |block| >= 4
  {
    Cursor(4, BLOCK_NULL, Crc(CRC_INIT, block[0..4]), 0, NULL_PAIR, false)
  }

  datatype Result = Result(found: Found, erased: bool)

  function FoundOff(f: Found): nat { if f.Nothing? then 0 else f.off }

  /** The whole scan of one block. */
  function Scan(block: seq<byte>, progSize: nat, c: Cursor, found: Found): Result
    requires progSize > 0
    decreases |block| - c.off
  {
    ScanStepAdvances(block, c);
    match ScanStep(block, c)
    case Halt(clean) => Result(found, clean && Type1(c.ptag) == TYPE_CRC && FoundOff(found) % progSize == 0)
    case Skip(next) => Scan(block, progSize, next, found)
    case Accept(next) => Scan(block, progSize, next, FoundAt(next))
  }

  // ---------------------------------------------------------------- what a scan makes of a stored log

  function CountOf(log: Log): int {
    if log == [] then 0 else CountAfter(CountOf(Front(log)), Last(log).kind, Last(log).id)
  }

  function IsTail(t: Tag): bool { KindType1(t.kind) == TYPE_TAIL }

  function TailOf(log: Log): seq<byte> {
    if log == [] then NULL_PAIR
    else if IsTail(Last(log)) && |Last(log).data| >= 8 then Last(log).data[..8]
    else TailOf(Front(log))
  }

  function SplitOf(log: Log): bool {
    if log == [] then false else if IsTail(Last(log)) then Last(log).kind % 2 == 1 else SplitOf(Front(log))
  }

  /** The cursor after a stored log. */
  ghost function CursorAt(block: seq<byte>, log: Log): Cursor
    requires ValidLog(log) && SegStart(log) <= HEADER_SIZE + LogSize(log) <= |block|
  {
    var off := HEADER_SIZE + LogSize(log);
    Cursor(off, LastKey(BLOCK_NULL, log), Crc(CRC_INIT, block[SegStart(log)..off]), CountOf(log), TailOf(log), SplitOf(log))
  }

  /** The commit a log has sealed: everything up to its last CRC tag. */
  ghost function SealedBy(log: Log): Found
    requires ValidLog(log)
  {
    if log == [] then Nothing
    else if IsCrc(Last(log)) then
      Newest(HEADER_SIZE + LogSize(log), LastKey(BLOCK_NULL, log), CountOf(log), TailOf(log), SplitOf(log))
    else SealedBy(Front(log))
  }

  /** Tail tags carry a whole pair. */
  ghost predicate WholeTails(log: Log) {
    forall i :: 0 <= i < |log| && IsTail(log[i]) ==> |log[i].data| >= 8
  }

  /** A block with a stored, sealed log. */
  ghost predicate Stores(block: seq<byte>, log: Log) {
    Holds(block, log, HEADER_SIZE + LogSize(log)) && Sealed(block, log) && WholeTails(log)
    && SegStart(log) <= HEADER_SIZE + LogSize(log)
  }

  lemma HoldsFront(block: seq<byte>, log: Log)
    requires Holds(block, log, HEADER_SIZE + LogSize(log)) && log != []
    ensures Holds(block, Front(log), HEADER_SIZE + LogSize(Front(log)))
    ensures LogSize(log) == LogSize(Front(log)) + 4 + |Last(log).data|
  {
    hide Encode, EncodeTag, LastKey, LogSize;
    var a, t := Front(log), Last(log);
    FrontLast(log);
    assert ValidLog(a);
    EncodeSnoc(BLOCK_NULL, a, t);
    EncodeSize(BLOCK_NULL, a);
    SliceHead(block, HEADER_SIZE, HEADER_SIZE + LogSize(log), Encode(BLOCK_NULL, a), EncodeTag(LastKey(BLOCK_NULL, a), t));
  }

  lemma SealedFront(block: seq<byte>, log: Log)
    requires Sealed(block, log) && log != []
    ensures Sealed(block, Front(log))
  {
    hide Crc, LeBytes, LogSize, SegStart;
    var a := Front(log);
    forall i | 0 <= i < |a| && IsCrc(a[i])
      ensures |a[i].data| >= 4 && SealedAt(block, a, i)
    {
      assert a[i] == log[i] && a[..i] == log[..i];
      assert SealedAt(block, log, i);
    }
  }

  lemma StoresFront(block: seq<byte>, log: Log)
    requires Stores(block, log) && log != []
    ensures Stores(block, Front(log))
  {
    hide Encode, Crc, LeBytes, Sealed, Holds, LogSize;
    HoldsFront(block, log);
    SealedFront(block, log);
    SegStartBound(Front(log));
    assert forall i :: 0 <= i < |Front(log)| ==> Front(log)[i] == log[i];
  }

  lemma WordBack(t: Tag, key: TagWord)
    requires t.Valid()
    ensures XorWord(XorWord(t.Word(), key), key) == t.Word()
    ensures Type3(t.Word()) == t.kind && Id(t.Word()) == t.id && DSize(t.Word()) == 4 + |t.data|
  {
    hide XorWord, MkTag, Type3, Id, Size, DSize;
    var w := t.Word();
    DecodeForward(XorWord(w, key), key, w, key);
    ModUnique(w, TOP_BIT, 0, w);
    FieldsOfMkTag(t.kind, t.id, t.size, w);
  }

  /** The word at the end of a stored prefix, decoded. */
  lemma NextTag(block: seq<byte>, log: Log)
    requires Stores(block, log) && log != []
    ensures var a, t := Front(log), Last(log);
            var o := HEADER_SIZE + LogSize(a);
            && ValidLog(a) && t.Valid() && o + 4 + |t.data| == HEADER_SIZE + LogSize(log) <= |block|
            && XorWord(FromBe32(block[o..o + 4]), LastKey(BLOCK_NULL, a)) == t.Word()
            && block[o + 4..o + 4 + |t.data|] == t.data
            && Type3(t.Word()) == t.kind && Id(t.Word()) == t.id && DSize(t.Word()) == 4 + |t.data|
  {
    hide Encode, FromBe32, LastKey, Type3, Id, Size, DSize, Sealed, WholeTails, LogSize, XorWord, SegStart;
    var a, t := Front(log), Last(log);
    HoldsFront(block, log);
    ReadTag(block, log, HEADER_SIZE + LogSize(log), |log| - 1);
    WordBack(t, LastKey(BLOCK_NULL, a));
  }

  /** The checksum over the tag word continues the segment. */
  lemma SegmentGrows(block: seq<byte>, seg: nat, o: nat, n: nat)
    requires seg <= o <= n <= |block|
    ensures Crc(Crc(CRC_INIT, block[seg..o]), block[o..n]) == Crc(CRC_INIT, block[seg..n])
  {
    hide Crc;
    Adjacent(block, seg, o, n);
    CrcConcat(CRC_INIT, block[seg..o], block[o..n]);
  }

  lemma ChunkParity(w: TagWord)
    ensures Chunk(w) % 2 == Type3(w) % 2
  {
    hide Type3;
  }

  lemma StepOverCrc(block: seq<byte>, log: Log)
    requires Stores(block, log) && log != [] && IsCrc(Last(log)) && Stores(block, Front(log))
    ensures ScanStep(block, CursorAt(block, Front(log))) == Accept(CursorAt(block, log))
  {
    hide Crc, LeBytes, FromLeBytes, Type3, Id, DSize, XorWord, FromBe32, LogSize, Chunk, Encode;
    var a, t := Front(log), Last(log);
    var seg, o := SegStart(a), HEADER_SIZE + LogSize(a);
    NextTag(block, log);
    FrontLast(log);
    assert a == log[..|log| - 1];
    assert SealedAt(block, log, |log| - 1);
    SegmentGrows(block, seg, o, o + 4);
    LeRoundTrip(Crc(CRC_INIT, block[seg..o + 4]));
    ChunkParity(t.Word());
    EmptySlice(block, HEADER_SIZE + LogSize(log));
    CrcNothing();
    EncodeSnoc(BLOCK_NULL, a, t);
  }

  lemma CheckOverTag(block: seq<byte>, log: Log)
    requires Stores(block, log) && log != [] && !IsCrc(Last(log)) && Stores(block, Front(log))
    ensures var o, n := HEADER_SIZE + LogSize(Front(log)), HEADER_SIZE + LogSize(log);
            && o + 4 <= n <= |block| && SegStart(log) == SegStart(Front(log)) <= o && ValidLog(log)
            && Crc(Crc(CursorAt(block, Front(log)).crc, block[o..o + 4]), block[o + 4..n]) == CursorAt(block, log).crc
  {
    hide Crc, LeBytes, FromLeBytes, LogSize, Encode, Sealed, LastKey, CountOf, TailOf, SplitOf, WholeTails;
    var seg, o := SegStart(Front(log)), HEADER_SIZE + LogSize(Front(log));
    HoldsFront(block, log);
    SegmentGrows(block, seg, o, o + 4);
    SegmentGrows(block, seg, o + 4, HEADER_SIZE + LogSize(log));
  }

  lemma TailOver(block: seq<byte>, log: Log, o: nat)
    requires log != [] && WholeTails(log) && o + 4 + |Last(log).data| <= |block|
    requires block[o + 4..o + 4 + |Last(log).data|] == Last(log).data
    ensures IsTail(Last(log)) ==> |Last(log).data| >= 8 && block[o + 4..o + 12] == TailOf(log)
  {
    var t := Last(log);
    if IsTail(t) {
      assert IsTail(log[|log| - 1]);
      Slice(block, o + 4, o + 4 + |t.data|, 0, 8);
      assert t.data[..8] == t.data[0..8];
    }
  }

  lemma StepOverPlain(block: seq<byte>, log: Log)
    requires Stores(block, log) && log != [] && !IsCrc(Last(log)) && Stores(block, Front(log))
    ensures ScanStep(block, CursorAt(block, Front(log))) == Skip(CursorAt(block, log))
  {
    hide Crc, LeBytes, FromLeBytes, Type3, Id, DSize, XorWord, FromBe32, LogSize, Chunk, Encode, Sealed, Holds, WholeTails, SegStart;
    var a, t := Front(log), Last(log);
    var o := HEADER_SIZE + LogSize(a);
    NextTag(block, log);
    CheckOverTag(block, log);
    ChunkParity(t.Word());
    TailOver(block, log, o);
    assert LastKey(BLOCK_NULL, log) == t.Word();
  }

  /** Scanning the last tag of a stored log moves the cursor behind it and accepts it if it is a CRC tag. */
  lemma StepOverTag(block: seq<byte>, log: Log)
    requires Stores(block, log) && log != []
    ensures Stores(block, Front(log))
    ensures ScanStep(block, CursorAt(block, Front(log))) ==
            if IsCrc(Last(log)) then Accept(CursorAt(block, log)) else Skip(CursorAt(block, log))
  {
    StoresFront(block, log);
    NextTag(block, log);
    if IsCrc(Last(log)) {
      StepOverCrc(block, log);
    } else {
      StepOverPlain(block, log);
    }
  }

  /** Scanning a block from its start passes over the whole stored log. */
  lemma {:induction false} ScanOverLog(block: seq<byte>, log: Log, progSize: nat)
    requires Stores(block, log) && progSize > 0
    ensures |block| >= 4
    ensures Scan(block, progSize, Start(block), Nothing) == Scan(block, progSize, CursorAt(block, log), SealedBy(log))
  {
    hide ScanStep, Crc;
    if log == [] {
      assert block[0..4] == block[SegStart(log)..HEADER_SIZE + LogSize(log)];
    } else {
      StoresFront(block, log);
      ScanOverLog(block, Front(log), progSize);
      StepOverTag(block, log);
    }
  }

  /** Fetching a block whose log ends in a CRC tag, with nothing readable behind it, finds exactly that log. The block
      can take another commit exactly when a word of erased flash follows a log that ends on a program boundary. */
  lemma FetchFindsLog(block: seq<byte>, log: Log, progSize: nat)
    requires Stores(block, log) && progSize > 0 && log != [] && IsCrc(Last(log))
    requires StopsAt(block, HEADER_SIZE + LogSize(log), LastKey(BLOCK_NULL, log))
    ensures |block| >= 4
    ensures var off := HEADER_SIZE + LogSize(log);
            Scan(block, progSize, Start(block), Nothing)
            == Result(Newest(off, LastKey(BLOCK_NULL, log), CountOf(log), TailOf(log), SplitOf(log)),
                      off + 4 <= |block| && off % progSize == 0)
  {
    hide Crc, Encode, Sealed, WholeTails, LogSize, SegStart, LastKey, CountOf, TailOf, SplitOf, ScanStep, Type3;
    ScanOverLog(block, log, progSize);
    LastKeyIsCrc(log);
    StopsHere(block, CursorAt(block, log));
  }

  lemma StopsHere(block: seq<byte>, c: Cursor)
    requires StopsAt(block, c.off, c.ptag)
    ensures ScanStep(block, c) == Halt(c.off + 4 <= |block|)
  {
    hide Crc, XorWord, FromBe32, DSize, Type3;
  }

  lemma LastKeyIsCrc(log: Log)
    requires ValidLog(log) && log != [] && IsCrc(Last(log))
    ensures Type1(LastKey(BLOCK_NULL, log)) == TYPE_CRC
  {
    var t := Last(log);
    FieldsOfMkTag(t.kind, t.id, t.size, NextKey(t));
  }

  // ---------------------------------------------------------------- the loops

  lemma ScanTurn(block: seq<byte>, progSize: nat, c: Cursor, found: Found)
    requires progSize > 0
    ensures var s, r := ScanStep(block, c), Scan(block, progSize, c, found);
            && (s.Halt? ==> r == Result(found, s.clean && Type1(c.ptag) == TYPE_CRC && FoundOff(found) % progSize == 0))
            && (s.Skip? ==> r == Scan(block, progSize, s.next, found))
            && (s.Accept? ==> r == Scan(block, progSize, s.next, FoundAt(s.next)))
  {
    hide ScanStep, Type3;
  }

  /** The scanning loop of lfs_dir_fetchmatch over one block. */
  method ScanBlock(block: seq<byte>, progSize: nat) returns (found: Found, erased: bool)
    requires |block| >= 4 && progSize > 0
    ensures Result(found, erased) == Scan(block, progSize, Start(block), Nothing)
    ensures found.Newest? ==> found.off > 0
  {
    hide Crc, DSize, Type3, Id, XorWord, FromBe32, FromLeBytes, LeBytes, Scan;
    found := Nothing;
    var off: nat, ptag: TagWord := 4, BLOCK_NULL;
    var count: int, tail, split := 0, NULL_PAIR, false;
    var crc := LfsCrc(CRC_INIT, block[0..4]);
    while true
      invariant Scan(block, progSize, Start(block), Nothing)
                == Scan(block, progSize, Cursor(off, ptag, crc, count, tail, split), found)
      invariant off <= |block| && (found.Newest? ==> found.off > 0)
      decreases |block| - off
    {
      ScanStepAdvances(block, Cursor(off, ptag, crc, count, tail, split));
      ScanTurn(block, progSize, Cursor(off, ptag, crc, count, tail, split), found);
      // decode the word at the cursor
      if off + 4 > |block| {
        return found, false;
      }
      var word := block[off..off + 4];
      crc := LfsCrc(crc, word);
      var tag: TagWord := XorWord(FromBe32(word), ptag);
      // not a tag, or one that cannot be stored here
      if !IsValid(tag) || off + DSize(tag) > |block| {
        return found, Type1(ptag) == TYPE_CRC && FoundOff(found) % progSize == 0;
      }
      ptag := tag;
      var noff := off + DSize(tag);
      if Type1(tag) == TYPE_CRC {
        // the end of a commit, if its checksum holds
        if off + 8 > |block| || FromLeBytes(block[off + 4..off + 8]) != crc {
          return found, false;
        }
        // an odd chunk flips the key
        if Chunk(tag) % 2 == 1 {
          ptag := FlipTop(ptag);
        }
        found := Newest(noff, ptag, count, tail, split);
        crc := CRC_INIT;
      } else {
        if Type1(tag) == TYPE_TAIL && off + 12 > |block| {
          return found, false;
        }
        crc := LfsCrc(crc, block[off + 4..noff]);
        if Type1(tag) == TYPE_NAME {
          if Id(tag) >= count { count := Id(tag) + 1; }
        } else if Type1(tag) == TYPE_SPLICE {
          count := count + Splice(tag);
        } else if Type1(tag) == TYPE_TAIL {
          split := Chunk(tag) % 2 == 1;
          tail := block[off + 4..off + 12];
        }
      }
      off := noff;
    }
  }

  /** lfs_scmp: the distance of two counters as a signed 32-bit number. */
  function Scmp(a: nat, b: nat): (d: int)
    requires a < WORD_LIMIT && b < WORD_LIMIT
    ensures -TOP_BIT <= d < TOP_BIT && (d == a - b || d == a - b - WORD_LIMIT || d == a - b + WORD_LIMIT)
  {
    var d := (a - b) % WORD_LIMIT;
    if d < TOP_BIT then d else d - WORD_LIMIT
  }

  datatype PairResult = CorruptPair | Fetched(second: bool, found: Found, erased: bool)

  /** lfs_dir_fetch: the block with the newer revision first, the other one if that holds no commit. */
  method FetchPair(b0: seq<byte>, b1: seq<byte>, progSize: nat) returns (r: PairResult)
    requires |b0| >= 4 && |b1| >= 4 && progSize > 0
    ensures r == PairScan(b0, b1, progSize)
  {
    hide Scan, FromLe32;
    var revs := [FromLe32(b0[0..4]), FromLe32(b1[0..4])];
    var second := Scmp(revs[1], revs[0]) > 0;
    ghost var newer := second;
    for i := 0 to 2
      invariant second == if i == 1 then !newer else newer
      invariant i >= 1 ==> ScanOf(if newer then b1 else b0, progSize).found.Nothing?
      invariant i >= 2 ==> ScanOf(if newer then b0 else b1, progSize).found.Nothing?
    {
      var found, erased := ScanBlock(if second then b1 else b0, progSize);
      // a block with a commit ends the search
      if FoundOff(found) > 0 {
        return Fetched(second, found, erased);
      }
      // otherwise the older one gets its turn
      second := !second;
    }
    return CorruptPair;
  }

  function ScanOf(block: seq<byte>, progSize: nat): Result
    requires |block| >= 4 && progSize > 0
  {
    Scan(block, progSize, Start(block), Nothing)
  }

  /** The second block is tried first when its revision is ahead. */
  function Newer(b1: seq<byte>, b0: seq<byte>): bool
    requires |b0| >= 4 && |b1| >= 4
  {
    Scmp(FromLe32(b1[0..4]), FromLe32(b0[0..4])) > 0
  }

  function PairScan(b0: seq<byte>, b1: seq<byte>, progSize: nat): PairResult
    requires |b0| >= 4 && |b1| >= 4 && progSize > 0
  {
    var r0, r1 := ScanOf(b0, progSize), ScanOf(b1, progSize);
    if Newer(b1, b0) then
      if r1.found.Newest? then Fetched(true, r1.found, r1.erased)
      else if r0.found.Newest? then Fetched(false, r0.found, r0.erased) else CorruptPair
    else
      if r0.found.Newest? then Fetched(false, r0.found, r0.erased)
      else if r1.found.Newest? then Fetched(true, r1.found, r1.erased) else CorruptPair
  }
}
