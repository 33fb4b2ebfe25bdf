/** Writing a commit: lfs_dir_commitprog, lfs_dir_commitattr and lfs_dir_commitcrc. */
module Commit {
  import opened Words
  import opened Tags
  import opened Sequences
  import opened MetadataLog
  import opened Crc32

  const CRC_INIT: bv32 := 0xffff_ffff
  const MAX_SIZE := 0x3fe

  datatype Status = Ok | NoSpace | Bad

  predicate IsCrc(t: Tag) { KindType1(t.kind) == TYPE_CRC }

  /** Where the checksum that the next CRC tag seals begins: the block's first byte, or the end of the last CRC tag. */
  function SegStart(log: Log): nat {
    if log == [] then 0
    else if IsCrc(Last(log)) then HEADER_SIZE + LogSize(log)
    else SegStart(Front(log))
  }

  lemma {:induction false} SegStartBound(log: Log)
    ensures SegStart(log) <= HEADER_SIZE + LogSize(log)
  {
    if log != [] { SegStartBound(Front(log)); }
  }

  /** CRC tag i of the log stores the checksum of everything since the previous CRC tag, its own word included. */
  ghost predicate SealedAt(block: seq<byte>, log: Log, i: nat)
    requires i < |log|
  {
    var o := TagOffset(log, i);
    o + 8 <= |block| && SegStart(log[..i]) <= o + 4
    && block[o + 4..o + 8] == LeBytes(Crc(CRC_INIT, block[SegStart(log[..i])..o + 4]))
  }

  ghost predicate Sealed(block: seq<byte>, log: Log) {
    forall i :: 0 <= i < |log| && IsCrc(log[i]) ==> |log[i].data| >= 4 && SealedAt(block, log, i)
  }

  lemma {:induction false} LogSizePrefix(log: Log, i: nat)
    requires i <= |log|
    ensures LogSize(log[..i]) <= LogSize(log)
    decreases |log|
  {
    if i < |log| {
      assert log[..i] == Front(log)[..i];
      LogSizePrefix(Front(log), i);
    } else {
      assert log[..i] == log;
    }
  }

  /** Bytes behind the log do not matter to it. */
  lemma SameLog(block: seq<byte>, block': seq<byte>, log: Log, end: nat)
    requires Holds(block, log, end) && Sealed(block, log) && end <= |block'| && block'[..end] == block[..end]
    ensures Holds(block', log, end) && Sealed(block', log)
  {
    hide Encode, Crc, LeBytes;
    SamePrefixSlice(block, block', end, HEADER_SIZE, end);
    forall i | 0 <= i < |log| && IsCrc(log[i])
      ensures |log[i].data| >= 4 && SealedAt(block', log, i)
    {
      assert SealedAt(block, log, i);
      var o, b := TagOffset(log, i), SegStart(log[..i]);
      SplitAt(log, i);
      Snoc(log[..i], log[i]);
      LogSizePrefix(log, i + 1);
      assert o + 4 + |log[i].data| <= end;
      SamePrefixSlice(block, block', end, o + 4, o + 8);
      SamePrefixSlice(block, block', end, b, o + 4);
    }
  }

  lemma SegStartSnoc(log: Log, t: Tag)
    ensures SegStart(log + [t]) == if IsCrc(t) then HEADER_SIZE + LogSize(log) + 4 + |t.data| else SegStart(log)
  {
    Snoc(log, t);
  }

  lemma AppendedHolds(block: seq<byte>, log: Log, end: nat, t: Tag)
    requires Holds(block, log, end) && t.Valid() && t.PlainSplice()
    requires end + 4 + |t.data| <= |block|
    requires block[end..end + 4 + |t.data|] == EncodeTag(LastKey(BLOCK_NULL, log), t)
    ensures Holds(block, log + [t], end + 4 + |t.data|)
    ensures LogSize(log + [t]) == LogSize(log) + 4 + |t.data|
  {
    hide Encode, EncodeTag, LastKey, LogSize;
    EncodeSnoc(BLOCK_NULL, log, t);
    Adjacent(block, HEADER_SIZE, end, end + 4 + |t.data|);
  }

  /** Writing an encoded tag behind the log appends it to the log. */
  lemma Appended(block: seq<byte>, log: Log, end: nat, t: Tag, block': seq<byte>)
    requires Holds(block, log, end) && Sealed(block, log) && t.Valid() && t.PlainSplice()
    requires end + 4 + |t.data| <= |block'|
    requires block'[..end] == block[..end]
    requires block'[end..end + 4 + |t.data|] == EncodeTag(LastKey(BLOCK_NULL, log), t)
    ensures Holds(block', log, end) && Sealed(block', log)
    ensures Holds(block', log + [t], end + 4 + |t.data|)
    ensures IsCrc(t) || Sealed(block', log + [t])
    ensures TagOffset(log + [t], |log|) == end
    ensures SegStart(log + [t]) == if IsCrc(t) then end + 4 + |t.data| else SegStart(log)
  {
    hide Encode, Crc, LeBytes, EncodeTag, SealedAt, Sealed, SegStart, LastKey;
    SameLog(block, block', log, end);
    AppendedHolds(block', log, end, t);
    SealedPrefix(block', log, t);
    TakeDrop(log, [t]);
    SegStartSnoc(log, t);
  }

  lemma SealedPrefix(block: seq<byte>, log: Log, t: Tag)
    requires Sealed(block, log)
    ensures IsCrc(t) || Sealed(block, log + [t])
    ensures IsCrc(t) && |t.data| >= 4 && SealedAt(block, log + [t], |log|) ==> Sealed(block, log + [t])
  {
    hide Crc, LeBytes;
    var all := log + [t];
    forall i | 0 <= i < |log| && IsCrc(all[i])
      ensures |all[i].data| >= 4 && SealedAt(block, all, i)
    {
      assert all[i] == log[i] && all[..i] == log[..i];
      assert SealedAt(block, log, i);
    }
  }

  lemma CrcNothing()
    ensures Crc(CRC_INIT, []) == CRC_INIT
  {
  }

  lemma EmptySlice(block: seq<byte>, o: nat)
    requires o <= |block|
    ensures block[o..o] == []
  {
  }

  // ---------------------------------------------------------------- the footers of a commit

  /** The end of the CRC tag that begins at o, when the commit is to be filled up to `end`: the tag is as large as
      the size field allows, but leaves room for another tag and checksum if it does not reach the end. */
  function FooterEnd(o: nat, end: nat): (n: nat)
    requires o + 8 <= end
    ensures o + 8 <= n <= end && n - (o + 4) <= MAX_SIZE && (n == end || n + 8 <= end)
  {
    var off := o + 4;
    var noff := (if end - off < MAX_SIZE then end - off else MAX_SIZE) + off;
    if noff < end then (if noff < end - 8 then noff else end - 8) else noff
  }

  /** No CRC tag from o on could end further behind: with the size field of ten bits, of which 0x3ff means a deletion, and
      with room for another tag and its checksum unless nothing is left. */
  lemma FooterEndLargest(o: nat, end: nat, n: nat)
    requires o + 8 <= n <= end && n - (o + 4) <= 0x3fe && (n == end || n + 8 <= end)
    ensures n <= FooterEnd(o, end)
  {
  }

  /** The number of CRC tags that are needed for so many bytes, each spanning 0x402 at most. */
  function FootersFor(n: nat): nat { (n + 0x401) / 0x402 }

  lemma OneFooterLess(o: nat, end: nat)
    requires o + 8 <= end
    ensures FootersFor(end - o) == 1 + FootersFor(end - FooterEnd(o, end)) && FootersFor(0) == 0
  {
    var n := FooterEnd(o, end);
    if n < end && n == o + 0x402 {
      ModUnique(end - o + 0x401, 0x402, FootersFor(end - n) + 1, (end - n + 0x401) % 0x402);
    }
  }

  /** A CRC tag as lfs_dir_commitcrc builds it. */
  ghost predicate IsFooter(t: Tag) {
    t.Valid() && IsCrc(t) && t.id == 0x3ff && 4 <= t.size <= MAX_SIZE && (t.kind == TYPE_CRC || t.kind == TYPE_CRC + 1)
  }

  ghost predicate AllFooters(fs: Log) {
    forall i :: 0 <= i < |fs| ==> IsFooter(fs[i])
  }

  /** The tags from index n0 on lie end to end and each ends where FooterEnd says, on the way to `goal`. */
  ghost predicate Chained(log: Log, n0: nat, goal: nat) {
    forall k :: n0 <= k < |log| ==>
      TagOffset(log, k) + 8 <= goal && TagOffset(log, k + 1) == FooterEnd(TagOffset(log, k), goal)
  }

  /** The byte ranges the checksums of CRC tags n0, n0 + 1, ... cover, checksum included. */
  ghost function Segment(log: Log, k: nat): (nat, nat)
    requires k < |log|
  {
    (SegStart(log[..k]), TagOffset(log, k) + 8)
  }

  ghost predicate Visits(log: Log, n0: nat, visited: seq<(nat, nat)>) {
    |visited| == |log| - n0 && forall k :: 0 <= k < |visited| ==> visited[k] == Segment(log, n0 + k)
  }

  /** The padding of the CRC tags from index n0 on is what lay on the block before. */
  ghost predicate PaddingKept(was: seq<byte>, now: seq<byte>, log: Log, n0: nat) {
    forall k :: n0 <= k < |log| ==> PaddingKeptAt(was, now, log, k)
  }

  ghost predicate PaddingKeptAt(was: seq<byte>, now: seq<byte>, log: Log, k: nat)
    requires k < |log|
  {
    var lo, hi := TagOffset(log, k) + 8, TagOffset(log, k + 1);
    lo <= hi <= |was| && hi <= |now| && now[lo..hi] == was[lo..hi]
  }

  lemma PaddingStays(was: seq<byte>, b0: seq<byte>, b1: seq<byte>, log: Log, f: Tag, k: nat, o: nat)
    requires |b0| == |b1| == |was| && o <= |was| && o == HEADER_SIZE + LogSize(log)
    requires k < |log| && PaddingKeptAt(was, b0, log, k) && b1[..o] == b0[..o]
    ensures PaddingKeptAt(was, b1, log + [f], k)
  {
    hide LogSize;
    var all := log + [f];
    assert all[..k] == log[..k] && all[..k + 1] == log[..k + 1];
    LogSizePrefix(log, k + 1);
    SamePrefixSlice(b0, b1, o, TagOffset(log, k) + 8, TagOffset(log, k + 1));
  }

  lemma PaddingSnoc(was: seq<byte>, b0: seq<byte>, b1: seq<byte>, log: Log, f: Tag, n0: nat, o: nat, n: nat)
    requires n0 <= |log| && |b0| == |b1| == |was| && o + 8 <= n <= |was|
    requires o == HEADER_SIZE + LogSize(log) && n == HEADER_SIZE + LogSize(log + [f])
    requires PaddingKept(was, b0, log, n0)
    requires b0[o..] == was[o..] && b1[..o] == b0[..o] && b1[o + 8..n] == b0[o + 8..n]
    ensures PaddingKept(was, b1, log + [f], n0)
  {
    hide LogSize;
    var all := log + [f];
    assert all[..|log|] == log && all[..|log| + 1] == all;
    SameSuffixSlice(was, b0, o, o + 8, n);
    assert PaddingKeptAt(was, b1, all, |log|);
    forall k | n0 <= k < |all|
      ensures PaddingKeptAt(was, b1, all, k)
    {
      if k < |log| { PaddingStays(was, b0, b1, log, f, k, o); }
    }
  }

  lemma ChainedSnoc(log: Log, f: Tag, n0: nat, goal: nat)
    requires Chained(log, n0, goal) && n0 <= |log|
    requires HEADER_SIZE + LogSize(log) + 8 <= goal
    requires HEADER_SIZE + LogSize(log + [f]) == FooterEnd(HEADER_SIZE + LogSize(log), goal)
    ensures Chained(log + [f], n0, goal)
  {
    hide FooterEnd, LogSize;
    var all := log + [f];
    assert all[..|log|] == log && all[..|log| + 1] == all;
    forall k | n0 <= k < |all|
      ensures TagOffset(all, k) + 8 <= goal && TagOffset(all, k + 1) == FooterEnd(TagOffset(all, k), goal)
    {
      if k < |log| {
        assert all[..k] == log[..k] && all[..k + 1] == log[..k + 1];
        assert TagOffset(all, k) == TagOffset(log, k) && TagOffset(all, k + 1) == TagOffset(log, k + 1);
      } else {
        assert TagOffset(all, k) == HEADER_SIZE + LogSize(log) && TagOffset(all, k + 1) == HEADER_SIZE + LogSize(all);
      }
    }
  }

  lemma AppendFooter(fs: Log, f: Tag)
    requires AllFooters(fs) && IsFooter(f)
    ensures AllFooters(fs + [f])
  {
    hide IsFooter;
  }

  /** The word a footer is built from, and its fields. */
  lemma FooterWord(reset: bool, size: nat)
    requires 4 <= size <= MAX_SIZE
    ensures var kind := TYPE_CRC + (if reset then 1 else 0);
            && KindType1(kind) == TYPE_CRC && (kind % 2 == 1 <==> reset) && kind < 0x800 && PayloadLen(size) == size
  {
  }

  /** The word at an offset; what lies outside the block reads as erased. */
  function WordAt(block: seq<byte>, o: nat): TagWord {
    if o + 4 <= |block| then FromBe32(block[o..o + 4]) else BLOCK_NULL
  }

  /** An erased unit after the log never reads as a tag. */
  predicate StopsAt(block: seq<byte>, off: nat, ptag: TagWord) {
    off + 4 <= |block| ==> XorWord(FromBe32(block[off..off + 4]), ptag) >= TOP_BIT
  }

  /** The running checksum follows the bytes that are written. */
  lemma ChecksumGrows(was: seq<byte>, block: seq<byte>, seg: nat, off: nat, bytes: seq<byte>)
    requires seg <= off <= |was| && off + |bytes| <= |block|
    requires block[..off] == was[..off] && block[off..off + |bytes|] == bytes
    ensures Crc(Crc(CRC_INIT, was[seg..off]), bytes) == Crc(CRC_INIT, block[seg..off + |bytes|])
  {
    hide Crc;
    SamePrefixSlice(was, block, off, seg, off);
    Adjacent(block, seg, off, off + |bytes|);
    CrcConcat(CRC_INIT, block[seg..off], bytes);
  }

  /** struct lfs_commit together with the block it writes to, as seen through the program cache. */
  class Writer {
    var block: seq<byte>
    var off: nat
    var ptag: TagWord
    var crc: bv32
    const begin: nat
    const end: nat
    ghost var log: Log

    ghost predicate Valid()
      reads this
    {
      Holds(block, log, off) && Sealed(block, log) && ptag == LastKey(BLOCK_NULL, log)
      && SegStart(log) <= off && crc == Crc(CRC_INIT, block[SegStart(log)..off])
      && end + 8 == |block|
    }

    /** The commit state of an in-place commit: it continues a fetched log behind its last CRC tag. */
    constructor InPlace(block: seq<byte>, dirOff: nat, etag: TagWord, ghost log: Log)
      requires Holds(block, log, dirOff) && Sealed(block, log) && etag == LastKey(BLOCK_NULL, log)
      requires log != [] && IsCrc(Last(log)) && |block| >= 8
      ensures Valid() && this.block == block && this.log == log && off == begin == dirOff == SegStart(log)
    {
      this.block, this.log := block, log;
      off, ptag, crc := dirOff, etag, CRC_INIT;
      begin, end := dirOff, |block| - 8;
      new;
      hide Encode, Crc;
      EmptySlice(block, off);
      CrcNothing();
    }

    /** The commit state of a compaction: an erased block with the revision count written first. */
    constructor Compacting(erased: seq<byte>, rev: nat)
      requires |erased| >= 8 && rev < WORD_LIMIT
      ensures Valid() && log == [] && off == HEADER_SIZE && begin == 0 == SegStart(log)
      ensures |block| == |erased| && block[..4] == Le32(rev) && block[4..] == erased[4..]
    {
      block, log := Put(erased, 0, Le32(rev)), [];
      off, ptag, crc := 4, BLOCK_NULL, Crc(CRC_INIT, Le32(rev));
      begin, end := 0, |erased| - 8;
      new;
      PutSlices(erased, 0, Le32(rev));
      assert block[0..4] == Le32(rev) && block[4..4] == [];
    }

    /** lfs_dir_commitattr */
    method CommitAttr(t: Tag) returns (s: Status)
      requires Valid() && t.Valid() && t.PlainSplice() && !IsCrc(t)
      modifies this`block, this`off, this`ptag, this`crc, this`log
      ensures Valid() && |block| == |old(block)|
      ensures s == if old(off) + 4 + |t.data| > end then NoSpace else Ok
      ensures s == NoSpace ==> log == old(log) && off == old(off) && block == old(block)
      ensures s == Ok ==> log == old(log) + [t] && off == old(off) + 4 + |t.data| && SegStart(log) == SegStart(old(log))
      ensures block[..old(off)] == old(block)[..old(off)] && block[off..] == old(block)[off..]
    {
      hide Encode, Crc, LeBytes, Sealed, SealedAt, LogSize, SegStart, XorWord, Put;
      var dsize := 4 + |t.data|;
      if off + dsize > end {
        return NoSpace;
      }
      var bytes := EncodeTag(ptag, t);
      ghost var was, seg := block, SegStart(log);
      block := Put(block, off, bytes);
      PutSlices(was, off, bytes);
      Appended(was, log, off, t, block);
      SegStartBound(log);
      ChecksumGrows(was, block, seg, off, bytes);
      crc := LfsCrc(crc, bytes);
      off := off + dsize;
      ptag := t.Word();
      ghost var log' := log + [t];
      EncodeSnoc(BLOCK_NULL, log, t);
      log := log';
      return Ok;
    }
  
    /** One turn of the loop of lfs_dir_commitcrc: a CRC tag that closes the segment written so far. */
    method WriteFooter(goal: nat) returns (ghost f: Tag)
      requires Valid() && off + 8 <= goal <= |block|
      modifies this`block, this`off, this`ptag, this`crc, this`log
      ensures Valid() && |block| == |old(block)| && log == old(log) + [f] && IsFooter(f)
      ensures off == FooterEnd(old(off), goal) && SegStart(log) == off
      ensures StopsAt(block, off, ptag)
      ensures block[..old(off)] == old(block)[..old(off)] && block[off..] == old(block)[off..]
      ensures block[old(off) + 8..off] == old(block)[old(off) + 8..off]
    {
      hide Encode, Crc, LeBytes, FooterEnd, Sealed, SealedAt, LogSize, SegStart, XorWord, Be32, WordAt, StopsAt, Put;
      ghost var was, log0, off0, seg := block, log, off, SegStart(log);
      var o := off + 4;
      var noff := FooterEnd(off, goal);
      // the word behind decides the valid bit
      var next := WordAt(block, noff);
      var reset := IsValid(next);
      var kind := TYPE_CRC + (if reset then 1 else 0);
      FooterWord(reset, noff - o);
      var tag: TagWord := MkTag(kind, 0x3ff, noff - o);

      var footer0 := Be32(XorWord(tag, ptag));
      crc := LfsCrc(crc, footer0);
      var footer1 := LeBytes(crc);
      f := Tag(kind, 0x3ff, noff - o, footer1 + was[off0 + 8..noff]);
      block := Put(block, off, footer0 + footer1);
      FooterBytes(was, off0, noff, footer0, footer1, block);
      Appended(was, log0, off0, f, block);
      SegStartBound(log0);
      FooterSealed(was, log0, off0, f, block, footer0, footer1);
      off := noff;
      ptag := if reset then FlipTop(tag) else tag;
      crc := CRC_INIT;
      log := log + [f];
      EncodeSnoc(BLOCK_NULL, log0, f);
      EmptySlice(block, off);
      CrcNothing();
      FooterStops(was, block, off, tag, reset);
    }

    /** The loop after the sync: recompute the checksum of every segment over the bytes that are read back, which are
        those of the block unless programming went wrong. */
    method VerifySegments(read: seq<byte>, off1: nat, goal: nat, ghost n0: nat)
      returns (s: Status, ghost visited: seq<(nat, nat)>)
      requires Valid() && n0 < |log| && off == goal && |read| == |block|
      requires AllFooters(log[n0..]) && Chained(log, n0, goal) && begin == SegStart(log[..n0])
      requires off1 == TagOffset(log, n0) + 4 && TagOffset(log, |log|) == goal
      ensures s == (if forall k :: n0 <= k < |log| ==> Sound(read, log, k) then Ok else Bad)
      ensures s == Ok ==> Visits(log, n0, visited)
    {
      hide Encode, Crc, LeBytes, FooterEnd, LogSize, SegStart;
      visited := [];
      var o, noff := begin, off1;
      ghost var k := n0;
      SegStartBound(log[..n0]);
      SegmentResidue(block, log, n0, n0, goal);
      while o < goal
        invariant n0 <= k <= |log| && Visits(log[..k], n0, visited)
        invariant forall i :: n0 <= i < k ==> Sound(read, log, i)
        invariant if k < |log| then o == SegStart(log[..k]) && noff == TagOffset(log, k) + 4 && o < goal else o == goal
        decreases |log| - k
      {
        SegmentResidue(block, log, n0, k, goal);
        var crc := LfsCrc(CRC_INIT, read[o..noff + 4]);
        if crc != 0 {
          assert !Sound(read, log, k);
          return Bad, visited;
        }
        // on to the segment behind the padding
        o := NextSegment(noff, goal);
        noff := o + 4;
        SegmentNext(log, n0, k, goal);
        VisitsNext(log, n0, k, visited);
        visited := visited + [Segment(log, k)];
        k := k + 1;
      }
      assert log[..k] == log;
      return Ok, visited;
    }

    /** The loop of lfs_dir_commitcrc: CRC tags up to `goal`. */
    method WriteFooters(goal: nat) returns (ghost footers: Log)
      requires Valid() && off + 8 <= goal <= |block|
      modifies this`block, this`off, this`ptag, this`crc, this`log
      ensures Valid() && |block| == |old(block)| && off == goal && |footers| == FootersFor(goal - old(off))
      ensures log == old(log) + footers && footers != [] && AllFooters(footers) && SegStart(log) == off
      ensures Chained(log, |old(log)|, goal) && StopsAt(block, off, ptag)
      ensures PaddingKept(old(block), block, log, |old(log)|)
      ensures block[..old(off)] == old(block)[..old(off)] && block[off..] == old(block)[off..]
      decreases goal - off
    {
      hide Encode, Crc, LeBytes, FooterEnd, FootersFor, LogSize, SegStart, StopsAt, Chained, Sealed, LastKey, PaddingKept;
      OneFooterLess(off, goal);
      ghost var log0, was, off0 := log, block, off;
      footers := [];
      Neutral(log0);
      NothingChained(log0, goal);
      NoPadding(was, log0);
      while off < goal
        invariant Valid() && |block| == |was| && (off == goal || off + 8 <= goal)
        invariant log == log0 + footers && AllFooters(footers) && Chained(log, |log0|, goal)
        invariant off0 <= off && block[..off0] == was[..off0] && block[goal..] == was[goal..]
        invariant if footers == [] then off == off0 else SegStart(log) == off && StopsAt(block, off, ptag)
        invariant PaddingKept(was, block, log, |log0|) && block[off..] == was[off..]
        invariant |footers| + FootersFor(goal - off) == FootersFor(goal - off0)
        decreases goal - off
      {
        ghost var log1, block1, off1 := log, block, off;
        ghost var f := WriteFooter(goal);
        assert off == FooterEnd(off1, goal);
        OneFooterLess(off1, goal);
        ChainedSnoc(log1, f, |log0|, goal);
        AppendFooter(footers, f);
        Assoc(log0, footers, [f]);
        KeepsEnds(block1, block, off0, off1, off, goal);
        PaddingSnoc(was, block1, block, log1, f, |log0|, off1, off);
        SuffixOn(was, block1, block, off1, off);
        footers := footers + [f];
      }
    }

    /** lfs_dir_commitcrc */
    method CommitCrc(progSize: nat) returns (s: Status, ghost footers: Log, ghost visited: seq<(nat, nat)>)
      requires Valid() && begin == SegStart(log) && off + 8 <= |block|
      requires progSize > 0 && |block| % progSize == 0
      modifies this`block, this`off, this`ptag, this`crc, this`log
      ensures Valid() && s == Ok && |block| == |old(block)|
      ensures log == old(log) + footers && footers != [] && AllFooters(footers) && IsCrc(Last(log)) && SegStart(log) == off
      ensures off == AlignUp(old(off) + 8, progSize) && off % progSize == 0 && off <= |block|
      ensures |footers| == FootersFor(off - old(off))
      ensures Chained(log, |old(log)|, off) && Visits(log, |old(log)|, visited)
      ensures PaddingKept(old(block), block, log, |old(log)|)
      ensures StopsAt(block, off, ptag)
      ensures block[..old(off)] == old(block)[..old(off)] && block[off..] == old(block)[off..]
    {
      hide Encode, Crc, LeBytes, FooterEnd, FootersFor, LogSize, SegStart, AlignUp, IsFooter, StopsAt, Chained, Sealed, LastKey, PaddingKept;
      var off1 := off + 4;
      var goal := AlignUp(off1 + 4, progSize);
      AlignUpInside(off1 + 4, progSize, |block|);
      ghost var log0 := log;
      footers := WriteFooters(goal);
      FooterLast(log0, footers);
      assert log[..|log|] == log;
      AllSound(block, log, |log0|, goal);
      s, visited := VerifySegments(block, off1, goal, |log0|);
    }
  }

  lemma NoPadding(was: seq<byte>, log: Log)
    ensures PaddingKept(was, was, log, |log|)
  {
  }

  lemma SuffixOn(was: seq<byte>, b0: seq<byte>, b1: seq<byte>, o: nat, n: nat)
    requires |was| == |b0| == |b1| && o <= n <= |was| && b0[o..] == was[o..] && b1[n..] == b0[n..]
    ensures b1[n..] == was[n..]
  {
    assert b0[n..] == b0[o..][n - o..] && was[n..] == was[o..][n - o..];
  }

  lemma NothingChained(log: Log, goal: nat)
    ensures Chained(log, |log|, goal)
  {
  }

  /** Checksum k and what it covers fit together. */
  ghost predicate Sound(read: seq<byte>, log: Log, k: nat)
    requires k < |log|
  {
    SegStart(log[..k]) <= TagOffset(log, k) + 8 <= |read|
    && Crc(CRC_INIT, read[SegStart(log[..k])..TagOffset(log, k) + 8]) == 0
  }

  lemma AllSound(block: seq<byte>, log: Log, n0: nat, goal: nat)
    requires Sealed(block, log) && n0 < |log| && AllFooters(log[n0..]) && Chained(log, n0, goal) && goal <= |block|
    ensures forall k :: n0 <= k < |log| ==> Sound(block, log, k)
  {
    hide Crc, LeBytes, SegStart, LogSize, Sealed, Chained;
    forall k | n0 <= k < |log|
      ensures Sound(block, log, k)
    {
      SegmentResidue(block, log, n0, k, goal);
    }
  }

  /** Bytes that were programmed wrong, anywhere in a segment but within four in a row, are seen. */
  lemma WriteErrorSeen(block: seq<byte>, read: seq<byte>, log: Log, n0: nat, k: nat, goal: nat, lo: nat, hi: nat)
    requires Sealed(block, log) && n0 <= k < |log| && AllFooters(log[n0..]) && Chained(log, n0, goal)
    requires |read| == |block| && goal <= |block|
    requires SegStart(log[..k]) <= lo <= hi <= TagOffset(log, k) + 8 && hi - lo <= 4
    requires hi <= |block| && read[..lo] == block[..lo] && read[hi..] == block[hi..] && read[lo..hi] != block[lo..hi]
    ensures !Sound(read, log, k)
  {
    hide Crc, LeBytes, SegStart, LogSize, Sealed, Chained;
    SegmentResidue(block, log, n0, k, goal);
    var b, e := SegStart(log[..k]), TagOffset(log, k) + 8;
    SamePrefixSlice(block, read, lo, b, lo);
    SameSuffixSlice(block, read, hi, hi, e);
    Adjacent(block, b, lo, hi);
    Adjacent(block, b, hi, e);
    Adjacent(read, b, lo, hi);
    Adjacent(read, b, hi, e);
    BurstDetected(CRC_INIT, block[b..lo], block[lo..hi], read[lo..hi], block[hi..e]);
  }

  /** How the verifying loop finds the next segment. */
  function NextSegment(noff: nat, goal: nat): nat
    requires noff + 4 <= goal
  {
    var off := Min(goal - noff, MAX_SIZE) + noff;
    if off < goal && goal >= 8 then Min(off, goal - 8) else off
  }

  lemma FooterBytes(was: seq<byte>, o: nat, noff: nat, footer0: seq<byte>, footer1: seq<byte>, block: seq<byte>)
    requires |footer0| == |footer1| == 4 && o + 8 <= noff <= |was|
    requires block == Put(was, o, footer0 + footer1)
    ensures |block| == |was| && block[..o] == was[..o] && block[noff..] == was[noff..]
    ensures block[o..noff] == footer0 + (footer1 + was[o + 8..noff])
    ensures block[o..o + 4] == footer0 && block[o + 4..o + 8] == footer1
    ensures block[o + 8..noff] == was[o + 8..noff]
  {
  }

  /** The checksum stored in a footer is the checksum of its segment as it lies on the block. */
  lemma FooterSealed(was: seq<byte>, log: Log, o: nat, f: Tag, block: seq<byte>, footer0: seq<byte>, footer1: seq<byte>)
    requires Holds(block, log, o) && Sealed(block, log) && SegStart(log) <= o && IsCrc(f) && |f.data| >= 4
    requires o <= |was| && o + 8 <= |block| && block[..o] == was[..o]
    requires block[o..o + 4] == footer0 && block[o + 4..o + 8] == footer1
    requires footer1 == LeBytes(Crc(Crc(CRC_INIT, was[SegStart(log)..o]), footer0))
    ensures Sealed(block, log + [f])
  {
    hide Encode, Crc, LeBytes, SegStart, LogSize;
    var seg, all := SegStart(log), log + [f];
    SamePrefixSlice(was, block, o, seg, o);
    Adjacent(block, seg, o, o + 4);
    CrcConcat(CRC_INIT, block[seg..o], footer0);
    assert all[..|log|] == log && all[|log|] == f;
    assert SealedAt(block, all, |log|);
    SealedPrefix(block, log, f);
  }

  /** The reset bit is chosen so that the erased word, xored with the key left behind, has its top bit set. */
  lemma FooterStops(was: seq<byte>, block: seq<byte>, off: nat, tag: TagWord, reset: bool)
    requires |was| == |block| && off <= |block| && block[off..] == was[off..] && tag < TOP_BIT
    requires reset == IsValid(WordAt(was, off))
    ensures StopsAt(block, off, if reset then FlipTop(tag) else tag)
  {
    hide XorWord, FromBe32;
    if off + 4 <= |block| {
      SameSuffixSlice(was, block, off, off, off + 4);
      XorTop(WordAt(was, off), if reset then FlipTop(tag) else tag);
    }
  }

  lemma KeepsEnds(b0: seq<byte>, b1: seq<byte>, lo: nat, o: nat, n: nat, goal: nat)
    requires |b0| == |b1| && lo <= o <= n <= goal <= |b0|
    requires b1[..o] == b0[..o] && b1[n..] == b0[n..]
    ensures b1[..lo] == b0[..lo] && b1[goal..] == b0[goal..]
  {
    assert b1[..lo] == b1[..o][..lo] && b0[..lo] == b0[..o][..lo];
    assert b1[goal..] == b1[n..][goal - n..] && b0[goal..] == b0[n..][goal - n..];
  }

  lemma FooterLast(log: Log, footers: Log)
    requires footers != [] && AllFooters(footers)
    ensures (log + footers)[|log|..] == footers && (log + footers)[..|log|] == log
    ensures IsCrc(Last(log + footers))
  {
    assert Last(log + footers) == footers[|footers| - 1];
  }

  /** A segment with its stored checksum leaves residue 0. */
  lemma SegmentResidue(block: seq<byte>, log: Log, n0: nat, k: nat, goal: nat)
    requires Sealed(block, log) && n0 <= k < |log| && AllFooters(log[n0..]) && Chained(log, n0, goal) && goal <= |block|
    ensures SegStart(log[..k]) <= TagOffset(log, k) + 8 <= goal
    ensures Crc(CRC_INIT, block[SegStart(log[..k])..TagOffset(log, k) + 8]) == 0
  {
    hide Crc, LeBytes, SegStart, LogSize, FooterEnd;
    assert log[n0..][k - n0] == log[k];
    assert IsFooter(log[k]) && SealedAt(block, log, k);
    var b, o := SegStart(log[..k]), TagOffset(log, k);
    Adjacent(block, b, o + 4, o + 8);
    ResidueZero(CRC_INIT, block[b..o + 4]);
  }

  /** The verifying loop skips to where the next footer begins. */
  lemma SegmentNext(log: Log, n0: nat, k: nat, goal: nat)
    requires n0 <= k < |log| && AllFooters(log[n0..]) && Chained(log, n0, goal) && TagOffset(log, |log|) == goal
    ensures TagOffset(log, k) + 8 <= goal && NextSegment(TagOffset(log, k) + 4, goal) == TagOffset(log, k + 1)
    ensures k + 1 < |log| ==> SegStart(log[..k + 1]) == TagOffset(log, k + 1) < goal
  {
    assert TagOffset(log, k + 1) == FooterEnd(TagOffset(log, k), goal);
    if k + 1 < |log| {
      SplitAt(log, k);
      SegStartSnoc(log[..k], log[k]);
      assert log[n0..][k - n0] == log[k];
      Snoc(log[..k], log[k]);
      assert TagOffset(log, k + 1) + 8 <= goal;
    }
  }

  lemma VisitsNext(log: Log, n0: nat, k: nat, visited: seq<(nat, nat)>)
    requires n0 <= k < |log| && Visits(log[..k], n0, visited)
    ensures Visits(log[..k + 1], n0, visited + [Segment(log, k)])
  {
    hide SegStart, LogSize;
    var v := visited + [Segment(log, k)];
    forall i | 0 <= i < |v|
      ensures v[i] == Segment(log[..k + 1], n0 + i)
    {
      assert log[..k + 1][..n0 + i] == log[..n0 + i];
      if i < |visited| { assert log[..k][..n0 + i] == log[..n0 + i]; }
    }
  }
}
