/** Whole commits: lfs_dir_commit's in-place path and the writing loop of lfs_dir_compact, and what a pair reads as
    when power is lost in the middle of either. */
module PairUpdate {
  import opened Words
  import opened Tags
  import opened Sequences
  import opened MetadataLog
  import opened Crc32
  import opened Commit
  import opened Fetch
  import opened PowerLoss

  /** Tags a commit may carry: everything but CRC tags, which the commit adds itself. */
  ghost predicate Committable(tags: Log) {
    ValidLog(tags) && WholeTails(tags) && forall i :: 0 <= i < |tags| ==> !IsCrc(tags[i])
  }

  lemma {:induction false} LogSizeConcat(a: Log, b: Log)
    ensures LogSize(a + b) == LogSize(a) + LogSize(b)
    decreases |b|
  {
    if b == [] {
      Neutral(a);
    } else {
      AppendFront(a, b);
      LogSizeConcat(a, Front(b));
    }
  }

  lemma LogSizeNone()
    ensures LogSize([]) == 0
  {
  }

  lemma LogSizeOne(t: Tag)
    ensures LogSize([t]) == 4 + |t.data|
  {
  }

  lemma NextPrefix(tags: Log, i: nat, log: Log)
    requires i < |tags|
    ensures log + tags[..i + 1] == (log + tags[..i]) + [tags[i]]
    ensures LogSize(tags[..i + 1]) == LogSize(tags[..i]) + 4 + |tags[i].data|
    ensures LogSize(tags[..i + 1]) <= LogSize(tags)
  {
    hide LogSize;
    SplitAt(tags, i);
    LogSizeConcat(tags[..i], [tags[i]]);
    LogSizeOne(tags[i]);
    LogSizePrefix(tags, i + 1);
    Assoc(log, tags[..i], [tags[i]]);
  }

  /** The tags of a commit, one lfs_dir_commitattr each. */
  method CommitTags(w: Writer, tags: Log) returns (s: Status)
    requires w.Valid() && Committable(tags) && w.off <= w.end + 8
    modifies w`block, w`off, w`ptag, w`crc, w`log
    ensures w.Valid() && |w.block| == |old(w.block)|
    ensures s != Bad
    ensures s == NoSpace <==> tags != [] && old(w.off) + LogSize(tags) > w.end
    ensures s == Ok ==> w.log == old(w.log) + tags && SegStart(w.log) == SegStart(old(w.log))
    ensures s == Ok ==> w.off == old(w.off) + LogSize(tags)
    ensures w.block[..old(w.off)] == old(w.block)[..old(w.off)]
    ensures w.off <= |w.block| && w.block[w.off..] == old(w.block)[w.off..]
  {
    hide Encode, Crc, LeBytes, LogSize, SegStart, Sealed, LastKey, Holds;
    ghost var log0, was, off0 := w.log, w.block, w.off;
    var i := 0;
    Neutral(log0);
    LogSizeNone();
    assert tags[..0] == [];
    while i < |tags|
      invariant 0 <= i <= |tags| && w.Valid() && |w.block| == |was|
      invariant w.log == log0 + tags[..i] && SegStart(w.log) == SegStart(log0)
      invariant w.off == off0 + LogSize(tags[..i]) && off0 <= w.off <= |was|
      invariant i > 0 ==> w.off <= w.end
      invariant w.block[..off0] == was[..off0] && w.block[w.off..] == was[w.off..]
    {
      ghost var off1, block1 := w.off, w.block;
      NextPrefix(tags, i, log0);
      s := w.CommitAttr(tags[i]);
      KeepsEnds(block1, w.block, off0, off1, w.off, w.off);
      SuffixOn(was, block1, w.block, off1, w.off);
      if s != Ok {
        return s;
      }
      i := i + 1;
    }
    assert tags[..i] == tags;
    return Ok;
  }

  lemma FooterIsNoTail(t: Tag)
    requires IsFooter(t)
    ensures !IsTail(t)
  {
  }

  lemma TailsKept(log: Log, tags: Log, footers: Log)
    requires WholeTails(log) && WholeTails(tags) && AllFooters(footers)
    ensures WholeTails(log + tags + footers)
  {
    hide IsFooter, IsTail;
    var all := log + tags + footers;
    forall i | 0 <= i < |all|
      ensures IsTail(all[i]) ==> |all[i].data| >= 8
    {
      if i >= |log| + |tags| {
        FooterIsNoTail(footers[i - |log| - |tags|]);
      } else if i >= |log| {
        assert all[i] == tags[i - |log|];
      }
    }
  }

  lemma StoresParts(block: seq<byte>, log: Log)
    requires Stores(block, log)
    ensures Holds(block, log, HEADER_SIZE + LogSize(log)) && Sealed(block, log) && WholeTails(log)
  {
  }

  lemma MakeStores(block: seq<byte>, log: Log, end: nat)
    requires Holds(block, log, end) && Sealed(block, log) && SegStart(log) <= end && WholeTails(log)
    ensures Stores(block, log) && end == HEADER_SIZE + LogSize(log)
  {
    hide Encode, Sealed, SegStart, WholeTails;
  }

  /** Whatever became of an attempt to append: the log that was there is still there. */
  ghost predicate Tried(was: seq<byte>, now: seq<byte>, log: Log) {
    |now| == |was| && HEADER_SIZE + LogSize(log) <= |was|
    && now[..HEADER_SIZE + LogSize(log)] == was[..HEADER_SIZE + LogSize(log)] && Stores(now, log)
  }

  /** The in-place path of lfs_dir_commit: the tags, then the checksums, behind the log that was fetched. */
  method CommitInPlace(was: seq<byte>, dirOff: nat, etag: TagWord, tags: Log, progSize: nat, ghost log: Log)
    returns (s: Status, now: seq<byte>, ghost footers: Log)
    requires Stores(was, log) && log != [] && IsCrc(Last(log)) && |was| >= 8
    requires dirOff == HEADER_SIZE + LogSize(log) && etag == LastKey(BLOCK_NULL, log)
    requires progSize > 0 && |was| % progSize == 0 && dirOff % progSize == 0
    requires Committable(tags) && (tags == [] ==> dirOff + 8 <= |was|)
    ensures s == if dirOff + LogSize(tags) + 8 > |was| then NoSpace else Ok
    ensures s == Ok ==> Committed(was, now, log, tags, footers, progSize)
    ensures Tried(was, now, log)
  {
    hide Encode, Crc, LeBytes, LogSize, SegStart, Sealed, LastKey, Holds, AlignUp, WholeTails, PaddingKept, StopsAt,
      Chained, Visits, AllFooters, ValidLog, IsCrc, Stores;
    StoresParts(was, log);
    LogInside(was, log);
    var w := new Writer.InPlace(was, dirOff, etag, log);
    s := CommitTags(w, tags);
    now, footers := w.block, [];
    StoresSame(was, now, log);
    LogSizeNone();
    if s != Ok {
      return;
    }
    ghost var mid, n := w.block, w.off;
    LogSizeConcat(log, tags);
    ghost var visited: seq<(nat, nat)>;
    s, footers, visited := w.CommitCrc(progSize);
    now := w.block;
    TailsKept(log, tags, footers);
    MakeStores(now, log + tags + footers, w.off);
    EndsKept(was, mid, now, dirOff, n, w.off);
    StoresSame(was, now, log);
    OffsetOfFront(log + tags, footers);
    PaddingFrom(was, mid, now, log + tags + footers, |log| + |tags|);
    assert Committed(was, now, log, tags, footers, progSize);
  }

  lemma EndsKept(was: seq<byte>, mid: seq<byte>, now: seq<byte>, off: nat, n: nat, end: nat)
    requires |was| == |mid| == |now| && off <= n <= end <= |was|
    requires mid[..off] == was[..off] && mid[n..] == was[n..] && now[..n] == mid[..n] && now[end..] == mid[end..]
    ensures now[..off] == was[..off] && now[end..] == was[end..]
  {
    SuffixOn(was, mid, now, n, end);
    assert now[..off] == now[..n][..off] && mid[..off] == mid[..n][..off];
  }

  lemma TagOffsetGrows(log: Log, i: nat, k: nat)
    requires i <= k <= |log|
    ensures TagOffset(log, i) <= TagOffset(log, k)
  {
    hide LogSize;
    LogSizePrefix(log[..k], i);
    assert log[..k][..i] == log[..i];
  }

  lemma PaddingAt(was: seq<byte>, mid: seq<byte>, now: seq<byte>, log: Log, n0: nat, k: nat)
    requires n0 <= k < |log| && |was| == |mid| && TagOffset(log, n0) <= |was| && PaddingKeptAt(mid, now, log, k)
    requires mid[TagOffset(log, n0)..] == was[TagOffset(log, n0)..]
    ensures PaddingKeptAt(was, now, log, k)
  {
    hide LogSize, TagOffset;
    TagOffsetGrows(log, n0, k);
    SameSuffixSlice(was, mid, TagOffset(log, n0), TagOffset(log, k) + 8, TagOffset(log, k + 1));
  }

  /** Padding lies behind the tags, where the writes before it changed nothing. */
  lemma PaddingFrom(was: seq<byte>, mid: seq<byte>, now: seq<byte>, log: Log, n0: nat)
    requires n0 <= |log| && |was| == |mid| && TagOffset(log, n0) <= |was| && PaddingKept(mid, now, log, n0)
    requires mid[TagOffset(log, n0)..] == was[TagOffset(log, n0)..]
    ensures PaddingKept(was, now, log, n0)
  {
    hide TagOffset, PaddingKeptAt;
    forall k | n0 <= k < |log|
      ensures PaddingKeptAt(was, now, log, k)
    {
      PaddingAt(was, mid, now, log, n0, k);
    }
  }

  lemma OffsetOfFront(front: Log, footers: Log)
    ensures TagOffset(front + footers, |front|) == HEADER_SIZE + LogSize(front)
  {
    TakeDrop(front, footers);
  }

  // ---------------------------------------------------------------- a compaction into the other block

  /** A compaction: an erased block was filled with a revision, the tags and the CRC tags that close them. */
  ghost predicate Rewritten(erased: seq<byte>, now: seq<byte>, rev: nat, tags: Log, footers: Log, progSize: nat) {
    var all := tags + footers;
    var end := HEADER_SIZE + LogSize(all);
    && |erased| == |now| >= 12 && progSize > 0 && rev < WORD_LIMIT
    && Stores(now, all) && AllFooters(footers) && footers != []
    && PaddingKept(erased, now, all, |tags|)
    && end == AlignUp(HEADER_SIZE + LogSize(tags) + 8, progSize)
    && now[..4] == Le32(rev) && StopsAt(now, end, LastKey(BLOCK_NULL, all))
  }

  /** The writing part of lfs_dir_compact, from the revision count to the checksums. */
  method WriteCompacted(erased: seq<byte>, rev: nat, tags: Log, progSize: nat)
    returns (s: Status, now: seq<byte>, ghost footers: Log)
    requires |erased| >= 12 && rev < WORD_LIMIT && Committable(tags)
    requires progSize > 0 && |erased| % progSize == 0
    ensures s == if HEADER_SIZE + LogSize(tags) + 8 > |erased| then NoSpace else Ok
    ensures s == Ok ==> Rewritten(erased, now, rev, tags, footers, progSize)
  {
    hide Encode, Crc, LeBytes, LogSize, SegStart, Sealed, LastKey, Holds, AlignUp, WholeTails, PaddingKept, StopsAt,
      Chained, Visits, AllFooters, ValidLog, IsCrc, Stores, Le32;
    var w := new Writer.Compacting(erased, rev);
    ghost var start := w.block;
    s := CommitTags(w, tags);
    now, footers := w.block, [];
    LogSizeNone();
    if s != Ok {
      return;
    }
    ghost var mid, n := w.block, w.off;
    Neutral(tags);
    ghost var visited: seq<(nat, nat)>;
    s, footers, visited := w.CommitCrc(progSize);
    now := w.block;
    RewriteDone(erased, start, mid, now, rev, tags, footers, progSize, n, w.off);
  }

  lemma RewriteDone(erased: seq<byte>, start: seq<byte>, mid: seq<byte>, now: seq<byte>, rev: nat, tags: Log,
                    footers: Log, progSize: nat, n: nat, end: nat)
    requires |erased| == |start| == |mid| == |now| >= 12 && progSize > 0 && rev < WORD_LIMIT
    requires 4 <= n == HEADER_SIZE + LogSize(tags) <= end <= |now| && end == AlignUp(n + 8, progSize)
    requires start[..4] == Le32(rev) && start[4..] == erased[4..] && mid[..4] == start[..4] && mid[n..] == start[n..]
    requires now[..n] == mid[..n] && now[end..] == mid[end..]
    requires WholeTails(tags) && AllFooters(footers) && footers != []
    requires var all := tags + footers;
             && Holds(now, all, end) && Sealed(now, all) && SegStart(all) <= end
             && PaddingKept(mid, now, all, |tags|) && StopsAt(now, end, LastKey(BLOCK_NULL, all))
    ensures Rewritten(erased, now, rev, tags, footers, progSize)
  {
    hide Encode, Crc, LogSize, SegStart, Sealed, LastKey, Holds, AlignUp, PaddingKept, StopsAt, AllFooters, Stores, Le32;
    TailsKept([], tags, footers);
    assert [] + tags + footers == tags + footers;
    MakeStores(now, tags + footers, end);
    EndsKept(start, mid, now, 4, n, end);
    OffsetOfFront(tags, footers);
    SuffixOn(erased, start, mid, 4, n);
    PaddingFrom(erased, mid, now, tags + footers, |tags|);
  }

  lemma NoLog(block: seq<byte>)
    requires |block| >= 4
    ensures Stores(block, []) && CursorAt(block, []) == Start(block)
  {
    assert block[4..4] == [];
  }

  /** The scan of a block in which nothing was committed. */
  lemma NothingFound(block: seq<byte>, progSize: nat)
    requires |block| >= 4 && progSize > 0 && NoFalseCommit(block, [])
    ensures ScanOf(block, progSize).found == Nothing
  {
    hide Crc, ScanStep, Accepts;
    NoLog(block);
    NothingAccepted(block, progSize, Start(block), Nothing);
  }

  /** A pair reads as the log `kept`, found in its second or first block. */
  ghost predicate PairFinds(b0: seq<byte>, b1: seq<byte>, progSize: nat, second: bool, kept: Log) {
    && |b0| >= 4 && |b1| >= 4 && progSize > 0
    && Finds(if second then b1 else b0, progSize, kept)
    && var r := ScanOf(if second then b1 else b0, progSize);
       PairScan(b0, b1, progSize) == Fetched(second, r.found, r.erased)
  }

  lemma PairByElimination(b0: seq<byte>, b1: seq<byte>, progSize: nat, second: bool, kept: Log)
    requires |b0| >= 4 && |b1| >= 4 && progSize > 0 && Finds(if second then b1 else b0, progSize, kept)
    requires ScanOf(if second then b0 else b1, progSize).found == Nothing
    ensures PairFinds(b0, b1, progSize, second, kept)
  {
    hide ScanOf, LastKey, LogSize, CountOf, TailOf, SplitOf, FromLe32;
  }

  lemma PairByRevision(b0: seq<byte>, b1: seq<byte>, progSize: nat, second: bool, kept: Log)
    requires |b0| >= 4 && |b1| >= 4 && progSize > 0 && Finds(if second then b1 else b0, progSize, kept)
    requires var ahead, behind := if second then b1 else b0, if second then b0 else b1;
             FromLe32(ahead[0..4]) == (FromLe32(behind[0..4]) + 1) % WORD_LIMIT
    ensures PairFinds(b0, b1, progSize, second, kept)
  {
    hide ScanOf, LastKey, LogSize, CountOf, TailOf, SplitOf, FromLe32;
  }

  /** A sealed log on a block. What follows it need not be erased: a torn commit may lie there that fails its checksum. */
  ghost predicate SealedLog(block: seq<byte>, log: Log) {
    Stores(block, log) && log != [] && IsCrc(Last(log)) && NoFalseCommit(block, log)
  }

  /** A pair reads as the log found on one block if the other one is a generation behind, or no commit is found on it. */
  lemma PairReads(block: seq<byte>, kept: Log, other: seq<byte>, progSize: nat, second: bool)
    requires |block| >= 4 && |other| >= 4 && progSize > 0 && Finds(block, progSize, kept)
    requires FromLe32(block[0..4]) == (FromLe32(other[0..4]) + 1) % WORD_LIMIT || NoFalseCommit(other, [])
    ensures PairFinds(if second then block else other, if second then other else block, progSize, !second, kept)
  {
    hide NoFalseCommit, ScanOf, Finds, PairFinds, FromLe32;
    var b0, b1 := if second then block else other, if second then other else block;
    if FromLe32(block[0..4]) == (FromLe32(other[0..4]) + 1) % WORD_LIMIT {
      PairByRevision(b0, b1, progSize, !second, kept);
    } else {
      NothingFound(other, progSize);
      PairByElimination(b0, b1, progSize, !second, kept);
    }
  }

  /** Compaction, power lost before or during the erase of the other block: the pair reads as the old log, whether the
      other block still holds the generation before, committed or not, or anything in which no commit is found. */
  lemma EraseIsSafe(prior: seq<byte>, oldLog: Log, other: seq<byte>, progSize: nat, second: bool)
    requires SealedLog(prior, oldLog) && |other| >= 4 && progSize > 0
    requires FromLe32(prior[0..4]) == (FromLe32(other[0..4]) + 1) % WORD_LIMIT || NoFalseCommit(other, [])
    ensures PairFinds(if second then prior else other, if second then other else prior, progSize, !second, oldLog)
  {
    hide SealedLog, NoFalseCommit, Finds, PairFinds, FromLe32;
    OldFound(prior, oldLog, progSize);
    PairReads(prior, oldLog, other, progSize, second);
  }

  /** Compaction, power lost at any byte p: the pair reads as the old log as long as the first checksum of the new
      block is not complete, and as a log with the new directory from then on, whichever block is the second. */
  lemma CompactionIsAtomic(prior: seq<byte>, oldLog: Log, erased: seq<byte>, now: seq<byte>, rev: nat, tags: Log,
                           footers: Log, progSize: nat, p: nat, second: bool)
    requires SealedLog(prior, oldLog)
    requires rev == (FromLe32(prior[0..4]) + 1) % WORD_LIMIT && |erased| == |now| >= 12 && p <= |now| && progSize > 0
    requires Rewritten(erased, now, rev, tags, footers, progSize)
    requires NoFalseCommit(Torn(erased, now, p), Kept([], tags, footers, p))
    ensures var torn := Torn(erased, now, p);
            var b0, b1 := if second then prior else torn, if second then torn else prior;
            if p < HEADER_SIZE + LogSize(tags) + 8 then PairFinds(b0, b1, progSize, !second, oldLog)
            else PairFinds(b0, b1, progSize, second, Kept([], tags, footers, p))
                 && SameDirectory(Kept([], tags, footers, p), tags + footers)
    ensures HEADER_SIZE + LogSize(tags) + 8 <= p && |Kept([], tags, footers, p)| < |tags + footers|
            ==> !OffersRest(Torn(erased, now, p), progSize)
  {
    hide Stores, LogSize, LastKey, CountOf, TailOf, SplitOf, SameDirectory, AlignUp, PaddingKept, StopsAt, NoFalseCommit,
      SealedLog, Kept, ScanOf, ScanStep, Torn, Finds, OffersRest, AllFooters, IsCrc, PairFinds, FromLe32, Le32, Accepts;
    var torn, m := Torn(erased, now, p), |Kept([], tags, footers, p)|;
    var b0, b1 := if second then prior else torn, if second then torn else prior;
    var all := tags + footers;
    assert [] + tags + footers == all && [] + tags == tags;
    OldFound(prior, oldLog, progSize);
    KeptLength([], tags, footers, p);
    if p < HEADER_SIZE + LogSize(tags) + 8 {
      assert Kept([], tags, footers, p) == [];
      EraseIsSafe(prior, oldLog, torn, progSize, second);
    } else {
      TornKeepsNew(erased, now, all, |tags|, m, p);
      KeptIsNew([], tags, footers, m);
      ScanKept(torn, all[..m], progSize);
      RevisionKept(erased, now, rev, p);
      PairByRevision(b0, b1, progSize, second, all[..m]);
      if m < |all| {
        RestNotOffered(erased, now, rev, tags, footers, progSize, m);
      }
    }
  }

  lemma OldFound(prior: seq<byte>, log: Log, progSize: nat)
    requires SealedLog(prior, log) && progSize > 0
    ensures |prior| >= 4 && Finds(prior, progSize, log)
  {
    hide LogSize, Stores, NoFalseCommit, IsCrc, Finds;
    LogInside(prior, log);
    ScanKept(prior, log, progSize);
  }

  /** A block that a commit left, with nothing readable behind its log, holds a sealed log without any assumption. */
  lemma CleanTailIsSealed(block: seq<byte>, log: Log)
    requires Stores(block, log) && log != [] && IsCrc(Last(log))
    requires StopsAt(block, HEADER_SIZE + LogSize(log), LastKey(BLOCK_NULL, log))
    ensures SealedLog(block, log)
  {
    hide LogSize, Stores, IsCrc, StopsAt, LastKey, ScanStep, NoFalseCommit;
    LogInside(block, log);
    StopsHere(block, CursorAt(block, log));
    HaltAcceptsNothing(block, log);
  }

  lemma RevisionKept(erased: seq<byte>, now: seq<byte>, rev: nat, p: nat)
    requires |erased| == |now| && 4 <= p <= |now| && rev < WORD_LIMIT && now[..4] == Le32(rev)
    ensures FromLe32(Torn(erased, now, p)[0..4]) == rev
  {
    hide FromLe32, Le32, FromBe32, Be32;
    WordRoundTrip(rev);
    assert Torn(erased, now, p)[0..4] == now[..4];
  }

  lemma RestNotOffered(erased: seq<byte>, now: seq<byte>, rev: nat, tags: Log, footers: Log, progSize: nat, m: nat)
    requires Rewritten(erased, now, rev, tags, footers, progSize) && |tags| < m < |tags + footers|
    ensures TagOffset(tags + footers, m) % progSize != 0
  {
    hide LogSize, AlignUp, AllFooters, Stores, PaddingKept, StopsAt;
    LogInside(now, tags + footers);
    BoundaryPassed(tags, footers, progSize, m);
  }

  // ---------------------------------------------------------------- a pair whose newer block was only tried

  /** An attempt that was given up or cut off at any byte leaves a block that holds the old log, sealed as far as nothing
      incomplete passes for a commit. */
  lemma TriedIsSealed(was: seq<byte>, tried: seq<byte>, log: Log, p: nat)
    requires Stores(was, log) && log != [] && IsCrc(Last(log)) && Tried(was, tried, log) && p <= |was|
    requires NoFalseCommit(Torn(was, tried, p), log)
    ensures |tried| == |was| >= 4 && SealedLog(Torn(was, tried, p), log) && Torn(was, tried, p)[..4] == was[..4]
  {
    hide Stores, IsCrc, LogSize, NoFalseCommit, Torn;
    LogInside(was, log);
    TornBefore(was, tried, p, HEADER_SIZE + LogSize(log));
    TornBefore(was, tried, p, 4) by { SamePrefixSlice(was, tried, HEADER_SIZE + LogSize(log), 0, 4); }
    StoresSame(was, Torn(was, tried, p), log);
  }

  /** Below an offset at which nothing changes, a cut changes nothing either. */
  lemma TornBefore(was: seq<byte>, now: seq<byte>, p: nat, n: nat)
    requires |was| == |now| && p <= |was| && n <= |was| && now[..n] == was[..n]
    ensures Torn(was, now, p)[..n] == was[..n]
  {
    forall i | 0 <= i < n
      ensures Torn(was, now, p)[i] == was[i]
    {
      assert now[..n][i] == was[..n][i];
    }
  }
}
