/** Power loss while a metadata pair is updated: the next fetch finds the old log or the new one, never a mix. */
module PowerLoss {
  import opened Words
  import opened Tags
  import opened Sequences
  import opened MetadataLog
  import opened Crc32
  import opened Commit
  import opened Fetch

  /** The block after power was lost when everything below offset p had been programmed. */
  function Torn(was: seq<byte>, now: seq<byte>, p: nat): (torn: seq<byte>)
    requires |was| == |now| && p <= |was|
    ensures |torn| == |was|
  {
    now[..p] + was[p..]
  }

  /** A scan from cursor c accepts at least one more CRC tag. */
  predicate Accepts(block: seq<byte>, c: Cursor)
    decreases |block| - c.off
  {
    ScanStepAdvances(block, c);
    match ScanStep(block, c)
    case Halt(_) => false
    case Skip(next) => Accepts(block, next)
    case Accept(_) => true
  }

  /** When nothing more is accepted, the scan keeps what it had found. It calls the rest erased only when the very
      next word does not read as a tag that fits the block. */
  lemma {:induction false} NothingAccepted(block: seq<byte>, progSize: nat, c: Cursor, found: Found)
    requires progSize > 0 && !Accepts(block, c)
    ensures var r := Scan(block, progSize, c, found);
            && r.found == found
            && (r.erased <==> ScanStep(block, c) == Halt(true) && Type1(c.ptag) == TYPE_CRC && FoundOff(found) % progSize == 0)
    decreases |block| - c.off
  {
    hide Crc, XorWord, FromBe32, DSize, Type3, FromLeBytes;
    ScanStepAdvances(block, c);
    var s := ScanStep(block, c);
    if s.Skip? {
      SkipsNonCrc(block, c);
      NothingAccepted(block, progSize, s.next, found);
    }
  }

  lemma SkipsNonCrc(block: seq<byte>, c: Cursor)
    requires ScanStep(block, c).Skip?
    ensures Type1(ScanStep(block, c).next.ptag) != TYPE_CRC
  {
    hide Crc, XorWord, FromBe32, DSize, Type3, FromLeBytes;
  }

  // ---------------------------------------------------------------- an in-place commit

  /** A commit that was appended in place: the log before it, the tags it adds and the CRC tags that close it. */
  ghost predicate Committed(was: seq<byte>, now: seq<byte>, log: Log, tags: Log, footers: Log, progSize: nat) {
    var all := log + tags + footers;
    var off, end := HEADER_SIZE + LogSize(log), HEADER_SIZE + LogSize(all);
    && |was| == |now| && progSize > 0 && |was| % progSize == 0
    && Stores(was, log) && log != [] && IsCrc(Last(log)) && off % progSize == 0
    && Stores(now, all) && AllFooters(footers) && footers != []
    && (forall i :: 0 <= i < |tags| ==> !IsCrc(tags[i]))
    && now[..off] == was[..off] && now[end..] == was[end..]
    && PaddingKept(was, now, all, |log| + |tags|)
    && end == AlignUp(HEADER_SIZE + LogSize(log + tags) + 8, progSize)
    && StopsAt(now, end, LastKey(BLOCK_NULL, all))
  }

  /** How many tags of the new log are sealed when programming stopped at p: those up to the last CRC tag whose
      checksum is complete, or only the old log. */
  ghost function SealedUpTo(all: Log, n0: nat, n1: nat, p: nat): (m: nat)
    requires n0 <= n1 <= |all|
    ensures m == n0 || n1 < m <= |all|
    ensures m != n0 ==> TagOffset(all, m - 1) + 8 <= p
    ensures forall k :: n1 <= k < |all| && m <= k ==> TagOffset(all, k) + 8 > p
    decreases |all| - n1
  {
    SealedFrom(all, n0, n1, p, |all|)
  }

  ghost function SealedFrom(all: Log, n0: nat, n1: nat, p: nat, top: nat): (m: nat)
    requires n0 <= n1 <= top <= |all|
    requires forall k :: top <= k < |all| ==> TagOffset(all, k) + 8 > p
    ensures m == n0 || n1 < m <= |all|
    ensures m != n0 ==> TagOffset(all, m - 1) + 8 <= p
    ensures forall k :: n1 <= k < |all| && m <= k ==> TagOffset(all, k) + 8 > p
    decreases top
  {
    if top == n1 then n0
    else if TagOffset(all, top - 1) + 8 <= p then top
    else SealedFrom(all, n0, n1, p, top - 1)
  }

  lemma {:induction false} StoresPrefix(block: seq<byte>, log: Log, m: nat)
    requires Stores(block, log) && m <= |log|
    ensures Stores(block, log[..m])
    decreases |log|
  {
    hide Stores;
    if m == |log| {
      assert log[..m] == log;
    } else {
      StoresFront(block, log);
      assert Front(log)[..m] == log[..m];
      StoresPrefix(block, Front(log), m);
    }
  }

  lemma StoresSame(block: seq<byte>, block': seq<byte>, log: Log)
    requires Stores(block, log)
    requires var end := HEADER_SIZE + LogSize(log); end <= |block'| && end <= |block| && block'[..end] == block[..end]
    ensures Stores(block', log)
  {
    hide Holds, Sealed, LogSize, SegStart;
    SameLog(block, block', log, HEADER_SIZE + LogSize(log));
  }

  lemma TornPrefix(was: seq<byte>, now: seq<byte>, p: nat, n: nat)
    requires |was| == |now| && p <= |was| && n <= |was|
    requires n <= p || now[p..n] == was[p..n]
    ensures Torn(was, now, p)[..n] == now[..n]
  {
    var torn := Torn(was, now, p);
    if n <= p {
      assert torn[..n] == now[..p][..n] == now[..n];
    } else {
      assert torn[..n] == now[..p] + was[p..n];
      assert now[..n] == now[..p] + now[p..n];
    }
  }

  lemma TornStores(was: seq<byte>, now: seq<byte>, p: nat, log: Log)
    requires |was| == |now| && p <= |was| && Stores(now, log)
    requires var end := HEADER_SIZE + LogSize(log); end <= |was| && (end <= p || now[p..end] == was[p..end])
    ensures Stores(Torn(was, now, p), log)
  {
    hide Stores, LogSize, Torn;
    LogInside(now, log);
    var end := HEADER_SIZE + LogSize(log);
    TornPrefix(was, now, p, end);
    StoresSame(now, Torn(was, now, p), log);
  }

  lemma TornStoresOld(was: seq<byte>, now: seq<byte>, p: nat, log: Log)
    requires |was| == |now| && p <= |was| && Stores(was, log)
    requires var off := HEADER_SIZE + LogSize(log); off <= p && now[..off] == was[..off]
    ensures Stores(Torn(was, now, p), log)
  {
    hide Stores, LogSize, Torn;
    LogInside(was, log);
    TornPrefix(was, now, p, HEADER_SIZE + LogSize(log));
    StoresSame(was, Torn(was, now, p), log);
  }

  lemma SameFromInside(was: seq<byte>, now: seq<byte>, all: Log, n1: nat, m: nat, p: nat)
    requires |was| == |now| && PaddingKept(was, now, all, n1) && n1 < m <= |all|
    requires TagOffset(all, m - 1) + 8 <= p <= |was|
    ensures TagOffset(all, m) <= |was|
    ensures TagOffset(all, m) <= p || now[p..TagOffset(all, m)] == was[p..TagOffset(all, m)]
  {
    hide LogSize;
    var lo, hi := TagOffset(all, m - 1) + 8, TagOffset(all, m);
    assert PaddingKeptAt(was, now, all, m - 1);
    if p < hi {
      Slice(now, lo, hi, p - lo, hi - lo);
      Slice(was, lo, hi, p - lo, hi - lo);
    }
  }

  /** Up to the last complete checksum the torn block is the new block. */
  lemma TornKeepsNew(was: seq<byte>, now: seq<byte>, all: Log, n1: nat, m: nat, p: nat)
    requires |was| == |now| && p <= |was| && Stores(now, all) && PaddingKept(was, now, all, n1)
    requires n1 < m <= |all| && TagOffset(all, m - 1) + 8 <= p
    ensures Stores(Torn(was, now, p), all[..m])
  {
    hide Stores, LogSize, Torn, PaddingKept;
    StoresPrefix(now, all, m);
    SameFromInside(was, now, all, n1, m, p);
    TornStores(was, now, p, all[..m]);
  }

  /** Before the first complete checksum the torn block holds the old log. */
  lemma TornKeeps(was: seq<byte>, now: seq<byte>, log: Log, tags: Log, footers: Log, progSize: nat, p: nat)
    requires |was| == |now| && HEADER_SIZE + LogSize(log) <= p <= |was|
    requires Committed(was, now, log, tags, footers, progSize)
    ensures Stores(Torn(was, now, p), Kept(log, tags, footers, p))
  {
    hide Stores, LogSize, AllFooters, SealedFrom, Torn, PaddingKept, StopsAt, AlignUp, IsCrc, LastKey;
    var all, n1 := log + tags + footers, |log| + |tags|;
    var m := SealedUpTo(all, |log|, n1, p);
    if m == |log| {
      assert all[..m] == log;
      TornStoresOld(was, now, p, log);
    } else {
      TornKeepsNew(was, now, all, n1, m, p);
    }
  }

  /** What is left of a new log when programming stops at p: everything up to the last complete checksum. */
  ghost function Kept(log: Log, tags: Log, footers: Log, p: nat): Log {
    var all := log + tags + footers;
    all[..SealedUpTo(all, |log|, |log| + |tags|, p)]
  }

  lemma KeptLength(log: Log, tags: Log, footers: Log, p: nat)
    requires footers != []
    ensures p < HEADER_SIZE + LogSize(log + tags) + 8 ==> |Kept(log, tags, footers, p)| == |log|
    ensures HEADER_SIZE + LogSize(log + tags) + 8 <= p ==> |log| + |tags| < |Kept(log, tags, footers, p)|
    ensures |Kept(log, tags, footers, p)| == |log| || |log| + |tags| < |Kept(log, tags, footers, p)|
    ensures |Kept(log, tags, footers, p)| <= |log + tags + footers|
    ensures var all, m := log + tags + footers, |Kept(log, tags, footers, p)|;
            m > |log| ==> TagOffset(all, m - 1) + 8 <= p
    ensures Kept(log, tags, footers, p) == (log + tags + footers)[..|Kept(log, tags, footers, p)|]
  {
    hide LogSize, SealedFrom;
    var all, n1 := log + tags + footers, |log| + |tags|;
    var m := SealedUpTo(all, |log|, n1, p);
    assert all[..n1] == log + tags;
    assert TagOffset(all, n1) == HEADER_SIZE + LogSize(log + tags);
    if m > n1 {
      LogSizePrefix(all[..m - 1], n1);
      assert all[..m - 1][..n1] == all[..n1];
    }
  }

  lemma LogInside(block: seq<byte>, log: Log)
    requires Stores(block, log)
    ensures HEADER_SIZE + LogSize(log) <= |block| && ValidLog(log) && SegStart(log) <= HEADER_SIZE + LogSize(log)
  {
  }

  // ---------------------------------------------------------------- CRC tags carry no directory state

  ghost predicate SameDirectory(a: Log, b: Log) {
    Replay([], a) == Replay([], b) && CountOf(a) == CountOf(b) && TailOf(a) == TailOf(b) && SplitOf(a) == SplitOf(b)
  }

  lemma CrcChangesNothing(log: Log, f: Tag)
    requires IsCrc(f)
    ensures SameDirectory(log + [f], log)
  {
    hide Insert, Remove, Write;
    Snoc(log, f);
  }

  lemma {:induction false} FootersChangeNothing(log: Log, fs: Log)
    requires forall i :: 0 <= i < |fs| ==> IsCrc(fs[i])
    ensures SameDirectory(log + fs, log)
    decreases |fs|
  {
    hide Replay, CountOf, TailOf, SplitOf;
    if fs == [] {
      Neutral(log);
    } else {
      FrontLast(fs);
      FootersChangeNothing(log, Front(fs));
      Assoc(log, Front(fs), [Last(fs)]);
      CrcChangesNothing(log + Front(fs), Last(fs));
    }
  }

  // ---------------------------------------------------------------- the theorem

  /** An incomplete commit fails its checksum: nothing behind the kept log is accepted. */
  ghost predicate NoFalseCommit(block: seq<byte>, kept: Log) {
    ValidLog(kept) && SegStart(kept) <= HEADER_SIZE + LogSize(kept) <= |block| ==> !Accepts(block, CursorAt(block, kept))
  }

  /** The scan of a block finds exactly the log `kept`. */
  ghost predicate Finds(block: seq<byte>, progSize: nat, kept: Log) {
    && |block| >= 4 && progSize > 0 && ValidLog(kept)
    && ScanOf(block, progSize).found
       == Newest(HEADER_SIZE + LogSize(kept), LastKey(BLOCK_NULL, kept), CountOf(kept), TailOf(kept), SplitOf(kept))
  }

  /** The scan reports the rest of the block as erased, ready for another commit. */
  predicate OffersRest(block: seq<byte>, progSize: nat) {
    |block| >= 4 && progSize > 0 && ScanOf(block, progSize).erased
  }

  lemma ScanKept(block: seq<byte>, kept: Log, progSize: nat)
    requires Stores(block, kept) && progSize > 0 && kept != [] && IsCrc(Last(kept))
    requires NoFalseCommit(block, kept)
    ensures Finds(block, progSize, kept)
    ensures OffersRest(block, progSize)
            <==> ScanStep(block, CursorAt(block, kept)) == Halt(true) && (HEADER_SIZE + LogSize(kept)) % progSize == 0
  {
    hide Crc, Encode, Sealed, WholeTails, LogSize, SegStart, LastKey, CountOf, TailOf, SplitOf, ScanStep, Type3, Accepts;
    ScanOverLog(block, kept, progSize);
    NothingAccepted(block, progSize, CursorAt(block, kept), SealedBy(kept));
    LastKeyIsCrc(kept);
  }

  lemma KeptIsNew(log: Log, tags: Log, footers: Log, m: nat)
    requires AllFooters(footers) && |log| + |tags| < m <= |log| + |tags| + |footers|
    ensures var kept := (log + tags + footers)[..m];
            kept != [] && IsCrc(Last(kept)) && SameDirectory(kept, log + tags + footers)
  {
    hide SameDirectory;
    var all, n1 := log + tags + footers, |log| + |tags|;
    var kept := all[..m];
    assert kept == (log + tags) + footers[..m - n1];
    assert Last(kept) == footers[m - n1 - 1];
    assert forall i :: 0 <= i < |footers| ==> IsFooter(footers[i]);
    FootersChangeNothing(log + tags, footers[..m - n1]);
    FootersChangeNothing(log + tags, footers);
    SameDirectoryVia(kept, all, log + tags);
  }

  lemma SameDirectoryVia(a: Log, b: Log, c: Log)
    requires SameDirectory(a, c) && SameDirectory(b, c)
    ensures SameDirectory(a, b)
  {
  }

  lemma FooterTakes8(log: Log, k: nat)
    requires k < |log| && ValidLog(log) && IsFooter(log[k])
    ensures TagOffset(log, k) + 8 <= TagOffset(log, k + 1)
  {
    SplitAt(log, k);
    Snoc(log[..k], log[k]);
  }

  /** Between two CRC tags of one commit there is no program boundary. */
  lemma BetweenBoundaries(all: Log, n1: nat, m: nat, progSize: nat)
    requires ValidLog(all) && progSize > 0 && n1 < m < |all| && IsFooter(all[n1]) && IsFooter(all[m])
    requires HEADER_SIZE + LogSize(all) == AlignUp(TagOffset(all, n1) + 8, progSize)
    ensures TagOffset(all, m) % progSize != 0
  {
    hide LogSize, AlignUp, IsFooter;
    FooterTakes8(all, n1);
    FooterTakes8(all, m);
    LogSizePrefix(all[..m], n1 + 1);
    assert all[..m][..n1 + 1] == all[..n1 + 1];
    LogSizePrefix(all, m + 1);
    if TagOffset(all, m) % progSize == 0 {
      MultiplesApart(HEADER_SIZE + LogSize(all), TagOffset(all, m), progSize);
    }
  }

  /** The next tag of a stored log is readable in every block that agrees with the stored one up to the tag's word. */
  lemma ReadableTag(block: seq<byte>, torn: seq<byte>, all: Log, k: nat)
    requires Stores(block, all) && k < |all| && Stores(torn, all[..k]) && |torn| == |block|
    requires TagOffset(all, k) + 4 <= |block|
    requires torn[..TagOffset(all, k) + 4] == block[..TagOffset(all, k) + 4]
    ensures ScanStep(torn, CursorAt(torn, all[..k])) != Halt(true)
  {
    hide Crc, LeBytes, FromLeBytes, Type3, Id, DSize, XorWord, FromBe32, LogSize, Chunk, Encode, LastKey, Sealed, SegStart, CountAfter;
    var o := TagOffset(all, k);
    ReadTag(block, all, HEADER_SIZE + LogSize(all), k);
    WordBack(all[k], LastKey(BLOCK_NULL, all[..k]));
    SamePrefixSlice(block, torn, o + 4, o, o + 4);
  }

  /** A torn tail is never taken for erased flash once one whole word of it has been programmed. */
  lemma NotErased(was: seq<byte>, now: seq<byte>, log: Log, tags: Log, footers: Log, progSize: nat, p: nat, m: nat)
    requires Committed(was, now, log, tags, footers, progSize)
    requires HEADER_SIZE + LogSize(log) + 4 <= p <= |was|
    requires var all := log + tags + footers; m < |all| && (m == |log| || |log| + |tags| < m)
    requires var all := log + tags + footers; Stores(Torn(was, now, p), all[..m])
    ensures var all := log + tags + footers;
            ScanStep(Torn(was, now, p), CursorAt(Torn(was, now, p), all[..m])) != Halt(true)
            || TagOffset(all, m) % progSize != 0
  {
    hide Stores, LogSize, LastKey, AlignUp, ScanStep, StopsAt, PaddingKept, Torn, AllFooters;
    var all, n1 := log + tags + footers, |log| + |tags|;
    LogInside(now, all);
    if m == |log| {
      assert all[..m] == log;
      TornPrefix(was, now, p, TagOffset(all, m) + 4);
      ReadableTag(now, Torn(was, now, p), all, m);
    } else {
      BoundaryPassed(log + tags, footers, progSize, m);
    }
  }

  /** The CRC tags of one commit end between program boundaries, but for the last one. */
  lemma BoundaryPassed(front: Log, footers: Log, progSize: nat, m: nat)
    requires ValidLog(front + footers) && progSize > 0 && AllFooters(footers) && |front| < m < |front + footers|
    requires HEADER_SIZE + LogSize(front + footers) == AlignUp(HEADER_SIZE + LogSize(front) + 8, progSize)
    ensures TagOffset(front + footers, m) % progSize != 0
  {
    hide LogSize, AlignUp, IsFooter;
    var all, n1 := front + footers, |front|;
    assert all[n1] == footers[0] && all[m] == footers[m - n1] && all[..n1] == front;
    BetweenBoundaries(all, n1, m, progSize);
  }

  /** In-place commit, power lost at any byte p: the scan finds the old log as long as the first checksum is not
      complete, and a log with the new directory from then on; the rest of the block is not offered for another commit
      once a whole tag word has been programmed and until the last checksum is complete. */
  lemma InPlaceCommitIsAtomic(was: seq<byte>, now: seq<byte>, log: Log, tags: Log, footers: Log, progSize: nat, p: nat)
    requires |was| == |now| && HEADER_SIZE + LogSize(log) <= p <= |was|
    requires Committed(was, now, log, tags, footers, progSize)
    requires NoFalseCommit(Torn(was, now, p), Kept(log, tags, footers, p))
    ensures Finds(Torn(was, now, p), progSize, Kept(log, tags, footers, p))
    ensures p < HEADER_SIZE + LogSize(log + tags) + 8 ==> Kept(log, tags, footers, p) == log
    ensures HEADER_SIZE + LogSize(log + tags) + 8 <= p ==> SameDirectory(Kept(log, tags, footers, p), log + tags + footers)
    ensures HEADER_SIZE + LogSize(log) + 4 <= p && |Kept(log, tags, footers, p)| < |log + tags + footers|
            ==> !OffersRest(Torn(was, now, p), progSize)
  {
    hide Stores, LogSize, SameDirectory, AlignUp, PaddingKept, StopsAt, NoFalseCommit, Kept, ScanStep, Torn, Finds,
      OffersRest, AllFooters, IsCrc, LastKey;
    var m := |Kept(log, tags, footers, p)|;
    KeptLength(log, tags, footers, p);
    TornKeeps(was, now, log, tags, footers, progSize, p);
    if m == |log| {
      assert (log + tags + footers)[..m] == log;
    } else {
      KeptIsNew(log, tags, footers, m);
    }
    ScanKept(Torn(was, now, p), Kept(log, tags, footers, p), progSize);
    if HEADER_SIZE + LogSize(log) + 4 <= p && m < |log + tags + footers| {
      NotErased(was, now, log, tags, footers, progSize, p, m);
    }
  }

  /** The tag word found behind the old log. */
  ghost function TornTag(block: seq<byte>, log: Log): TagWord
    requires ValidLog(log) && HEADER_SIZE + LogSize(log) + 4 <= |block|
  {
    var off := HEADER_SIZE + LogSize(log);
    XorWord(FromBe32(block[off..off + 4]), LastKey(BLOCK_NULL, log))
  }

  /** The first byte of a word decides its valid bit. */
  lemma FirstByteDecides(a: seq<byte>, b: seq<byte>, key: TagWord)
    requires |a| == |b| == 4 && a[0] == b[0]
    ensures IsValid(XorWord(FromBe32(a), key)) <==> IsValid(XorWord(FromBe32(b), key))
  {
    hide XorWord;
    XorTop(FromBe32(a), key);
    XorTop(FromBe32(b), key);
  }

  lemma HaltsClean(block: seq<byte>, log: Log)
    requires Stores(block, log) && HEADER_SIZE + LogSize(log) + 4 <= |block|
    ensures ScanStep(block, CursorAt(block, log)) == Halt(true)
            <==> !IsValid(TornTag(block, log)) || HEADER_SIZE + LogSize(log) + DSize(TornTag(block, log)) > |block|
  {
    hide Crc, DSize, Type3, Id, XorWord, FromBe32, FromLeBytes, LogSize, LastKey, Encode, Sealed, SegStart, CountOf, TailOf,
      SplitOf;
  }

  lemma TornTagIsValid(was: seq<byte>, now: seq<byte>, log: Log, all: Log, p: nat)
    requires |was| == |now| && HEADER_SIZE + LogSize(log) < p <= |was|
    requires Stores(now, all) && |log| < |all| && all[..|log|] == log
    ensures ValidLog(log) && HEADER_SIZE + LogSize(log) + 4 <= |was| && IsValid(TornTag(Torn(was, now, p), log))
  {
    hide LogSize, Encode, Sealed, XorWord, FromBe32, LastKey, SegStart, Torn, WholeTails;
    var o, torn := HEADER_SIZE + LogSize(log), Torn(was, now, p);
    ReadTag(now, all, HEADER_SIZE + LogSize(all), |log|);
    WordBack(all[|log|], LastKey(BLOCK_NULL, log));
    assert torn[o] == now[o] by { TornByte(was, now, p, o); }
    FirstByteDecides(now[o..o + 4], torn[o..o + 4], LastKey(BLOCK_NULL, log));
  }

  lemma TornByte(was: seq<byte>, now: seq<byte>, p: nat, i: nat)
    requires |was| == |now| && i < p <= |was|
    ensures Torn(was, now, p)[i] == now[i]
  {
  }

  /** When a partly programmed tail is taken for erased flash: exactly when fewer than four bytes of it were programmed
      and the mixture of new and old bytes reads as a tag that does not fit the block. */
  lemma TornTailLooksErased(was: seq<byte>, now: seq<byte>, log: Log, tags: Log, footers: Log, progSize: nat, p: nat)
    requires |was| == |now| && HEADER_SIZE + LogSize(log) < p <= |was|
    requires Committed(was, now, log, tags, footers, progSize)
    requires NoFalseCommit(Torn(was, now, p), Kept(log, tags, footers, p))
    requires |Kept(log, tags, footers, p)| < |log + tags + footers|
    ensures ValidLog(log) && HEADER_SIZE + LogSize(log) + 4 <= |was|
    ensures OffersRest(Torn(was, now, p), progSize)
            <==> p < HEADER_SIZE + LogSize(log) + 4
                 && HEADER_SIZE + LogSize(log) + DSize(TornTag(Torn(was, now, p), log)) > |was|
  {
    hide Stores, LogSize, SameDirectory, AlignUp, PaddingKept, StopsAt, NoFalseCommit, Kept, ScanStep, Torn, Finds,
      OffersRest, AllFooters, IsCrc, LastKey, TornTag, DSize;
    var all := log + tags + footers;
    assert all[..|log|] == log;
    TornTagIsValid(was, now, log, all, p);
    if p < HEADER_SIZE + LogSize(log) + 4 {
      LogSizePrefix(log + tags, |log|);
      assert (log + tags)[..|log|] == log;
      KeptLength(log, tags, footers, p);
      TornKeeps(was, now, log, tags, footers, progSize, p);
      ScanKept(Torn(was, now, p), log, progSize);
      HaltsClean(Torn(was, now, p), log);
    } else {
      InPlaceCommitIsAtomic(was, now, log, tags, footers, progSize, p);
    }
  }

  lemma BeginsOnBoundary(was: seq<byte>, now: seq<byte>, log: Log, tags: Log, footers: Log, progSize: nat)
    requires Committed(was, now, log, tags, footers, progSize)
    ensures progSize > 0 && (HEADER_SIZE + LogSize(log)) % progSize == 0
  {
    hide Stores, LogSize, AlignUp, PaddingKept, StopsAt, AllFooters, IsCrc, LastKey;
  }

  /** So it never happens when flash is programmed in units of at least four bytes. */
  lemma TornTailIsSeen(was: seq<byte>, now: seq<byte>, log: Log, tags: Log, footers: Log, progSize: nat, p: nat)
    requires |was| == |now| && HEADER_SIZE + LogSize(log) < p <= |was|
    requires Committed(was, now, log, tags, footers, progSize)
    requires NoFalseCommit(Torn(was, now, p), Kept(log, tags, footers, p))
    requires |Kept(log, tags, footers, p)| < |log + tags + footers|
    requires progSize >= 4 && p % progSize == 0
    ensures !OffersRest(Torn(was, now, p), progSize)
  {
    hide Stores, LogSize, AlignUp, PaddingKept, StopsAt, NoFalseCommit, Kept, ScanStep, Torn, OffersRest, AllFooters,
      IsCrc, LastKey, TornTag, DSize, Committed;
    TornTailLooksErased(was, now, log, tags, footers, progSize, p);
    BeginsOnBoundary(was, now, log, tags, footers, progSize);
    if p < HEADER_SIZE + LogSize(log) + progSize {
      MultiplesApart(p, HEADER_SIZE + LogSize(log), progSize);
    }
  }

  /** One or two new bytes in front of erased ones read as a tag whose size field is the complement of that of the word
      before. */
  lemma FewBytesProgrammed(a: byte, b: byte, key: TagWord)
    ensures var tag := XorWord(FromBe32([a, b, 0xff, 0xff]), key);
            Size(tag) == 0x3ff - Size(key) && DSize(tag) == 4 + PayloadLen(0x3ff - Size(key))
  {
    hide Xor, FromBe32, Type3, Id, MkTag, DSize;
    var word := FromBe32([a, b, 0xff, 0xff]);
    var tag: TagWord := XorWord(word, key);
    assert Exp2(10) == 0x400;
    OnesLow(a, b);
    XorLow(word, key, 10);
    XorOnes(key % 0x400, 10);
    MkTagOfFields(tag);
    FieldsOfMkTag(Type3(tag), Id(tag), Size(tag), tag);
  }

  lemma OnesLow(a: byte, b: byte)
    ensures FromBe32([a, b, 0xff, 0xff]) % 0x400 == 0x3ff
  {
  }

  ghost predicate ErasedFrom(block: seq<byte>, off: nat) {
    forall i :: off <= i < |block| ==> block[i] == 0xff
  }

  lemma TornWord(was: seq<byte>, now: seq<byte>, off: nat, p: nat)
    requires |was| == |now| && off < p <= off + 2 && off + 4 <= |was| && ErasedFrom(was, off)
    ensures Torn(was, now, p)[off..off + 4] == [now[off], if p == off + 1 then 0xff else now[off + 1], 0xff, 0xff]
  {
  }

  /** A scan that halts at once accepts nothing. */
  lemma HaltAcceptsNothing(block: seq<byte>, log: Log)
    requires Stores(block, log) && ScanStep(block, CursorAt(block, log)).Halt?
    ensures NoFalseCommit(block, log)
  {
  }

  /** The size the torn tag seems to have. */
  lemma FewBytesTag(was: seq<byte>, now: seq<byte>, log: Log, p: nat)
    requires |was| == |now| && ValidLog(log) && HEADER_SIZE + LogSize(log) + 4 <= |was|
    requires HEADER_SIZE + LogSize(log) < p <= HEADER_SIZE + LogSize(log) + 2
    requires ErasedFrom(was, HEADER_SIZE + LogSize(log))
    ensures DSize(TornTag(Torn(was, now, p), log)) == 4 + PayloadLen(0x3ff - Size(LastKey(BLOCK_NULL, log)))
  {
    hide LogSize, Torn, LastKey, DSize, ErasedFrom, XorWord, FromBe32;
    var off := HEADER_SIZE + LogSize(log);
    TornWord(was, now, off, p);
    FewBytesProgrammed(now[off], if p == off + 1 then 0xff else now[off + 1], LastKey(BLOCK_NULL, log));
  }

  /** So few bytes are not enough for anything new to be kept. */
  lemma NothingKept(was: seq<byte>, now: seq<byte>, log: Log, tags: Log, footers: Log, progSize: nat, p: nat)
    requires Committed(was, now, log, tags, footers, progSize)
    requires HEADER_SIZE + LogSize(log) < p <= HEADER_SIZE + LogSize(log) + 2 && p <= |was|
    ensures |was| == |now| && Kept(log, tags, footers, p) == log && |log| < |log + tags + footers|
    ensures Stores(Torn(was, now, p), log)
  {
    hide Stores, LogSize, AlignUp, PaddingKept, StopsAt, Kept, Torn, AllFooters, IsCrc, LastKey;
    LogSizePrefix(log + tags, |log|);
    assert (log + tags)[..|log|] == log && (log + tags + footers)[..|log|] == log;
    KeptLength(log, tags, footers, p);
    TornKeeps(was, now, log, tags, footers, progSize, p);
  }

  /** On erased flash, power lost after one or two bytes of any commit: the torn tail is taken for erased flash exactly
      when the complement of the last CRC tag's size is more than the block has left. A short CRC tag near the end of a
      block is enough. */
  lemma FewBytesLookErased(was: seq<byte>, now: seq<byte>, log: Log, tags: Log, footers: Log, progSize: nat, p: nat)
    requires Committed(was, now, log, tags, footers, progSize)
    requires HEADER_SIZE + LogSize(log) < p <= HEADER_SIZE + LogSize(log) + 2 && p <= |was|
    requires ErasedFrom(was, HEADER_SIZE + LogSize(log))
    ensures ValidLog(log)
    ensures var tooLong := HEADER_SIZE + LogSize(log) + 4 + PayloadLen(0x3ff - Size(LastKey(BLOCK_NULL, log))) > |was|;
            && (tooLong ==> OffersRest(Torn(was, now, p), progSize))
            && (NoFalseCommit(Torn(was, now, p), log) ==> (OffersRest(Torn(was, now, p), progSize) <==> tooLong))
  {
    hide Stores, LogSize, SameDirectory, AlignUp, PaddingKept, StopsAt, NoFalseCommit, Kept, ScanStep, Torn, Finds,
      OffersRest, AllFooters, IsCrc, LastKey, DSize, ErasedFrom, XorWord, FromBe32;
    var torn, all := Torn(was, now, p), log + tags + footers;
    assert all[..|log|] == log;
    TornTagIsValid(was, now, log, all, p);
    FewBytesTag(was, now, log, p);
    NothingKept(was, now, log, tags, footers, progSize, p);
    HaltsClean(torn, log);
    if ScanStep(torn, CursorAt(torn, log)) == Halt(true) { HaltAcceptsNothing(torn, log); }
    if NoFalseCommit(torn, log) { TornTailLooksErased(was, now, log, tags, footers, progSize, p); }
  }

  lemma {:induction false} XorOnes(a: nat, bits: nat)
    requires a < Exp2(bits)
    ensures Xor(Exp2(bits) - 1, a) == Exp2(bits) - 1 - a
  {
    hide Xor, Exp2;
    Exp2Step(bits);
    if bits == 0 {
      XorZero(0);
    } else {
      var e, ones := Exp2(bits - 1), Exp2(bits) - 1;
      XorOnes(a / 2, bits - 1);
      HalveSum(e - 1, 1);
      assert ones == 2 * (e - 1) + 1;
      XorStep(ones, a);
      var x := Xor(ones, a);
      assert x == 2 * (x / 2) + x % 2 && a == 2 * (a / 2) + a % 2;
    }
  }
}
