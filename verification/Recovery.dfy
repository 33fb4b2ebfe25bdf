/** Commits from end to end: what lfs_dir_commit is asked for, what it writes, what is fetched after power was lost in
    the middle of it, and what a lookup then returns. */
module Recovery {
  import opened Wrappers
  import opened Words
  import opened Tags
  import opened Sequences
  import opened MetadataLog
  import opened Compaction
  import opened Commit
  import opened PowerLoss
  import opened PairUpdate
  import Fetch
  import Lookup
  import Traverse

  // ---------------------------------------------------------------- what commits write can be committed

  /** Tags that belong to no entry: the tail and the global state that a commit adds. */
  ghost predicate Aside(extra: Log) {
    Committable(extra)
    && forall i :: 0 <= i < |extra| ==> !extra[i].IsAttr() && extra[i].kind != TYPE_CREATE && extra[i].kind != TYPE_DELETE
  }

  /** Single pending tags are no CRC tags, and tails carry a whole pair. */
  ghost predicate Ordinary(items: seq<Item>) {
    forall i :: 0 <= i < |items| && items[i].Plain? ==>
      !IsCrc(items[i].tag) && (Fetch.IsTail(items[i].tag) ==> |items[i].tag.data| >= 8)
  }

  lemma EntryTagsCommittable(x: Log)
    requires forall i :: 0 <= i < |x| ==> x[i].Valid() && x[i].IsAttr()
    ensures Committable(x)
  {
  }

  lemma CommittableConcat(a: Log, b: Log)
    requires Committable(a) && Committable(b)
    ensures Committable(a + b)
  {
  }

  lemma {:induction false} EmitLogValid(log: Log, after: Log, sel: Selection, begin: nat, end: nat, diff: int)
    requires ValidLog(log) && PlainLog(after) && 0 <= begin + diff && end + diff <= 0x400
    ensures forall i :: 0 <= i < |EmitLog(log, after, sel, begin, end, diff)| ==>
                          EmitLog(log, after, sel, begin, end, diff)[i].Valid()
  {
    hide Survive, Selected;
    if log != [] {
      EmitLogValid(log[1..], after, sel, begin, end, diff);
    }
  }

  /** The tags of a group at an id that fits. */
  lemma GroupValid(it: Item, id: nat)
    requires ValidItem(it) && IsGroup(it) && id < 0x400
    ensures Committable(TagsAt(it, id))
  {
    hide Selected, EmitLog;
    GroupTags(it, id, id);
    if it.Move? { EmitLogValid(it.source, [], MovedTags, it.from, it.from + 1, id - it.from); }
    EntryTagsCommittable(TagsAt(it, id));
  }

  lemma EmitItemCommittable(it: Item, rest: Log, begin: nat, end: nat, diff: int)
    requires ValidItem(it) && PlainLog(rest) && 0 <= begin + diff && end + diff <= 0x400
    ensures Committable(EmitItem(it, rest, begin, end, diff))
  {
    hide Survive, TagsAt, PlainLog, EmitItem, EmitTag, Committable;
    EmitItemIds(it, rest, begin, end, diff);
    if IsGroup(it) {
      GroupEmission(it, rest, begin, end, diff);
      var j := Survive(Header(it), rest);
      if j.Some? && begin <= j.value < end {
        GroupValid(it, j.value + diff);
      } else {
        EntryTagsCommittable([]);
      }
    } else if it.Plain? {
      PlainItem(it, rest, begin, end, diff);
      PlainEmission(it.tag, rest, begin, end, diff);
    } else {
      NoopItem(it, rest, begin, end, diff);
      EntryTagsCommittable([]);
    }
  }

  lemma PlainEmission(t: Tag, rest: Log, begin: nat, end: nat, diff: int)
    requires t.Valid() && PlainLog(rest) && 0 <= begin + diff && end + diff <= 0x400
    ensures Committable(EmitTag(t, rest, EntryTags, begin, end, diff))
  {
    hide Survive, PlainLog, Committable;
    EntryTagsCommittable(EmitTag(t, rest, EntryTags, begin, end, diff));
  }

  lemma {:induction false} EmitItemsCommittable(items: seq<Item>, move: Log, begin: nat, end: nat, diff: int)
    requires ValidItems(items) && PlainLog(move) && 0 <= begin + diff && end + diff <= 0x400
    ensures Committable(EmitItems(items, move, begin, end, diff))
  {
    hide EmitItem, ExpandAll, Committable;
    if items == [] {
      EntryTagsCommittable([]);
    } else {
      var rest := ExpandAll(items[1..]) + move;
      EmitItemCommittable(items[0], rest, begin, end, diff);
      EmitItemsCommittable(items[1..], move, begin, end, diff);
      CommittableConcat(EmitItem(items[0], rest, begin, end, diff), EmitItems(items[1..], move, begin, end, diff));
    }
  }

  /** What a compaction emits can be committed. */
  lemma CompactedIsCommittable(log: Log, items: seq<Item>, move: Log, begin: nat, end: nat)
    requires ValidLog(log) && ValidItems(items) && PlainLog(move) && begin <= end <= 0x400
    ensures Committable(Compacted(log, items, move, begin, end))
  {
    hide EmitLog, EmitItems, ExpandAll, Selected, Committable;
    var diff: int := 0 - begin;
    EmitLogValid(log, ExpandAll(items) + move, EntryTags, begin, end, diff);
    EmitLogIds(log, ExpandAll(items) + move, begin, end, diff);
    EntryTagsCommittable(EmitLog(log, ExpandAll(items) + move, EntryTags, begin, end, diff));
    EmitItemsCommittable(items, move, begin, end, diff);
    CommittableConcat(EmitLog(log, ExpandAll(items) + move, EntryTags, begin, end, diff),
                      EmitItems(items, move, begin, end, diff));
  }

  /** So can the tags that pending attributes stand for. */
  lemma {:induction false} PendingIsCommittable(items: seq<Item>, move: Log)
    requires ValidItems(items) && MoveLog(move) && Ordinary(items)
    ensures Committable(ExpandAll(items) + move)
  {
    if items == [] {
      Neutral(move);
    } else {
      hide Expand, Committable, MoveLog;
      PendingIsCommittable(items[1..], move);
      ItemCommittable(items[0]);
      CommittableConcat(Expand(items[0]), ExpandAll(items[1..]) + move);
      Assoc(Expand(items[0]), ExpandAll(items[1..]), move);
    }
  }

  lemma ItemCommittable(it: Item)
    requires ValidItem(it) && Ordinary([it])
    ensures Committable(Expand(it))
  {
    if IsGroup(it) {
      hide TagsAt;
      GroupValid(it, Header(it).id);
    } else {
      assert it == [it][0];
      PlainOrNoop(it);
    }
  }

  // ---------------------------------------------------------------- from the request to the block

  /** lfs_dir_commit in place: the pending attributes and what goes beside them, behind the log on the block. */
  method CommitPending(was: seq<byte>, dirOff: nat, etag: TagWord, ps: seq<Traverse.Pending>, move: Log, extra: Log,
                       progSize: nat, ghost log: Log) returns (s: Status, now: seq<byte>, ghost footers: Log)
    requires Fetch.Stores(was, log) && log != [] && IsCrc(Last(log)) && |was| >= 8
    requires dirOff == HEADER_SIZE + LogSize(log) && etag == LastKey(BLOCK_NULL, log)
    requires progSize > 0 && |was| % progSize == 0 && dirOff % progSize == 0
    requires Traverse.AllValid(ps) && MoveLog(move) && Aside(extra) && Ordinary(Traverse.ItemsOf(ps))
    requires Traverse.PendingTags(ps, move) + extra == [] ==> dirOff + 8 <= |was|
    ensures s == if dirOff + LogSize(Traverse.PendingTags(ps, move) + extra) + 8 > |was| then NoSpace else Ok
    ensures s == Ok ==>
              Committed(was, now, log, (ExpandAll(Traverse.ItemsOf(ps)) + move) + extra, footers, progSize)
    ensures Tried(was, now, log)
  {
    hide Committed, Tried, Committable, Fetch.Stores, StopsAt, ExpandAll, LogSize, LastKey;
    var tags := Traverse.TraverseInPlace(ps, move);
    PendingIsCommittable(Traverse.ItemsOf(ps), move);
    CommittableConcat(tags, extra);
    s, now, footers := CommitInPlace(was, dirOff, etag, tags + extra, progSize, log);
  }

  /** lfs_dir_compact: the filtered directory and what goes beside it, on an erased block. */
  method CompactPending(dir: Traverse.Mdir, ps: seq<Traverse.Pending>, move: Log, begin: nat, end: nat, extra: Log,
                        erased: seq<byte>, rev: nat, progSize: nat, ghost log: Log)
    returns (s: Status, now: seq<byte>, ghost footers: Log)
    requires Holds(dir.block, log, dir.off) && Traverse.AllValid(ps) && MoveLog(move) && Aside(extra)
    requires begin <= end <= 0x400 && SmallDirs([], log + Traverse.PendingTags(ps, move))
    requires Traverse.NamesEntries(Replay([], log), Traverse.ItemsOf(ps))
    requires |erased| >= 12 && rev < WORD_LIMIT && progSize > 0 && |erased| % progSize == 0
    ensures s == if HEADER_SIZE + LogSize(Compacted(log, Traverse.ItemsOf(ps), move, begin, end) + extra) + 8 > |erased|
                 then NoSpace else Ok
    ensures s == Ok ==>
              Rewritten(erased, now, rev, Compacted(log, Traverse.ItemsOf(ps), move, begin, end) + extra, footers, progSize)
  {
    hide Rewritten, Committable, Compacted, ExpandAll, SmallDirs, Selected, Holds, Replay, Traverse.NamesEntries,
      Traverse.Room, Traverse.PendingRoom, Traverse.AllValid, LogSize, PlainLog;
    CompactionFits(dir, ps, move, log);
    var tags := Traverse.TraverseCompact(dir, ps, move, begin, end, log);
    CompactedIsCommittable(log, Traverse.ItemsOf(ps), move, begin, end);
    CommittableConcat(tags, extra);
    s, now, footers := WriteCompacted(erased, rev, tags + extra, progSize);
  }

  /** Directories that ids can name can be filtered. */
  lemma CompactionFits(dir: Traverse.Mdir, ps: seq<Traverse.Pending>, move: Log, log: Log)
    requires Holds(dir.block, log, dir.off) && Traverse.AllValid(ps) && MoveLog(move)
    requires SmallDirs([], log + Traverse.PendingTags(ps, move))
    requires Traverse.NamesEntries(Replay([], log), Traverse.ItemsOf(ps))
    ensures ValidLog(log) && PlainLog(log) && PlainLog(move) && Traverse.PendingRoom(ps, move)
    ensures Traverse.Room(log, Traverse.PendingTags(ps, move), EntryTags)
  {
    hide ExpandAll, SmallDirs, Selected, Replay, Traverse.Fits, Traverse.NamesEntries, Encode, LogSize;
    RestHasNoSources(Traverse.ItemsOf(ps), move);
    Traverse.RoomInSmallDirs(log, Traverse.PendingTags(ps, move), EntryTags);
    SmallDirsFrom([], log, Traverse.PendingTags(ps, move));
    Traverse.PendingRoomInSmallDirs(Replay([], log), ps, move);
  }

  // ---------------------------------------------------------------- what the directory means after a cut

  lemma {:induction false} AsideKeeps(log: Log, extra: Log)
    requires Aside(extra)
    ensures Replay([], log + extra) == Replay([], log)
    decreases |extra|
  {
    if extra == [] {
      Neutral(log);
    } else {
      AppendFront(log, extra);
      AsideKeeps(log, Front(extra));
    }
  }

  /** In-place commit, power lost at any byte p: the log that is found means what the directory meant before, or what the
      commit was asked to make of it. */
  lemma InPlaceMeaning(was: seq<byte>, now: seq<byte>, log: Log, items: seq<Item>, move: Log, extra: Log, footers: Log,
                       progSize: nat, p: nat)
    requires ValidItems(items) && MoveLog(move) && Aside(extra) && HEADER_SIZE + LogSize(log) <= p <= |was|
    requires var tags := (ExpandAll(items) + move) + extra;
             && Committed(was, now, log, tags, footers, progSize)
             && NoFalseCommit(Torn(was, now, p), Kept(log, tags, footers, p))
    ensures var tags := (ExpandAll(items) + move) + extra;
            var kept := Kept(log, tags, footers, p);
            && Fetch.Stores(Torn(was, now, p), kept) && Finds(Torn(was, now, p), progSize, kept)
            && Replay([], kept) ==
               Replay([], if p < HEADER_SIZE + LogSize(log + tags) + 8 then log else Intended(log, items, move))
  {
    hide Fetch.Stores, LogSize, Replay, Kept, Torn, Finds, NoFalseCommit, AlignUp, StopsAt, PaddingKept, AllFooters, ExpandAll;
    var meant := ExpandAll(items) + move;
    var tags := meant + extra;
    InPlaceCommitIsAtomic(was, now, log, tags, footers, progSize, p);
    TornKeeps(was, now, log, tags, footers, progSize, p);
    FootersAre(footers);
    FootersChangeNothing(log + tags, footers);
    Assoc(log, meant, extra);
    AsideKeeps(log + meant, extra);
  }

  lemma FootersAre(footers: Log)
    requires AllFooters(footers)
    ensures forall i :: 0 <= i < |footers| ==> IsCrc(footers[i])
  {
  }

  /** What is kept of a compaction means what was written. */
  lemma CompactedKept(erased: seq<byte>, now: seq<byte>, rev: nat, written: Log, extra: Log, footers: Log, progSize: nat, p: nat)
    requires Aside(extra) && p <= |now| && |erased| == |now|
    requires var tags := written + extra;
             && Rewritten(erased, now, rev, tags, footers, progSize) && HEADER_SIZE + LogSize(tags) + 8 <= p
             && SameDirectory(Kept([], tags, footers, p), tags + footers)
    ensures var kept := Kept([], written + extra, footers, p);
            Fetch.Stores(Torn(erased, now, p), kept) && Replay([], kept) == Replay([], written)
  {
    hide Fetch.Stores, LogSize, LastKey, Replay, Kept, Torn, AlignUp, StopsAt, PaddingKept, AllFooters, Le32;
    var tags := written + extra;
    var m := |Kept([], tags, footers, p)|;
    FootersAre(footers);
    FootersChangeNothing(tags, footers);
    AsideKeeps(written, extra);
    assert [] + tags + footers == tags + footers && [] + tags == tags;
    KeptLength([], tags, footers, p);
    TornKeepsNew(erased, now, tags + footers, |tags|, m, p);
  }

  /** What a compaction of these entries writes, beside them the tags of the commit itself. */
  ghost function Output(log: Log, items: seq<Item>, move: Log, begin: nat, end: nat, extra: Log): (tags: Log)
    requires Compactable(log, items, move, extra)
  {
    Compacted(log, items, move, begin, end) + extra
  }

  ghost predicate Compactable(log: Log, items: seq<Item>, move: Log, extra: Log) {
    PlainLog(log) && ValidItems(items) && MoveLog(move) && PlainLog(move) && Aside(extra)
  }

  /** The other block was rewritten with `tags` and the next revision, and power was lost at byte p; what is incomplete
      fails its checksum. */
  ghost predicate CutRewrite(prior: seq<byte>, erased: seq<byte>, now: seq<byte>, rev: nat, tags: Log, footers: Log,
                             progSize: nat, p: nat) {
    && |prior| >= 4 && rev == (FromLe32(prior[0..4]) + 1) % WORD_LIMIT && |erased| == |now| >= 12 && p <= |now|
    && progSize > 0 && Rewritten(erased, now, rev, tags, footers, progSize)
    && NoFalseCommit(Torn(erased, now, p), Kept([], tags, footers, p))
  }

  /** Compaction, power lost at any byte p: the block that is found means the old directory, or holds for every entry
      and type that is not lost what the commit was asked for. */
  lemma CompactedMeaning(prior: seq<byte>, log: Log, items: seq<Item>, move: Log, begin: nat, end: nat, extra: Log,
                         erased: seq<byte>, now: seq<byte>, rev: nat, footers: Log, progSize: nat, p: nat, second: bool,
                         mask: nat, kind: nat, j: nat)
    requires Compactable(log, items, move, extra) && SealedLog(prior, log)
    requires begin <= j < end && Key(EntryTags, mask, kind) && !Loses(items, move, mask, kind, j)
    requires CutRewrite(prior, erased, now, rev, Output(log, items, move, begin, end, extra), footers, progSize, p)
    ensures var tags := Output(log, items, move, begin, end, extra);
            var torn, kept := Torn(erased, now, p), Kept([], tags, footers, p);
            var b0, b1 := if second then prior else torn, if second then torn else prior;
            if p < HEADER_SIZE + LogSize(tags) + 8 then PairFinds(b0, b1, progSize, !second, log)
            else PairFinds(b0, b1, progSize, second, kept) && Fetch.Stores(torn, kept)
                 && Held(At(Replay([], kept), j - begin), mask, kind)
                    == Held(At(Replay([], Intended(log, items, move)), j), mask, kind)
  {
    hide Fetch.Stores, LogSize, LastKey, Replay, Kept, Torn, NoFalseCommit, StopsAt, Compacted, Intended, Loses, PairFinds,
      FromLe32, Held, IsCrc, Rewritten, SameDirectory, PlainLog, Aside, Key;
    var written := Compacted(log, items, move, begin, end);
    LogInside(prior, log);
    CompactionIsAtomic(prior, log, erased, now, rev, written + extra, footers, progSize, p, second);
    DiskKinds(mask, kind);
    CompactionPreservesMeaning(log, items, move, begin, end, mask, kind, j);
    if p >= HEADER_SIZE + LogSize(written + extra) + 8 {
      CompactedKept(erased, now, rev, written, extra, footers, progSize, p);
    }
  }

  // ---------------------------------------------------------------- lookups after a cut

  /** A lookup by id returned what `want` holds. */
  ghost predicate Returns(r: Lookup.GetResult, buffer: seq<byte>, gtag: TagWord, gsize: nat, want: Option<Attr>) {
    && !r.Corrupt? && (r.NoEntry? <==> want.None?)
    && (r.Found? ==> Type3(r.tag) == want.value.kind && Size(r.tag) == want.value.size && Id(r.tag) == Id(gtag)
                     && |buffer| == gsize && buffer == Lookup.ExactSlice(want.value.data, 0, gsize))
  }

  /** Fetching a block on which the log `kept` is found, and looking an attribute up in it from its first byte on. */
  method FetchAndGet(block: seq<byte>, progSize: nat, mask: nat, gtag: TagWord, gsize: nat, ghost kept: Log)
    returns (r: Lookup.GetResult, buffer: seq<byte>)
    requires Fetch.Stores(block, kept) && Finds(block, progSize, kept)
    requires Lookup.LookupMask(mask) && IsValid(gtag) && Type3(gtag) < 0x400 && Lookup.IdsFit(kept, mask, Type3(gtag), Id(gtag))
    ensures Returns(r, buffer, gtag, gsize, Held(At(Replay([], kept), Id(gtag)), mask, Type3(gtag)))
  {
    hide Replay, Held, Lookup.IdsFit, LogSize, LastKey, Type3, Id, Size, Lookup.ExactSlice;
    var found, erased := Fetch.ScanBlock(block, progSize);
    r, buffer := Lookup.GetSlice(block, found.off, found.etag, mask, true, gtag, 0, gsize, None, kept);
  }

  /** Fetching a pair that reads as the log `kept`, and a lookup in it. */
  method FetchPairAndGet(b0: seq<byte>, b1: seq<byte>, progSize: nat, mask: nat, gtag: TagWord, gsize: nat,
                         ghost second: bool, ghost kept: Log) returns (r: Lookup.GetResult, buffer: seq<byte>)
    requires PairFinds(b0, b1, progSize, second, kept) && Fetch.Stores(if second then b1 else b0, kept)
    requires Lookup.LookupMask(mask) && IsValid(gtag) && Type3(gtag) < 0x400 && Lookup.IdsFit(kept, mask, Type3(gtag), Id(gtag))
    ensures Returns(r, buffer, gtag, gsize, Held(At(Replay([], kept), Id(gtag)), mask, Type3(gtag)))
  {
    hide Replay, Held, Lookup.IdsFit, LogSize, LastKey, Type3, Id, Size, Lookup.ExactSlice, Fetch.PairScan;
    var pair := Fetch.FetchPair(b0, b1, progSize);
    r, buffer := Lookup.GetSlice(if pair.second then b1 else b0, pair.found.off, pair.found.etag, mask, true, gtag, 0, gsize,
                                 None, kept);
  }

  // ---------------------------------------------------------------- the ids of what is found

  /** A lookup can walk back over the log: its ids fit all the way, as they do for every existing entry of a log that
      names existing entries and keeps its directories small. */
  ghost predicate Walkable(log: Log, mask: nat, kind: nat, id: nat)
    requires mask > 0
  {
    Lookup.IdsFit(log, mask, kind, id) || (Named(log) && SmallDirs([], log) && id < |Replay([], log)|)
  }

  lemma WalkableFits(log: Log, mask: nat, kind: nat, id: nat)
    requires mask > 0 && Walkable(log, mask, kind, id)
    ensures Lookup.IdsFit(log, mask, kind, id)
  {
    hide Lookup.IdsFit, Named, SmallDirs, Replay;
    if !Lookup.IdsFit(log, mask, kind, id) { Lookup.IdsFitInSmallDirs(log, mask, kind, id); }
  }

  /** Tags that belong to no entry leave ids alone. */
  ghost predicate NoEntryTags(x: Log) {
    forall i :: 0 <= i < |x| ==> !x[i].IsAttr() && x[i].kind != TYPE_CREATE && x[i].kind != TYPE_DELETE
  }

  lemma {:induction false} FitsBeside(a: Log, x: Log, mask: nat, kind: nat, id: nat)
    requires mask > 0 && NoEntryTags(x) && Lookup.IdsFit(a, mask, kind, id)
    ensures Lookup.IdsFit(a + x, mask, kind, id)
    decreases |x|
  {
    if x == [] {
      Neutral(a);
    } else {
      AppendFront(a, x);
      FitsBeside(a, Front(x), mask, kind, id);
      assert id < 0x400;
    }
  }

  lemma BesideAndFooters(extra: Log, footers: Log)
    requires Aside(extra) && AllFooters(footers)
    ensures NoEntryTags(extra + footers)
  {
  }

  /** What a cut commit leaves can be walked like the directory it means. */
  lemma KeptFits(log: Log, meant: Log, extra: Log, footers: Log, p: nat, mask: nat, kind: nat, id: nat)
    requires mask > 0 && Aside(extra) && AllFooters(footers) && footers != []
    requires Walkable(if p < HEADER_SIZE + LogSize(log + (meant + extra)) + 8 then log else log + meant, mask, kind, id)
    ensures Lookup.IdsFit(Kept(log, meant + extra, footers, p), mask, kind, id)
  {
    hide LogSize, Kept, Walkable, Lookup.IdsFit, AllFooters, Aside, NoEntryTags;
    var tags, m := meant + extra, |Kept(log, meant + extra, footers, p)|;
    KeptLength(log, tags, footers, p);
    if p < HEADER_SIZE + LogSize(log + tags) + 8 {
      WalkableFits(log, mask, kind, id);
      assert (log + tags + footers)[..|log|] == log;
    } else {
      WalkableFits(log + meant, mask, kind, id);
      BesideAndFooters(extra, footers);
      var x := (extra + footers)[..m - |log + meant|];
      assert (log + tags + footers)[..m] == (log + meant) + x;
      SomeBeside(extra + footers, |x|);
      FitsBeside(log + meant, x, mask, kind, id);
    }
  }

  lemma SomeBeside(x: Log, n: nat)
    requires NoEntryTags(x) && n <= |x|
    ensures NoEntryTags(x[..n])
  {
  }

  /** What a cut compaction leaves has no splices, so that every id walks back as itself. */
  lemma CompactedFits(log: Log, items: seq<Item>, move: Log, begin: nat, end: nat, extra: Log, footers: Log, p: nat,
                      mask: nat, kind: nat, id: nat)
    requires mask > 0 && id < 0x400 && Compactable(log, items, move, extra) && AllFooters(footers) && footers != []
    requires HEADER_SIZE + LogSize(Output(log, items, move, begin, end, extra)) + 8 <= p
    ensures Lookup.IdsFit(Kept([], Output(log, items, move, begin, end, extra), footers, p), mask, kind, id)
  {
    hide LogSize, Kept, EmitLog, EmitItems, ExpandAll, Lookup.IdsFit;
    var diff: int := 0 - begin;
    EmitLogIds(log, ExpandAll(items) + move, begin, end, diff);
    EmitItemsIds(items, move, begin, end, diff);
    var written: Log := Compacted(log, items, move, begin, end);
    Lookup.IdsFitWithoutSplices(written, mask, kind, id);
    assert [] + (written + extra) == written + extra && [] + written == written;
    KeptFits([], written, extra, footers, p, mask, kind, id);
  }

  /** After an in-place commit that was cut off at any byte p: a fetch and a lookup return what replaying the log before
      the commit holds, as long as its first checksum is not complete, and from then on what replaying that log with
      every pending attribute applied holds. */
  method ReadAfterCommit(was: seq<byte>, now: seq<byte>, progSize: nat, p: nat, mask: nat, gtag: TagWord, gsize: nat,
                         ghost log: Log, ghost items: seq<Item>, ghost move: Log, ghost extra: Log, ghost footers: Log,
                         ghost before: bool)
    returns (r: Lookup.GetResult, buffer: seq<byte>)
    requires Lookup.LookupMask(mask) && IsValid(gtag) && Type3(gtag) < 0x400
    requires ValidItems(items) && MoveLog(move) && Aside(extra) && |was| == |now| && HEADER_SIZE + LogSize(log) <= p <= |was|
    requires var tags := (ExpandAll(items) + move) + extra;
             && Committed(was, now, log, tags, footers, progSize)
             && NoFalseCommit(Torn(was, now, p), Kept(log, tags, footers, p))
             && before == (p < HEADER_SIZE + LogSize(log + tags) + 8)
    requires Walkable(if before then log else Intended(log, items, move), mask, Type3(gtag), Id(gtag))
    ensures Returns(r, buffer, gtag, gsize, Held(At(Replay([], if before then log else Intended(log, items, move)), Id(gtag)),
                                                 mask, Type3(gtag)))
  {
    hide Replay, Held, Lookup.IdsFit, LogSize, Kept, Torn, Finds, NoFalseCommit, ExpandAll, Fetch.Stores, Returns,
      Type3, Id, Aside, MoveLog, Walkable, AlignUp, StopsAt, PaddingKept, AllFooters;
    InPlaceMeaning(was, now, log, items, move, extra, footers, progSize, p);
    KeptFits(log, ExpandAll(items) + move, extra, footers, p, mask, Type3(gtag), Id(gtag));
    r, buffer := FetchAndGet(Torn(was, now, p), progSize, mask, gtag, gsize,
                             Kept(log, (ExpandAll(items) + move) + extra, footers, p));
  }

  /** After a compaction that was cut off at any byte p: entry j - begin of the pair holds what entry j of the log with
      every pending attribute applied holds, or entry j still what it held before. */
  method ReadAfterCompaction(prior: seq<byte>, erased: seq<byte>, now: seq<byte>, progSize: nat, p: nat, second: bool,
                             mask: nat, kind: nat, j: nat, gsize: nat, ghost log: Log, ghost items: seq<Item>,
                             ghost move: Log, begin: nat, ghost end: nat, ghost extra: Log, ghost rev: nat, ghost footers: Log,
                             written: bool)
    returns (r: Lookup.GetResult, buffer: seq<byte>)
    requires Compactable(log, items, move, extra) && SealedLog(prior, log)
    requires begin <= j < end <= 0x400 && Key(EntryTags, mask, kind) && !Loses(items, move, mask, kind, j)
    requires CutRewrite(prior, erased, now, rev, Output(log, items, move, begin, end, extra), footers, progSize, p)
    requires written == (HEADER_SIZE + LogSize(Output(log, items, move, begin, end, extra)) + 8 <= p)
    requires !written ==> Walkable(log, mask, kind, j)
    ensures Returns(r, buffer, MkTag(kind, if written then j - begin else j, 0), gsize,
                    Held(At(Replay([], if written then Intended(log, items, move) else log), j), mask, kind))
  {
    hide Fetch.Stores, LogSize, LastKey, Replay, Kept, Torn, NoFalseCommit, StopsAt, Output, Intended, Loses, PairFinds,
      FromLe32, Held, IsCrc, Rewritten, SameDirectory, PlainLog, Aside, Type3, Id, Size, MkTag, Returns, Lookup.IdsFit, Walkable;
    CompactedMeaning(prior, log, items, move, begin, end, extra, erased, now, rev, footers, progSize, p, second, mask, kind, j);
    var torn := Torn(erased, now, p);
    var id := if written then j - begin else j;
    RequestTag(kind, id);
    if written {
      RewrittenFooters(erased, now, rev, Output(log, items, move, begin, end, extra), footers, progSize);
      CompactedFits(log, items, move, begin, end, extra, footers, p, mask, kind, id);
    } else {
      WalkableFits(log, mask, kind, j);
    }
    r, buffer := FetchPairAndGet(if second then prior else torn, if second then torn else prior, progSize, mask,
                                 MkTag(kind, id, 0), gsize, second == written,
                                 if written then Kept([], Output(log, items, move, begin, end, extra), footers, p) else log);
  }

  lemma RewrittenFooters(erased: seq<byte>, now: seq<byte>, rev: nat, tags: Log, footers: Log, progSize: nat)
    requires Rewritten(erased, now, rev, tags, footers, progSize)
    ensures AllFooters(footers) && footers != []
  {
  }

  /** The tag a lookup asks with. */
  lemma RequestTag(kind: nat, id: nat)
    requires kind < 0x400 && id < 0x400
    ensures var w := MkTag(kind, id, 0); IsValid(w) && Type3(w) == kind && Id(w) == id
  {
    var w := MkTag(kind, id, 0);
    ModUnique(w, TOP_BIT, 0, w);
    FieldsOfMkTag(kind, id, 0, w);
  }

  // ---------------------------------------------------------------- lfs_dir_commit as a whole

  /** One call: what the directory was and is asked to become, what was tried on the block that holds it, with the tags
      beside the entries and the CRC tags there, and what was written to the other block if that did not fit. */
  datatype Transaction = Transaction(
    log: Log, items: seq<Item>, move: Log, end: nat, progSize: nat,
    was: seq<byte>, tried: seq<byte>, inPlace: bool, extra: Log, footers: Log,
    erased: seq<byte>, now: seq<byte>, output: Log, closing: Log)

  ghost predicate Carried(c: Transaction) {
    && PlainLog(c.log) && ValidItems(c.items) && MoveLog(c.move) && PlainLog(c.move) && Aside(c.extra) && Aside(c.output)
    && Fetch.Stores(c.was, c.log) && c.log != [] && IsCrc(Last(c.log)) && |c.was| >= 4 && c.progSize > 0
    && Tried(c.was, c.tried, c.log)
    && if c.inPlace then Committed(c.was, c.tried, c.log, Asked(c) + c.extra, c.footers, c.progSize)
       else Rewritten(c.erased, c.now, NextRevision(c.was), Written(c), c.closing, c.progSize)
  }

  ghost function Asked(c: Transaction): Log
    requires ValidItems(c.items)
  {
    ExpandAll(c.items) + c.move
  }

  ghost function Written(c: Transaction): Log
    requires Compactable(c.log, c.items, c.move, c.output)
  {
    Output(c.log, c.items, c.move, 0, c.end, c.output)
  }

  function NextRevision(block: seq<byte>): nat
    requires |block| >= 4
  {
    (FromLe32(block[0..4]) + 1) % WORD_LIMIT
  }

  /** lfs_dir_commit: an attempt in place if the rest of the block invites one, and the other block if it does not fit;
      of a failed attempt the bytes below `flushed` are on the block by then. */
  method DirCommit(was: seq<byte>, dirOff: nat, etag: TagWord, invites: bool, ps: seq<Traverse.Pending>, move: Log, end: nat,
                   extra: Log, output: Log, other: seq<byte>, erased: seq<byte>, flushed: nat, progSize: nat, ghost log: Log)
    returns (s: Status, a: seq<byte>, b: seq<byte>, ghost c: Transaction)
    requires Fetch.Stores(was, log) && log != [] && IsCrc(Last(log)) && |was| >= 8 && flushed <= |was| && end <= 0x400
    requires dirOff == HEADER_SIZE + LogSize(log) && etag == LastKey(BLOCK_NULL, log)
    requires progSize > 0 && |was| % progSize == 0 && (invites ==> dirOff % progSize == 0)
    requires Traverse.AllValid(ps) && MoveLog(move) && Ordinary(Traverse.ItemsOf(ps)) && Aside(extra) && Aside(output)
    requires Traverse.PendingTags(ps, move) + extra == [] ==> dirOff + 8 <= |was|
    requires SmallDirs([], log + Traverse.PendingTags(ps, move)) && Traverse.NamesEntries(Replay([], log), Traverse.ItemsOf(ps))
    requires |erased| >= 12 && |erased| % progSize == 0
    ensures PlainLog(log) && PlainLog(move)
    ensures c.log == log && c.items == Traverse.ItemsOf(ps) && c.move == move && c.was == was && c.end == end
    ensures c.extra == extra && c.output == output && c.progSize == progSize
    ensures s == Ok ==> Carried(c)
    ensures s == if !(invites && dirOff + LogSize(Traverse.PendingTags(ps, move) + extra) + 8 <= |was|)
                    && HEADER_SIZE + LogSize(Compacted(log, Traverse.ItemsOf(ps), move, 0, end) + output) + 8 > |erased|
                 then NoSpace else Ok
    ensures |a| == |was| && a[..dirOff] == was[..dirOff]
    ensures |c.tried| == |was| && a == (if c.inPlace then c.tried else Torn(was, c.tried, flushed))
    ensures b == if c.inPlace then other else c.now
    ensures c.inPlace <==> invites && dirOff + LogSize(Traverse.PendingTags(ps, move) + extra) + 8 <= |was|
  {
    hide Committed, Rewritten, Tried, Fetch.Stores, LogSize, LastKey, Traverse.AllValid, Traverse.NamesEntries, SmallDirs,
      ExpandAll, Aside, Ordinary, IsCrc, Replay, Torn, FromLe32, Compacted, Carried, PlainLog, MoveLog;
    ghost var items := Traverse.ItemsOf(ps);
    StoresParts(was, log);
    var tried := was;
    ghost var footers: Log := [];
    NothingTried(was, log);
    LogIsPlain(was, log, move);
    if invites {
      s, tried, footers := CommitPending(was, dirOff, etag, ps, move, extra, progSize, log);
      if s == Ok {
        a, b := tried, other;
        c := Transaction(log, items, move, end, progSize, was, tried, true, extra, footers, [], [], output, []);
        InPlaceCarried(c);
        TriedPrefix(was, tried, log);
        return;
      }
    }
    // no room, or no invitation: the other block
    TriedHolds(was, tried, log, flushed);
    a := Torn(was, tried, flushed);
    ghost var closing;
    s, b, closing := CompactPending(Traverse.Mdir(a, dirOff), ps, move, 0, end, output, erased, NextRevision(was), progSize,
                                    log);
    c := Transaction(log, items, move, end, progSize, was, tried, false, extra, footers, erased, b, output, closing);
    if s == Ok { RewriteCarried(c); }
  }

  lemma InPlaceCarried(c: Transaction)
    requires PlainLog(c.log) && ValidItems(c.items) && MoveLog(c.move) && PlainLog(c.move) && Aside(c.extra) && Aside(c.output)
    requires Fetch.Stores(c.was, c.log) && c.log != [] && IsCrc(Last(c.log)) && |c.was| >= 4 && c.progSize > 0 && c.inPlace
    requires Tried(c.was, c.tried, c.log)
    requires Committed(c.was, c.tried, c.log, (ExpandAll(c.items) + c.move) + c.extra, c.footers, c.progSize)
    ensures Carried(c) && |c.tried| == |c.was|
  {
    hide Committed, Fetch.Stores, LogSize, IsCrc, ExpandAll, Aside, PlainLog, MoveLog;
  }

  lemma RewriteCarried(c: Transaction)
    requires PlainLog(c.log) && ValidItems(c.items) && MoveLog(c.move) && PlainLog(c.move) && Aside(c.extra) && Aside(c.output)
    requires Fetch.Stores(c.was, c.log) && c.log != [] && IsCrc(Last(c.log)) && |c.was| >= 4 && c.progSize > 0 && !c.inPlace
    requires Tried(c.was, c.tried, c.log)
    requires Rewritten(c.erased, c.now, NextRevision(c.was), Compacted(c.log, c.items, c.move, 0, c.end) + c.output, c.closing,
                       c.progSize)
    ensures Carried(c)
  {
    hide Rewritten, Tried, Fetch.Stores, LogSize, IsCrc, Compacted, Aside, MoveLog, NextRevision;
  }

  lemma TriedPrefix(was: seq<byte>, tried: seq<byte>, log: Log)
    requires Tried(was, tried, log)
    ensures |tried| == |was| && HEADER_SIZE + LogSize(log) <= |was|
    ensures tried[..HEADER_SIZE + LogSize(log)] == was[..HEADER_SIZE + LogSize(log)]
  {
  }

  lemma NothingTried(was: seq<byte>, log: Log)
    requires Fetch.Stores(was, log)
    ensures Tried(was, was, log)
  {
    LogInside(was, log);
  }

  lemma LogIsPlain(was: seq<byte>, log: Log, move: Log)
    requires Fetch.Stores(was, log) && MoveLog(move)
    ensures PlainLog(log) && PlainLog(move)
  {
    LogInside(was, log);
  }

  lemma TriedHolds(was: seq<byte>, tried: seq<byte>, log: Log, q: nat)
    requires Fetch.Stores(was, log) && Tried(was, tried, log) && q <= |was|
    ensures |was| == |tried| && Holds(Torn(was, tried, q), log, HEADER_SIZE + LogSize(log))
    ensures Torn(was, tried, q)[..HEADER_SIZE + LogSize(log)] == was[..HEADER_SIZE + LogSize(log)]
  {
    hide Fetch.Stores, LogSize, Torn;
    LogInside(was, log);
    TornBefore(was, tried, q, HEADER_SIZE + LogSize(log));
    StoresSame(was, Torn(was, tried, q), log);
    StoresParts(Torn(was, tried, q), log);
  }

  /** Where power is lost: with p bytes of the attempt programmed, the other block being `other`; while the other block is
      erased and looks like `left`; or with p bytes of the other block rewritten. What a failed attempt had programmed by
      then are the bytes below q. */
  datatype Cut = Trying(p: nat, other: seq<byte>) | Erasing(q: nat, left: seq<byte>) | Rewriting(q: nat, p: nat)

  /** The block that held the directory, and the other one. */
  ghost function Held0(c: Transaction, cut: Cut): seq<byte>
    requires |c.was| == |c.tried| && (if cut.Trying? then cut.p else cut.q) <= |c.was|
  {
    Torn(c.was, c.tried, if cut.Trying? then cut.p else cut.q)
  }

  ghost function Other(c: Transaction, cut: Cut): seq<byte>
    requires cut.Rewriting? ==> |c.erased| == |c.now| && cut.p <= |c.now|
  {
    match cut
    case Trying(_, other) => other
    case Erasing(_, left) => left
    case Rewriting(_, p) => Torn(c.erased, c.now, p)
  }

  /** The other block is a generation behind, or holds no commit. */
  ghost predicate Behind(block: seq<byte>, other: seq<byte>) {
    |block| >= 4 && |other| >= 4
    && (FromLe32(block[0..4]) == (FromLe32(other[0..4]) + 1) % WORD_LIMIT || NoFalseCommit(other, []))
  }

  /** The cut lies in this transaction, and nothing incomplete passes for a commit. */
  ghost predicate CutOf(c: Transaction, cut: Cut)
    requires Carried(c)
  {
    match cut
    case Trying(p, other) =>
      && HEADER_SIZE + LogSize(c.log) <= p <= |c.was| && Behind(c.was, other)
      && NoFalseCommit(Torn(c.was, c.tried, p), if c.inPlace then Kept(c.log, Asked(c) + c.extra, c.footers, p) else c.log)
    case Erasing(q, left) =>
      !c.inPlace && q <= |c.was| && Behind(c.was, left) && NoFalseCommit(Torn(c.was, c.tried, q), c.log)
    case Rewriting(q, p) =>
      && !c.inPlace && q <= |c.was| && p <= |c.now| && NoFalseCommit(Torn(c.was, c.tried, q), c.log)
      && NoFalseCommit(Torn(c.erased, c.now, p), Kept([], Written(c), c.closing, p))
  }

  /** The first checksum of the commit is complete. */
  ghost predicate Done(c: Transaction, cut: Cut)
    requires Carried(c)
  {
    match cut
    case Trying(p, _) => c.inPlace && HEADER_SIZE + LogSize(c.log + (Asked(c) + c.extra)) + 8 <= p
    case Erasing(_, _) => false
    case Rewriting(_, p) => HEADER_SIZE + LogSize(Written(c)) + 8 <= p
  }

  /** The log that is found. */
  ghost function Found(c: Transaction, cut: Cut): Log
    requires Carried(c)
  {
    match cut
    case Trying(p, _) => if c.inPlace then Kept(c.log, Asked(c) + c.extra, c.footers, p) else c.log
    case Erasing(_, _) => c.log
    case Rewriting(_, p) => if Done(c, cut) then Kept([], Written(c), c.closing, p) else c.log
  }

  /** lfs_dir_commit, power lost anywhere: the pair reads as one log, in which every entry and type that is not lost holds
      what it held before the call, as long as the first checksum is not complete, and what the call asks for from then
      on. `second` says that the directory was in the first of the two blocks. */
  lemma DirCommitIsAtomic(c: Transaction, cut: Cut, second: bool, mask: nat, kind: nat, j: nat)
    requires Carried(c) && CutOf(c, cut)
    requires j < c.end && Key(EntryTags, mask, kind) && !Loses(c.items, c.move, mask, kind, j)
    ensures var a, b := Held0(c, cut), Other(c, cut);
            var rewritten := cut.Rewriting? && Done(c, cut);
            && PairFinds(if second then a else b, if second then b else a, c.progSize, second == rewritten, Found(c, cut))
            && Fetch.Stores(if rewritten then b else a, Found(c, cut))
    ensures Held(At(Replay([], Found(c, cut)), j), mask, kind)
            == Held(At(Replay([], if Done(c, cut) then Intended(c.log, c.items, c.move) else c.log), j), mask, kind)
  {
    hide Committed, Rewritten, Tried, Fetch.Stores, LogSize, IsCrc, Replay, Torn, Kept, FromLe32, Written, Asked, Loses, Key,
      Intended, Held, NoFalseCommit, PairFinds, Aside, PlainLog, MoveLog;
    match cut
    case Trying(p, other) =>
      if c.inPlace { CutInPlace(c, p, other, second); } else { CutBeforeRewrite(c, p, other, second); }
    case Erasing(q, left) => CutBeforeRewrite(c, q, left, second);
    case Rewriting(q, p) => CutRewriting(c, q, p, second, mask, kind, j);
  }

  /** A failed attempt, or none, and the other block not yet rewritten. */
  lemma CutBeforeRewrite(c: Transaction, q: nat, other: seq<byte>, second: bool)
    requires Carried(c) && q <= |c.was| && Behind(c.was, other) && NoFalseCommit(Torn(c.was, c.tried, q), c.log)
    ensures var a := Torn(c.was, c.tried, q);
            && PairFinds(if second then a else other, if second then other else a, c.progSize, !second, c.log)
            && Fetch.Stores(a, c.log)
  {
    hide Committed, Rewritten, Tried, Fetch.Stores, LogSize, IsCrc, Torn, FromLe32, NoFalseCommit, PairFinds, Asked, Written;
    TriedIsSealed(c.was, c.tried, c.log, q);
    var a := Torn(c.was, c.tried, q);
    assert a[0..4] == a[..4] && c.was[0..4] == c.was[..4];
    EraseIsSafe(a, c.log, other, c.progSize, second);
  }

  /** An attempt that fits. */
  lemma CutInPlace(c: Transaction, p: nat, other: seq<byte>, second: bool)
    requires Carried(c) && c.inPlace && CutOf(c, Trying(p, other))
    ensures var a, kept := Torn(c.was, c.tried, p), Kept(c.log, Asked(c) + c.extra, c.footers, p);
            && PairFinds(if second then a else other, if second then other else a, c.progSize, !second, kept)
            && Fetch.Stores(a, kept)
            && Replay([], kept) ==
               Replay([], if Done(c, Trying(p, other)) then Intended(c.log, c.items, c.move) else c.log)
  {
    hide Committed, Fetch.Stores, LogSize, IsCrc, Torn, Kept, FromLe32, NoFalseCommit, PairFinds, Finds, ExpandAll, Replay;
    InPlaceMeaning(c.was, c.tried, c.log, c.items, c.move, c.extra, c.footers, c.progSize, p);
    var a := Torn(c.was, c.tried, p);
    TornBefore(c.was, c.tried, p, 4) by { SamePrefixSlice(c.was, c.tried, HEADER_SIZE + LogSize(c.log), 0, 4); }
    assert a[0..4] == a[..4] && c.was[0..4] == c.was[..4];
    PairReads(a, Kept(c.log, Asked(c) + c.extra, c.footers, p), other, c.progSize, second);
  }

  /** The other block being rewritten. */
  lemma CutRewriting(c: Transaction, q: nat, p: nat, second: bool, mask: nat, kind: nat, j: nat)
    requires Carried(c) && CutOf(c, Rewriting(q, p))
    requires j < c.end && Key(EntryTags, mask, kind) && !Loses(c.items, c.move, mask, kind, j)
    ensures var cut := Rewriting(q, p);
            var a, b := Held0(c, cut), Other(c, cut);
            && PairFinds(if second then a else b, if second then b else a, c.progSize, second == Done(c, cut), Found(c, cut))
            && Fetch.Stores(if Done(c, cut) then b else a, Found(c, cut))
            && Held(At(Replay([], Found(c, cut)), j), mask, kind)
               == Held(At(Replay([], if Done(c, cut) then Intended(c.log, c.items, c.move) else c.log), j), mask, kind)
  {
    hide Committed, Tried, Fetch.Stores, LogSize, IsCrc, Torn, Kept, FromLe32, NoFalseCommit, PairFinds, Replay, Loses, Key,
      Intended, Held, Output;
    TriedIsSealed(c.was, c.tried, c.log, q);
    var a := Torn(c.was, c.tried, q);
    assert a[0..4] == a[..4] && c.was[0..4] == c.was[..4];
    CompactedMeaning(a, c.log, c.items, c.move, 0, c.end, c.output, c.erased, c.now, NextRevision(c.was), c.closing,
                     c.progSize, p, second, mask, kind, j);
  }

  /** ... and a fetch and a lookup on the two blocks return it. */
  method ReadAfterDirCommit(a: seq<byte>, b: seq<byte>, second: bool, progSize: nat, mask: nat, kind: nat, j: nat, gsize: nat,
                            ghost c: Transaction, ghost cut: Cut) returns (r: Lookup.GetResult, buffer: seq<byte>)
    requires Carried(c) && CutOf(c, cut) && a == Held0(c, cut) && b == Other(c, cut) && progSize == c.progSize
    requires j < c.end <= 0x400 && Key(EntryTags, mask, kind) && !Loses(c.items, c.move, mask, kind, j)
    requires cut.Trying? || !Done(c, cut) ==>
               Walkable(if Done(c, cut) then Intended(c.log, c.items, c.move) else c.log, mask, kind, j)
    ensures Returns(r, buffer, MkTag(kind, j, 0), gsize,
                    Held(At(Replay([], if Done(c, cut) then Intended(c.log, c.items, c.move) else c.log), j), mask, kind))
  {
    hide Carried, CutOf, Held0, Other, Found, Done, Held, Replay, Walkable, Lookup.IdsFit, PairFinds, Fetch.Stores, Returns,
      MkTag, Type3, Id, Loses, Intended;
    DirCommitIsAtomic(c, cut, second, mask, kind, j);
    FoundFits(c, cut, mask, kind, j);
    RequestTag(kind, j);
    r, buffer := FetchPairAndGet(if second then a else b, if second then b else a, progSize, mask, MkTag(kind, j, 0), gsize,
                                 second == (cut.Rewriting? && Done(c, cut)), Found(c, cut));
  }

  lemma FoundFits(c: Transaction, cut: Cut, mask: nat, kind: nat, j: nat)
    requires mask > 0 && Carried(c) && CutOf(c, cut) && j < 0x400
    requires cut.Trying? || !Done(c, cut) ==>
               Walkable(if Done(c, cut) then Intended(c.log, c.items, c.move) else c.log, mask, kind, j)
    ensures Lookup.IdsFit(Found(c, cut), mask, kind, j)
  {
    hide Tried, Fetch.Stores, LogSize, IsCrc, Kept, Walkable, Lookup.IdsFit, Output, AllFooters, Aside, NoFalseCommit, Torn,
      FromLe32;
    if cut.Trying? && c.inPlace {
      KeptFits(c.log, Asked(c), c.extra, c.footers, cut.p, mask, kind, j);
    } else if Done(c, cut) {
      CompactedFits(c.log, c.items, c.move, 0, c.end, c.output, c.closing, cut.p, mask, kind, j);
    } else {
      WalkableFits(c.log, mask, kind, j);
    }
  }
}
