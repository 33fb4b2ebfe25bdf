/** The number of entries that a fetch counts is the number of entries the directory has. */
module EntryCount {
  import opened Wrappers
  import opened Tags
  import opened Sequences
  import opened MetadataLog
  import opened Compaction
  import opened Fetch

  predicate IsName(t: Tag) { KindType1(t.kind) == TYPE_NAME }

  /** Every tag names an entry that exists, except that a name may open new ones, as in what a compaction writes: an
      entry's name comes before its other attributes. */
  ghost predicate NamesFirst(log: Log) {
    log == []
    || (NamesFirst(Front(log)) && (Names(Replay([], Front(log)), Last(log)) || IsName(Last(log))))
  }

  /** One tag counts as it changes the directory. */
  lemma CountStep(d: Dir, t: Tag)
    requires t.Valid() && t.PlainSplice() && (Names(d, t) || IsName(t))
    ensures CountAfter(|d|, t.kind, t.id) == |Apply(d, t)|
  {
    if t.kind == TYPE_CREATE {
      PadSize(d, t.id);
    } else if t.IsAttr() {
      PadSize(d, t.id + 1);
    }
  }

  lemma {:induction false} PadSize(d: Dir, n: nat)
    ensures |Pad(d, n)| == if |d| < n then n else |d|
    decreases n - |d|
  {
    if |d| < n { PadSize(d + [[]], n); }
  }

  /** lfs_dir_fetchmatch counts the entries that replaying the log leaves. */
  lemma {:induction false} CountsEntries(log: Log)
    requires ValidLog(log) && NamesFirst(log)
    ensures CountOf(log) == |Replay([], log)|
  {
    if log != [] {
      hide Apply, CountAfter, Names;
      assert Last(log).Valid() && Last(log).PlainSplice();
      CountsEntries(Front(log));
      CountStep(Replay([], Front(log)), Last(log));
    }
  }

  // ---------------------------------------------------------------- what a compaction writes

  /** Attributes of entries below n, among them a name of the last one: they count n. */
  lemma {:induction false} CountOfAttrs(x: Log, n: nat, i: int)
    requires forall k :: 0 <= k < |x| ==> x[k].IsAttr() && x[k].id < n
    requires i < |x| && (i >= 0 ==> IsName(x[i]) && x[i].id == n - 1)
    ensures 0 <= CountOf(x) <= n && (i >= 0 ==> CountOf(x) == n)
  {
    if x != [] {
      var front := Front(x);
      assert forall k :: 0 <= k < |front| ==> front[k] == x[k];
      CountOfAttrs(front, n, if i < |front| then i else -1);
    }
  }

  /** An attribute that is found is one of the tags. */
  lemma {:induction false} FoundIsThere(x: Log, mask: nat, kind: nat, id: nat) returns (i: nat)
    requires mask > 0 && NoSplices(x) && BackScan(x, mask, kind, id).Hit?
    ensures i < |x| && x[i].id == id && SameKind(mask, x[i].kind, kind)
  {
    var t, front := Last(x), Front(x);
    var b := BackStep(t, mask, kind, id);
    if b.Hit? {
      i := |x| - 1;
    } else {
      assert forall k :: 0 <= k < |front| ==> front[k] == x[k];
      i := FoundIsThere(front, mask, kind, id);
    }
  }

  lemma {:induction false} CountBeside(a: Log, x: Log)
    requires forall k :: 0 <= k < |x| ==> !x[k].IsAttr() && KindType1(x[k].kind) != TYPE_SPLICE
    ensures CountOf(a + x) == CountOf(a)
    decreases |x|
  {
    if x == [] {
      Neutral(a);
    } else {
      AppendFront(a, x);
      CountBeside(a, Front(x));
    }
  }

  /** After a compaction of [begin, end) the count is end - begin, whatever goes beside the entries, if the last of them
      has a name after the commit. */
  lemma {:induction false} CompactionCounts(log: Log, items: seq<Item>, move: Log, begin: nat, end: nat, beside: Log)
    requires ValidLog(log) && ValidItems(items) && MoveLog(move) && PlainLog(move) && begin < end
    requires Held(At(Replay([], Intended(log, items, move)), end - 1), 0x100, TYPE_NAME).Some?
    requires forall k :: 0 <= k < |beside| ==> !beside[k].IsAttr() && KindType1(beside[k].kind) != TYPE_SPLICE
    ensures CountOf(Compacted(log, items, move, begin, end) + beside) == end - begin
  {
    hide EmitLog, EmitItems, ExpandAll, Replay, BackScan, Loses, CountOf;
    var x: Log := Compacted(log, items, move, begin, end);
    var diff: int := 0 - begin;
    assert Key(EntryTags, 0x100, TYPE_NAME);
    CompactionPreservesMeaning(log, items, move, begin, end, 0x100, TYPE_NAME, end - 1);
    EmitLogIds(log, ExpandAll(items) + move, begin, end, diff);
    EmitItemsIds(items, move, begin, end, diff);
    BackScanIsReplay([], x, 0x100, TYPE_NAME, end - 1 - begin);
    var i := FoundIsThere(x, 0x100, TYPE_NAME, end - 1 - begin);
    CountOfAttrs(x, end - begin, i);
    CountBeside(x, beside);
  }
}
