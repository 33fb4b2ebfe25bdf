/** The layout of a memheap pool: block addresses in order, which of them are in use, and what that adds up to. */
module HeapShape {
  import opened Sequences
  import opened Rings

  /** RT_MEMHEAP_SIZE: a block header on a 32-bit machine. */
  const HEADER := 24

  type Flags = map<nat, bool>

  /** The bytes between a block's header and the next block. */
  function Gap(a: nat, b: nat): int { b - a - HEADER }

  /** What the stretch from block a to block b adds to the free bytes. */
  function Weight(used: Flags, a: nat, b: nat): int {
    if a in used && used[a] then 0 else Gap(a, b)
  }

  /** The payload bytes of all free blocks; the last address only ends the list. */
  function FreeSum(blocks: seq<nat>, used: Flags): int {
    if |blocks| < 2 then 0
    else FreeSum(Front(blocks), used) + Weight(used, blocks[|blocks| - 2], Last(blocks))
  }

  lemma {:induction false} SumInsert(blocks: seq<nat>, used: Flags, i: nat, x: nat)
    requires i + 1 < |blocks|
    ensures FreeSum(InsertAt(blocks, i + 1, x), used)
            == FreeSum(blocks, used) - Weight(used, blocks[i], blocks[i + 1])
               + Weight(used, blocks[i], x) + Weight(used, x, blocks[i + 1])
    decreases |blocks|
  {
    hide Weight;
    var r := InsertAt(blocks, i + 1, x);
    if i + 2 == |blocks| {
      assert Front(r) == Front(blocks) + [x];
      assert Front(Front(r)) == Front(blocks);
    } else {
      assert Front(r) == InsertAt(Front(blocks), i + 1, x);
      SumInsert(Front(blocks), used, i, x);
    }
  }

  lemma {:induction false} SumRemove(blocks: seq<nat>, used: Flags, i: nat)
    requires 0 < i && i + 1 < |blocks|
    ensures FreeSum(RemoveAt(blocks, i), used)
            == FreeSum(blocks, used) - Weight(used, blocks[i - 1], blocks[i]) - Weight(used, blocks[i], blocks[i + 1])
               + Weight(used, blocks[i - 1], blocks[i + 1])
    decreases |blocks|
  {
    hide Weight;
    var r := RemoveAt(blocks, i);
    if i + 2 == |blocks| {
      assert Front(r) == Front(Front(blocks));
    } else {
      assert Front(r) == RemoveAt(Front(blocks), i);
      SumRemove(Front(blocks), used, i);
    }
  }

  lemma {:induction false} SumFlag(blocks: seq<nat>, used: Flags, i: nat, u: bool)
    requires i + 1 < |blocks| && Distinct(blocks)
    ensures FreeSum(blocks, used[blocks[i] := u])
            == FreeSum(blocks, used) - Weight(used, blocks[i], blocks[i + 1])
               + Weight(used[blocks[i] := u], blocks[i], blocks[i + 1])
    decreases |blocks|
  {
    var used' := used[blocks[i] := u];
    var n := |blocks|;
    if i + 2 == n {
      SumOther(Front(blocks), used, blocks[i], u);
    } else {
      assert blocks[n - 2] != blocks[i];
      SumFlag(Front(blocks), used, i, u);
    }
  }

  /** A flag of the last block, or of none, does not count. */
  lemma {:induction false} SumOther(blocks: seq<nat>, used: Flags, a: nat, u: bool)
    requires blocks != [] ==> a !in Front(blocks)
    ensures FreeSum(blocks, used[a := u]) == FreeSum(blocks, used)
    decreases |blocks|
  {
    if |blocks| >= 2 {
      assert blocks[|blocks| - 2] in Front(blocks);
      assert forall y :: y in Front(Front(blocks)) ==> y in Front(blocks);
      SumOther(Front(blocks), used, a, u);
    }
  }

  /** The addresses ascend, with room for a header between any two. */
  ghost predicate Ascending(blocks: seq<nat>) {
    forall i, j :: 0 <= i < j < |blocks| ==> blocks[i] + HEADER <= blocks[j]
  }

  /** The payload of the free blocks is inside the pool. */
  lemma {:induction false} SumBounds(blocks: seq<nat>, used: Flags)
    requires Ascending(blocks)
    ensures 0 <= FreeSum(blocks, used)
    ensures |blocks| >= 2 ==> FreeSum(blocks, used) <= Last(blocks) - blocks[0] - HEADER
    decreases |blocks|
  {
    if |blocks| >= 2 { SumBounds(Front(blocks), used); }
  }

  // ---------------------------------------------------------------- well-formed pools

  /** Blocks tile the pool from `start` to the tailer, each with room for its header. */
  ghost predicate Tiles(blocks: seq<nat>, start: nat, tail: nat) {
    |blocks| >= 2 && blocks[0] == start && Last(blocks) == tail && Ascending(blocks)
  }

  /** Every block has a flag, the tailer's says used. */
  ghost predicate Flagged(blocks: seq<nat>, used: Flags) {
    blocks != [] && (forall b :: b in blocks ==> b in used) && used[Last(blocks)]
  }

  /** No two neighbours are both free. */
  ghost predicate Merged(blocks: seq<nat>, used: Flags)
    requires Flagged(blocks, used)
  {
    forall i :: 0 <= i < |blocks| - 1 ==> Guarded(blocks, used, i)
  }

  /** Block i or the next one is in use. */
  ghost predicate Guarded(blocks: seq<nat>, used: Flags, i: nat)
    requires Flagged(blocks, used) && i + 1 < |blocks|
  {
    used[blocks[i]] || used[blocks[i + 1]]
  }

  /** `free` lists exactly the free blocks. */
  ghost predicate Frees(blocks: seq<nat>, used: Flags, free: seq<nat>)
    requires Flagged(blocks, used)
  {
    forall b :: b in free <==> b in blocks && !used[b]
  }

  ghost predicate Shape(blocks: seq<nat>, used: Flags, free: seq<nat>, start: nat, tail: nat) {
    Tiles(blocks, start, tail) && Flagged(blocks, used) && Merged(blocks, used) && Frees(blocks, used, free)
  }

  lemma TilesDistinct(blocks: seq<nat>, start: nat, tail: nat)
    requires Tiles(blocks, start, tail)
    ensures Distinct(blocks)
  {
  }

  // ---------------------------------------------------------------- steps between well-formed pools

  lemma AddTiles(blocks: seq<nat>, start: nat, tail: nat, i: nat, x: nat)
    requires Tiles(blocks, start, tail) && i + 1 < |blocks| && blocks[i] + HEADER <= x && x + HEADER <= blocks[i + 1]
    ensures Tiles(InsertAt(blocks, i + 1, x), start, tail)
  {
    hide InsertAt;
    var r := InsertAt(blocks, i + 1, x);
    InsertAtElements(blocks, i + 1, x);
    forall k, m | 0 <= k < m < |r|
      ensures r[k] + HEADER <= r[m]
    {
      var k', m' := if k <= i + 1 then k else k - 1, if m <= i + 1 then m else m - 1;
      if k == i + 1 {
        assert r[m] == blocks[m - 1] && blocks[i + 1] <= blocks[m - 1];
      } else if m == i + 1 {
        assert r[k] == blocks[k] && blocks[k] <= blocks[i];
      } else {
        assert r[k] == blocks[k'] && r[m] == blocks[m'];
      }
    }
  }

  lemma AddMerged(blocks: seq<nat>, used: Flags, i: nat, x: nat)
    requires Flagged(blocks, used) && Merged(blocks, used) && i + 1 < |blocks| && x !in blocks
    requires used[blocks[i]] && used[blocks[i + 1]]
    ensures Flagged(InsertAt(blocks, i + 1, x), used[x := false]) && Merged(InsertAt(blocks, i + 1, x), used[x := false])
  {
    hide InsertAt;
    var r, u := InsertAt(blocks, i + 1, x), used[x := false];
    InsertAtElements(blocks, i + 1, x);
    assert Last(r) == Last(blocks);
    forall k | 0 <= k < |r| - 1
      ensures Guarded(r, u, k)
    {
      if k < i {
        assert Guarded(blocks, used, k);
        assert r[k] == blocks[k] && r[k + 1] == blocks[k + 1];
      } else if k > i + 1 {
        assert Guarded(blocks, used, k - 1);
        assert r[k] == blocks[k - 1] && r[k + 1] == blocks[k - 1 + 1];
      }
    }
  }

  /** A new free block between two used ones. */
  lemma AddBlock(blocks: seq<nat>, used: Flags, free: seq<nat>, start: nat, tail: nat, i: nat, x: nat, free': seq<nat>)
    requires Shape(blocks, used, free, start, tail) && i + 1 < |blocks| && used[blocks[i]] && used[blocks[i + 1]]
    requires blocks[i] + HEADER <= x && x + HEADER <= blocks[i + 1]
    requires forall b :: b in free' <==> b in free || b == x
    ensures x !in blocks
    ensures Shape(InsertAt(blocks, i + 1, x), used[x := false], free', start, tail)
    ensures FreeSum(InsertAt(blocks, i + 1, x), used[x := false]) == FreeSum(blocks, used) + Gap(x, blocks[i + 1])
  {
    hide InsertAt, FreeSum, Tiles, Merged;
    NotABlock(blocks, start, tail, i, x);
    InsertAtElements(blocks, i + 1, x);
    AddTiles(blocks, start, tail, i, x);
    AddMerged(blocks, used, i, x);
    assert forall b :: b in Front(blocks) ==> b in blocks;
    SumOther(blocks, used, x, false);
    SumInsert(blocks, used[x := false], i, x);
  }

  lemma NotABlock(blocks: seq<nat>, start: nat, tail: nat, i: nat, x: nat)
    requires Tiles(blocks, start, tail) && i + 1 < |blocks| && blocks[i] < x < blocks[i + 1]
    ensures x !in blocks
  {
    forall k | 0 <= k < |blocks|
      ensures blocks[k] != x
    {
    }
  }

  lemma DropTiles(blocks: seq<nat>, start: nat, tail: nat, i: nat)
    requires Tiles(blocks, start, tail) && 0 < i && i + 1 < |blocks|
    ensures Tiles(RemoveAt(blocks, i), start, tail)
  {
    hide RemoveAt;
    var r := RemoveAt(blocks, i);
    RemoveAtElements(blocks, i);
    forall k, m | 0 <= k < m < |r|
      ensures r[k] + HEADER <= r[m]
    {
      var k', m' := if k < i then k else k + 1, if m < i then m else m + 1;
      assert r[k] == blocks[k'] && r[m] == blocks[m'];
    }
  }

  lemma DropMerged(blocks: seq<nat>, used: Flags, i: nat)
    requires Flagged(blocks, used) && Merged(blocks, used) && Distinct(blocks) && 0 < i && i + 1 < |blocks|
    requires used[blocks[i - 1]] || used[blocks[i + 1]]
    ensures Flagged(RemoveAt(blocks, i), used) && Merged(RemoveAt(blocks, i), used)
  {
    hide RemoveAt;
    var r := RemoveAt(blocks, i);
    RemoveAtElements(blocks, i);
    assert Last(r) == Last(blocks);
    forall k | 0 <= k < |r| - 1
      ensures Guarded(r, used, k)
    {
      if k + 1 < i {
        assert Guarded(blocks, used, k);
        assert r[k] == blocks[k] && r[k + 1] == blocks[k + 1];
      } else if k >= i {
        assert Guarded(blocks, used, k + 1);
        assert r[k] == blocks[k + 1] && r[k + 1] == blocks[k + 1 + 1];
      } else {
        assert r[i - 1] == blocks[i - 1] && r[i] == blocks[i + 1];
      }
    }
  }

  /** A block other than the first and the tailer disappears into its predecessor. */
  lemma DropBlock(blocks: seq<nat>, used: Flags, free: seq<nat>, start: nat, tail: nat, i: nat, free': seq<nat>)
    requires Shape(blocks, used, free, start, tail) && 0 < i && i + 1 < |blocks|
    requires used[blocks[i - 1]] || used[blocks[i + 1]]
    requires forall b :: b in free' <==> b in free && b != blocks[i]
    ensures Shape(RemoveAt(blocks, i), used, free', start, tail)
    ensures FreeSum(RemoveAt(blocks, i), used)
            == FreeSum(blocks, used) - Weight(used, blocks[i - 1], blocks[i]) - Weight(used, blocks[i], blocks[i + 1])
               + Weight(used, blocks[i - 1], blocks[i + 1])
  {
    hide RemoveAt, FreeSum, Weight, Tiles, Merged;
    TilesDistinct(blocks, start, tail);
    RemoveAtElements(blocks, i);
    SumRemove(blocks, used, i);
    DropTiles(blocks, start, tail, i);
    DropMerged(blocks, used, i);
  }

  /** A block changes hands. */
  lemma FlagBlock(blocks: seq<nat>, used: Flags, free: seq<nat>, start: nat, tail: nat, i: nat, u: bool, free': seq<nat>)
    requires Shape(blocks, used, free, start, tail) && i + 1 < |blocks|
    requires !u ==> used[blocks[i + 1]] && (i > 0 ==> used[blocks[i - 1]])
    requires forall b :: b in free' <==> if b == blocks[i] then !u else b in free
    ensures Shape(blocks, used[blocks[i] := u], free', start, tail)
    ensures FreeSum(blocks, used[blocks[i] := u])
            == FreeSum(blocks, used) - Weight(used, blocks[i], blocks[i + 1])
               + Weight(used[blocks[i] := u], blocks[i], blocks[i + 1])
  {
    hide FreeSum, Weight;
    var u' := used[blocks[i] := u];
    TilesDistinct(blocks, start, tail);
    SumFlag(blocks, used, i, u);
    LastIsOther(blocks, i);
    forall k | 0 <= k < |blocks| - 1
      ensures Guarded(blocks, u', k)
    {
      assert Guarded(blocks, used, k);
    }
  }

  lemma LastIsOther(blocks: seq<nat>, i: nat)
    requires Distinct(blocks) && i + 1 < |blocks|
    ensures blocks[i] != Last(blocks)
  {
  }

  lemma FlagElsewhereMerged(blocks: seq<nat>, used: Flags, a: nat, u: bool)
    requires Flagged(blocks, used) && Merged(blocks, used) && a !in blocks
    ensures Flagged(blocks, used[a := u]) && Merged(blocks, used[a := u])
  {
    var u' := used[a := u];
    forall k | 0 <= k < |blocks| - 1
      ensures Guarded(blocks, u', k)
    {
      assert Guarded(blocks, used, k);
    }
  }

  /** Flags of addresses that are no blocks do not matter. */
  lemma FlagElsewhere(blocks: seq<nat>, used: Flags, free: seq<nat>, start: nat, tail: nat, a: nat, u: bool)
    requires Shape(blocks, used, free, start, tail) && a !in blocks
    ensures Shape(blocks, used[a := u], free, start, tail)
    ensures FreeSum(blocks, used[a := u]) == FreeSum(blocks, used)
  {
    hide FreeSum, Merged;
    assert forall b :: b in Front(blocks) ==> b in blocks;
    FlagElsewhereMerged(blocks, used, a, u);
    SumOther(blocks, used, a, u);
  }

  lemma ShapeTiles(blocks: seq<nat>, used: Flags, free: seq<nat>, start: nat, tail: nat)
    requires Shape(blocks, used, free, start, tail)
    ensures Tiles(blocks, start, tail)
  {
  }

  lemma ShapeKnown(blocks: seq<nat>, used: Flags, free: seq<nat>, start: nat, tail: nat)
    requires Shape(blocks, used, free, start, tail)
    ensures Tiles(blocks, start, tail) && Distinct(blocks) && |blocks| >= 2 && Last(blocks) == tail
    ensures (forall b :: b in blocks ==> b in used) && tail in blocks && used[tail]
    ensures forall b :: b in free <==> b in blocks && !used[b]
  {
  }

  /** A free list entry is a free block, and not the tailer. */
  lemma FreeBlock(blocks: seq<nat>, used: Flags, free: seq<nat>, start: nat, tail: nat, b: nat)
    requires Shape(blocks, used, free, start, tail) && b in free
    ensures b in blocks && b in used && !used[b] && b != tail
  {
  }

  /** The blocks that are handed out: in use, and not the tailer. */
  ghost predicate InUse(blocks: seq<nat>, used: Flags, tail: nat, b: nat) {
    b in blocks && b in used && used[b] && b != tail
  }

  /** Cutting a free block in two: the front is handed out, the rest is a free block of its own. */
  lemma SplitShape(blocks: seq<nat>, used: Flags, free: seq<nat>, start: nat, tail: nat, i: nat, x: nat, rest: seq<nat>)
    requires Shape(blocks, used, free, start, tail) && i + 1 < |blocks| && blocks[i] in free
    requires blocks[i] + HEADER <= x && x + HEADER <= blocks[i + 1]
    requires forall b :: b in rest <==> b in free && b != blocks[i]
    ensures x !in blocks && x !in rest
    ensures Shape(InsertAt(blocks, i + 1, x), used[blocks[i] := true][x := false], [x] + rest, start, tail)
    ensures FreeSum(InsertAt(blocks, i + 1, x), used[blocks[i] := true][x := false]) == FreeSum(blocks, used) - (x - blocks[i])
    ensures forall b: nat :: InUse(InsertAt(blocks, i + 1, x), used[blocks[i] := true][x := false], tail, b)
                        <==> InUse(blocks, used, tail, b) || b == blocks[i]
    ensures InUse(InsertAt(blocks, i + 1, x), used[blocks[i] := true][x := false], tail, blocks[i])
  {
    hide InsertAt, FreeSum, Merged, Ascending;
    FreeBlock(blocks, used, free, start, tail, blocks[i]);
    NextIsUsed(blocks, used, i);
    TilesDistinct(blocks, start, tail);
    DistinctAt(blocks, i, i + 1);
    FlagBlock(blocks, used, free, start, tail, i, true, rest);
    AddBlock(blocks, used[blocks[i] := true], rest, start, tail, i, x, [x] + rest);
    InsertAtElements(blocks, i + 1, x);
    LastIsOther(blocks, i);
    var r, u := InsertAt(blocks, i + 1, x), used[blocks[i] := true][x := false];
    forall b: nat
      ensures InUse(r, u, tail, b) <==> InUse(blocks, used, tail, b) || b == blocks[i]
    {
      if b == blocks[i] {
        assert b in blocks && b != x;
      } else if b == x {
        assert !u[b];
      }
    }
  }

  lemma NextIsUsed(blocks: seq<nat>, used: Flags, i: nat)
    requires Flagged(blocks, used) && Merged(blocks, used) && i + 1 < |blocks| && !used[blocks[i]]
    ensures used[blocks[i + 1]] && (i > 0 ==> used[blocks[i - 1]])
  {
    assert Guarded(blocks, used, i);
    if i > 0 {
      assert Guarded(blocks, used, i - 1);
      assert blocks[i - 1 + 1] == blocks[i];
    }
  }

  /** One free block and the tailer. */
  lemma FirstShape(start: nat, tail: nat, used: Flags)
    requires start + HEADER <= tail && start in used && tail in used && !used[start] && used[tail]
    ensures Shape([start, tail], used, [start], start, tail)
    ensures FreeSum([start, tail], used) == Gap(start, tail)
    ensures forall b: nat :: !InUse([start, tail], used, tail, b)
  {
    var s := [start, tail];
    assert Front(s) == [start];
    assert Guarded(s, used, 0);
  }

  lemma PairRing(a: nat, b: nat, nx: Links, pv: Links)
    requires a != b && nx == map[a := b, b := a] && pv == map[a := b, b := a]
    ensures Ring([a, b], nx, pv)
  {
  }

  /** Handing out a whole free block. */
  lemma TakeShape(blocks: seq<nat>, used: Flags, free: seq<nat>, start: nat, tail: nat, i: nat, rest: seq<nat>)
    requires Shape(blocks, used, free, start, tail) && i + 1 < |blocks| && blocks[i] in free
    requires forall b :: b in rest <==> b in free && b != blocks[i]
    ensures Shape(blocks, used[blocks[i] := true], rest, start, tail)
    ensures FreeSum(blocks, used[blocks[i] := true]) == FreeSum(blocks, used) - Gap(blocks[i], blocks[i + 1])
    ensures forall b: nat :: InUse(blocks, used[blocks[i] := true], tail, b) <==> InUse(blocks, used, tail, b) || b == blocks[i]
  {
    hide FreeSum, Merged, Ascending;
    FreeBlock(blocks, used, free, start, tail, blocks[i]);
    NextIsUsed(blocks, used, i);
    TilesDistinct(blocks, start, tail);
    DistinctAt(blocks, i, i + 1);
    LastIsOther(blocks, i);
    FlagBlock(blocks, used, free, start, tail, i, true, rest);
    var u := used[blocks[i] := true];
    forall b: nat
      ensures InUse(blocks, u, tail, b) <==> InUse(blocks, used, tail, b) || b == blocks[i]
    {
      if b == blocks[i] { assert b in blocks; }
    }
  }

  // ---------------------------------------------------------------- giving a block back

  /** The free block behind block i disappears into it. */
  lemma MergeNext(blocks: seq<nat>, used: Flags, free: seq<nat>, start: nat, tail: nat, i: nat, rest: seq<nat>)
    requires Shape(blocks, used, free, start, tail) && i + 1 < |blocks| && used[blocks[i]] && !used[blocks[i + 1]]
    requires forall b :: b in rest <==> b in free && b != blocks[i + 1]
    ensures i + 2 < |blocks| && used[blocks[i + 2]]
    ensures Shape(RemoveAt(blocks, i + 1), used, rest, start, tail)
    ensures FreeSum(RemoveAt(blocks, i + 1), used) == FreeSum(blocks, used) - Gap(blocks[i + 1], blocks[i + 2])
    ensures RemoveAt(blocks, i + 1)[i] == blocks[i] && RemoveAt(blocks, i + 1)[i + 1] == blocks[i + 2]
    ensures i > 0 ==> RemoveAt(blocks, i + 1)[i - 1] == blocks[i - 1]
    ensures forall b: nat :: InUse(RemoveAt(blocks, i + 1), used, tail, b) <==> InUse(blocks, used, tail, b)
  {
    hide RemoveAt, FreeSum, Merged, Ascending;
    TilesDistinct(blocks, start, tail);
    NextIsUsed(blocks, used, i + 1);
    DropBlock(blocks, used, free, start, tail, i + 1, rest);
    RemoveAtElements(blocks, i + 1);
  }

  /** A used block is given back; its free predecessor, if it has one, swallows it. */
  lemma ReleaseShape(blocks: seq<nat>, used: Flags, free: seq<nat>, start: nat, tail: nat, i: nat, free': seq<nat>)
    requires Shape(blocks, used, free, start, tail) && i + 1 < |blocks| && used[blocks[i]] && used[blocks[i + 1]]
    requires var swallowed := i > 0 && !used[blocks[i - 1]];
             forall b :: b in free' <==> b in free || (b == blocks[i] && !swallowed)
    ensures var swallowed := i > 0 && !used[blocks[i - 1]];
            var blocks' := if swallowed then RemoveAt(blocks, i) else blocks;
            && Shape(blocks', used[blocks[i] := false], free', start, tail)
            && FreeSum(blocks', used[blocks[i] := false])
               == FreeSum(blocks, used) + Gap(blocks[i], blocks[i + 1]) + (if swallowed then HEADER else 0)
            && forall b: nat :: InUse(blocks', used[blocks[i] := false], tail, b) <==> InUse(blocks, used, tail, b) && b != blocks[i]
  {
    hide RemoveAt, FreeSum, Merged, Ascending;
    TilesDistinct(blocks, start, tail);
    LastIsOther(blocks, i);
    if i > 0 && !used[blocks[i - 1]] {
      RemoveAtElements(blocks, i);
      DropBlock(blocks, used, free, start, tail, i, free');
      FlagElsewhere(RemoveAt(blocks, i), used, free', start, tail, blocks[i], false);
      assert blocks[i - 1] != blocks[i];
    } else {
      FlagBlock(blocks, used, free, start, tail, i, false, free');
      var u := used[blocks[i] := false];
      forall b: nat
        ensures InUse(blocks, u, tail, b) <==> InUse(blocks, used, tail, b) && b != blocks[i]
      {
      }
    }
  }

  lemma RemoveTwo(s: seq<nat>, i: nat)
    requires i + 1 < |s|
    ensures RemoveAt(RemoveAt(s, i + 1), i) == RemoveAt(RemoveAt(s, i), i)
  {
  }

  // ---------------------------------------------------------------- resizing a block in place

  /** The block list when used block i ends at x: a free successor is merged with what is cut off or taken. */
  function Resized(blocks: seq<nat>, i: nat, x: nat, merge: bool): seq<nat>
    requires i + 1 < |blocks|
  {
    InsertAt(if merge then RemoveAt(blocks, i + 1) else blocks, i + 1, x)
  }

  lemma ResizeShape(blocks: seq<nat>, used: Flags, free: seq<nat>, start: nat, tail: nat, i: nat, x: nat, merge: bool, free': seq<nat>)
    requires Shape(blocks, used, free, start, tail) && i + 1 < |blocks| && used[blocks[i]]
    requires merge == !used[blocks[i + 1]] && (merge ==> i + 2 < |blocks|)
    requires blocks[i] + HEADER <= x && x + HEADER <= blocks[if merge then i + 2 else i + 1]
    requires forall b :: b in free' <==> (b in free && !(merge && b == blocks[i + 1])) || b == x
    ensures Shape(Resized(blocks, i, x, merge), used[x := false], free', start, tail)
    ensures FreeSum(Resized(blocks, i, x, merge), used[x := false])
            == FreeSum(blocks, used) + (if merge then blocks[i + 1] - x else Gap(x, blocks[i + 1]))
    ensures forall b: nat :: InUse(Resized(blocks, i, x, merge), used[x := false], tail, b) <==> InUse(blocks, used, tail, b)
  {
    hide RemoveAt, InsertAt, FreeSum, Merged, Ascending, Shape;
    if merge {
      var rest := Omit(free, blocks[i + 1]);
      OmitMembers(free, blocks[i + 1]);
      ShapeKnown(blocks, used, free, start, tail);
      MergeNext(blocks, used, free, start, tail, i, rest);
      ResizeUsed(RemoveAt(blocks, i + 1), used, rest, start, tail, i, x, free');
    } else {
      ResizeUsed(blocks, used, free, start, tail, i, x, free');
    }
  }

  lemma ResizeUsed(blocks: seq<nat>, used: Flags, free: seq<nat>, start: nat, tail: nat, i: nat, x: nat, free': seq<nat>)
    requires Shape(blocks, used, free, start, tail) && i + 1 < |blocks| && used[blocks[i]] && used[blocks[i + 1]]
    requires blocks[i] + HEADER <= x && x + HEADER <= blocks[i + 1]
    requires forall b :: b in free' <==> b in free || b == x
    ensures x !in blocks
    ensures Shape(InsertAt(blocks, i + 1, x), used[x := false], free', start, tail)
    ensures FreeSum(InsertAt(blocks, i + 1, x), used[x := false]) == FreeSum(blocks, used) + Gap(x, blocks[i + 1])
    ensures forall b: nat :: InUse(InsertAt(blocks, i + 1, x), used[x := false], tail, b) <==> InUse(blocks, used, tail, b)
  {
    hide InsertAt, FreeSum, Merged, Ascending;
    AddBlock(blocks, used, free, start, tail, i, x, free');
    InsertAtElements(blocks, i + 1, x);
    var r, u := InsertAt(blocks, i + 1, x), used[x := false];
    forall b: nat
      ensures InUse(r, u, tail, b) <==> InUse(blocks, used, tail, b)
    {
      if b == x { assert !u[b]; }
    }
  }

  lemma InsertThenRemove(blocks: seq<nat>, i: nat, x: nat)
    requires i + 1 < |blocks|
    ensures RemoveAt(InsertAt(blocks, i + 1, x), i + 2) == InsertAt(RemoveAt(blocks, i + 1), i + 1, x)
    ensures InsertAt(blocks, i + 1, x)[i + 1] == x && InsertAt(blocks, i + 1, x)[i + 2] == blocks[i + 1]
  {
  }

  function Omit(s: seq<nat>, x: nat): seq<nat> {
    if s == [] then [] else if Last(s) == x then Omit(Front(s), x) else Omit(Front(s), x) + [Last(s)]
  }

  lemma {:induction false} OmitMembers(s: seq<nat>, x: nat)
    ensures forall y :: y in Omit(s, x) <==> y in s && y != x
  {
    if s != [] {
      FrontLast(s);
      OmitMembers(Front(s), x);
    }
  }
}
