/** rt_memheap: a pool of blocks linked in address order, with a second ring through the free ones. */
module Memheap {
  import opened Wrappers
  import opened Words
  import opened Sequences
  import opened Rings
  import opened HeapShape

  /** RT_MEMHEAP_MINIALLOC */
  const MIN_ALLOC := 12

  /** RT_ALIGN to four bytes, in 32-bit arithmetic. */
  function RtAlign(size: nat): (r: nat)
    requires size < WORD_LIMIT
    ensures r < WORD_LIMIT && r % 4 == 0
  {
    Add32(size, 3) / 4 * 4
  }

  function AlignedSize(size: nat): (r: nat)
    requires size < WORD_LIMIT
    ensures MIN_ALLOC <= r < WORD_LIMIT
  {
    if RtAlign(size) < MIN_ALLOC then MIN_ALLOC else RtAlign(size)
  }

  /** Rounding up wraps around for the three largest sizes, and is right for all others. */
  lemma AlignedCovers(size: nat)
    requires size < WORD_LIMIT
    ensures AlignedSize(size) >= size <==> size <= 0xffff_fffc
  {
  }

  lemma AlignedTwice(size: nat)
    requires size < WORD_LIMIT
    ensures AlignedSize(size) <= 0xffff_fffc && AlignedSize(AlignedSize(size)) == AlignedSize(size)
    ensures AlignedSize(size) > 0xffff_fff0 <==> 0xffff_fff0 < size <= 0xffff_fffc
  {
  }

  /** The test in rt_memheap_realloc whether the free block behind is large enough, in 32-bit arithmetic, for sizes that
      are laid out in memory: it is right exactly when the sum on the right does not wrap around. */
  lemma GrowTest(oldSize: nat, nextSize: nat, newSize: nat)
    requires oldSize + nextSize < WORD_LIMIT && MIN_ALLOC <= oldSize < newSize < WORD_LIMIT
    ensures (Add32(nextSize, oldSize) > Add32(newSize, MIN_ALLOC) <==> nextSize + oldSize > newSize + MIN_ALLOC)
            <==> newSize + MIN_ALLOC < WORD_LIMIT
  {
  }

  /** What becomes of a block that is to be resized. */
  datatype Resizing = Refused | InPlace(size: int) | Elsewhere

  /** The block header in front of a pointer. */
  function HeaderOf(ptr: nat): nat { if ptr >= HEADER then ptr - HEADER else 0 }

  /** A call into the heap, and the use that a client makes of a block it holds. */
  datatype Request =
    | Allocation(size: nat) | Reallocation(b: nat, size: nat) | Freeing(b: nat) | Writing(b: nat, bytes: seq<byte>)
  {
    predicate Sensible() {
      match this
      case Allocation(size) => size < WORD_LIMIT
      case Reallocation(_, size) => size < WORD_LIMIT
      case _ => true
    }
  }

  /** The blocks a client holds, by their headers, with the bytes it knows them to begin with. */
  type Holdings = map<nat, seq<byte>>

  /** What a request that was answered with r leaves in its hands. */
  function HoldingsAfter(h: Holdings, q: Request, r: Option<nat>): Holdings {
    match q
    case Allocation(_) => if r.Some? then h[HeaderOf(r.value) := []] else h
    case Freeing(b) => h - {b}
    case Reallocation(b, size) =>
      if b !in h then h
      else if size == 0 then h - {b}
      else if r.None? then h
      else (h - {b})[HeaderOf(r.value) := Prefix(h[b], AlignedSize(if size < WORD_LIMIT then size else 0))]
    case Writing(b, bytes) => if b in h && r.Some? then h[b := Over(bytes, h[b])] else h
  }

  function HoldingsRun(qs: seq<Request>, rs: seq<Option<nat>>): Holdings
    requires |qs| == |rs|
  {
    if qs == [] then map[] else HoldingsAfter(HoldingsRun(Front(qs), Front(rs)), Last(qs), Last(rs))
  }

  /** These bytes, and behind them what was there. */
  function Over(bytes: seq<byte>, was: seq<byte>): seq<byte> {
    if |bytes| <= |was| then bytes + was[|bytes|..] else bytes
  }

  class Heap {
    const start: nat
    const poolSize: nat
    /** The address of the free list's header, which lies outside the pool. */
    const freeList: nat

    var next: Links
    var prev: Links
    var nextFree: Links
    var prevFree: Links
    var used: Flags
    var available: int
    var maxUsed: int
    /** The bytes of the pool. */
    var mem: seq<byte>

    ghost var blocks: seq<nat>
    ghost var free: seq<nat>

    function Tail(): nat { if start + poolSize >= HEADER then start + poolSize - HEADER else 0 }

    ghost predicate Pool()
      reads this
    {
      && poolSize >= 2 * HEADER && start + poolSize < WORD_LIMIT
      && (freeList < start || start + poolSize <= freeList) && |mem| == poolSize
    }

    ghost predicate Linked()
      reads this
    {
      Ring(blocks, next, prev) && Ring([freeList] + free, nextFree, prevFree)
    }

    ghost predicate Valid()
      reads this
    {
      && Pool() && Linked()
      && Shape(blocks, used, free, start, Tail())
      && available == FreeSum(blocks, used)
      && poolSize - available <= maxUsed
    }

    /** MEMITEM_SIZE */
    function SizeOf(b: nat): int
      reads this
    {
      if b in next then next[b] - b - HEADER else 0
    }

    /** A block that was handed out. */
    ghost predicate Live(b: nat)
      reads this
    {
      InUse(blocks, used, Tail(), b)
    }

    /** The contents of a block. */
    ghost function Contents(b: nat): seq<byte>
      reads this
    {
      if b in next then BytesOf(mem, start, b, next[b]) else []
    }

    /** The blocks that were handed out in an earlier state, but for `gone`, still are, with the same bounds and bytes. */
    ghost predicate Keeps(gone: set<nat>, blocks0: seq<nat>, used0: Flags, next0: Links, mem0: seq<byte>)
      reads this
    {
      Kept(start, Tail(), gone, blocks0, used0, next0, mem0, blocks, used, next, mem)
    }

    // -------------------------------------------------------------- the rings

    /** A block's place in the pool. */
    lemma Place(b: nat) returns (i: nat)
      requires Valid() && b in blocks && b != Tail()
      ensures i + 1 < |blocks| && blocks[i] == b && b in next && b in prev && next[b] == blocks[i + 1]
      ensures prev[b] == if i == 0 then Tail() else blocks[i - 1]
      ensures b + HEADER <= next[b] <= Tail() && start <= b
    {
      hide Ring, Following, FreeSum, Merged, Frees;
      i := PlaceOf(blocks, start, Tail(), b);
      RingNext(blocks, next, prev, i);
      LastFollows(blocks, i);
    }

    lemma BlocksLinked()
      requires Ring(blocks, next, prev)
      ensures forall b :: b in blocks ==> b in next && b in prev
    {
      hide Ring, Following;
      forall b | b in blocks
        ensures b in next && b in prev
      {
        var i :| 0 <= i < |blocks| && blocks[i] == b;
        RingNext(blocks, next, prev, i);
      }
    }

    /** A free block's place in the free list. */
    lemma FreePlace(b: nat) returns (k: nat)
      requires b in free
      ensures k < |free| && free[k] == b && ([freeList] + free)[k + 1] == b
    {
      k :| 0 <= k < |free| && free[k] == b;
    }

    /** Linking a block out of the free list. */
    method UnlinkFree(b: nat)
      requires Ring([freeList] + free, nextFree, prevFree) && b in free
      modifies `nextFree, `prevFree, `free
      ensures Ring([freeList] + free, nextFree, prevFree)
      ensures forall x :: x in free <==> x in old(free) && x != b
    {
      hide Ring, RemoveAt, Following, Distinct;
      ghost var k := FreePlace(b);
      RingIsDistinct([freeList] + free, nextFree, prevFree);
      RingRemove([freeList] + free, nextFree, prevFree, k + 1);
      RemoveBehind(freeList, free, k);
      prevFree, nextFree := prevFree[nextFree[b] := prevFree[b]], nextFree[prevFree[b] := nextFree[b]];
      free := RemoveAt(free, k);
    }

    /** Linking a block in at the head of the free list. */
    method LinkFree(b: nat)
      requires Ring([freeList] + free, nextFree, prevFree) && b !in free && b != freeList
      modifies `nextFree, `prevFree, `free
      ensures Ring([freeList] + free, nextFree, prevFree) && free == [b] + old(free)
    {
      hide Ring, InsertAt;
      ghost var s := [freeList] + free;
      RingInsert(s, nextFree, prevFree, 0, b);
      InsertSecond(freeList, free, b);
      ghost var nf, pf := nextFree[b := nextFree[freeList]][freeList := b], prevFree[b := freeList][nextFree[freeList] := b];
      nextFree := nextFree[b := nextFree[freeList]];
      prevFree := prevFree[b := freeList];
      prevFree := prevFree[nextFree[freeList] := b];
      nextFree := nextFree[freeList := b];
      free := [b] + free;
    }

    /** Linking a new block in behind block number i. */
    method LinkBlock(a: nat, x: nat, ghost i: nat)
      requires Ring(blocks, next, prev) && i < |blocks| && blocks[i] == a && x !in blocks
      modifies `next, `prev, `blocks
      ensures Ring(blocks, next, prev) && blocks == InsertAt(old(blocks), i + 1, x)
      ensures a in old(next) && next == old(next)[x := old(next)[a]][a := x]
    {
      RingInsert(blocks, next, prev, i, x);
      ghost var s := blocks;
      prev := prev[x := a];
      next := next[x := next[a]];
      prev := prev[next[a] := x];
      next := next[a := x];
      blocks := InsertAt(blocks, i + 1, x);
    }

    /** Linking block number i out. */
    method UnlinkBlock(b: nat, ghost i: nat)
      requires Ring(blocks, next, prev) && |blocks| >= 2 && i < |blocks| && blocks[i] == b
      modifies `next, `prev, `blocks
      ensures Ring(blocks, next, prev) && blocks == RemoveAt(old(blocks), i)
      ensures b in old(next) && b in old(prev) && next == old(next)[old(prev)[b] := old(next)[b]]
      ensures i > 0 ==> old(prev)[b] == old(blocks)[i - 1]
    {
      RingRemove(blocks, next, prev, i);
      next, prev := next[prev[b] := next[b]], prev[next[b] := prev[b]];
      blocks := RemoveAt(blocks, i);
    }

    /** The available bytes lie between nothing and the one block of an empty pool. */
    lemma AvailableBounds()
      requires Valid()
      ensures 0 <= available <= poolSize - 2 * HEADER && maxUsed >= 2 * HEADER
    {
      hide Ring, FreeSum;
      SumBounds(blocks, used);
    }

    // -------------------------------------------------------------- rt_memheap_init

    constructor (start: nat, size: nat, freeList: nat)
      requires var poolSize := AlignDown(size, 4);
               && poolSize >= 2 * HEADER && start + poolSize < WORD_LIMIT
               && (freeList < start || start + poolSize <= freeList)
      ensures Valid() && this.start == start && poolSize == AlignDown(size, 4)
      ensures available == poolSize - 2 * HEADER && maxUsed == 2 * HEADER && free == [start] && forall b: nat :: !Live(b)
    {
      hide AlignDown;
      this.start, this.freeList := start, freeList;
      poolSize := AlignDown(size, 4);
      available := AlignDown(size, 4) - 2 * HEADER;
      maxUsed := 2 * HEADER;
      var tail: nat := start + AlignDown(size, 4) - HEADER;
      next := map[start := tail, tail := start];
      prev := map[start := tail, tail := start];
      nextFree := map[freeList := start, start := freeList];
      prevFree := map[freeList := start, start := freeList];
      used := map[start := false, tail := true];
      mem := seq(AlignDown(size, 4), _ => 0);
      blocks, free := [start, tail], [start];
      new;
      hide Ring, Shape, FreeSum;
      assert [freeList] + free == [freeList, start];
      PairRing(start, tail, next, prev);
      PairRing(freeList, start, nextFree, prevFree);
      FirstShape(start, tail, used);
    }

    // -------------------------------------------------------------- rt_memheap_alloc

    /** There are not more than n bytes left, or no free block has them in one piece. */
    ghost predicate Full(n: nat)
      reads this
    {
      n >= available || forall b :: b in free ==> SizeOf(b) < n
    }

    /** The first block on the free list that is large enough. */
    ghost predicate Fitting(h: nat, n: nat)
      reads this
    {
      exists k :: 0 <= k < |free| && free[k] == h && SizeOf(h) >= n && forall j :: 0 <= j < k ==> SizeOf(free[j]) < n
    }

    /** Writing a block header overwrites the bytes it lies on and no others. */
    method WriteHeader(x: nat)
      requires start <= x && x + HEADER - start <= |mem|
      modifies `mem
      ensures Spares(old(mem), mem, x - start)
    {
      mem := mem[..x - start] + seq(HEADER, _ => 0) + mem[x + HEADER - start..];
    }

    /** A block keeps its bytes when a header is written between block i and block j, elsewhere. */
    lemma AwayFromOne(b: nat, i: nat, j: nat, x: nat, was: seq<byte>)
      requires Pool() && Tiles(blocks, start, Tail()) && Ring(blocks, next, prev) && |was| == poolSize
      requires i < j < |blocks| && j <= i + 2 && blocks[i] + HEADER <= x && x + HEADER <= blocks[j]
      requires Spares(was, mem, x - start) && b in blocks && b != blocks[i] && b != blocks[j - 1] && b != Tail()
      ensures b in next && BytesOf(mem, start, b, next[b]) == BytesOf(was, start, b, next[b])
    {
      hide Ring, Following, Spares, Ascending;
      var k := PlaceOf(blocks, start, Tail(), b);
      RingNext(blocks, next, prev, k);
      LastFollows(blocks, k);
      if k < i {
        InOrder(blocks, k + 1, i);
      } else {
        InOrder(blocks, j, k);
      }
      SparesSlice(was, mem, x - start, b + HEADER - start, blocks[k + 1] - start);
    }

    /** All other blocks do. */
    lemma AwayFrom(i: nat, j: nat, x: nat, was: seq<byte>)
      requires Pool() && Tiles(blocks, start, Tail()) && Ring(blocks, next, prev) && |was| == poolSize
      requires i < j < |blocks| && j <= i + 2 && blocks[i] + HEADER <= x && x + HEADER <= blocks[j]
      requires Spares(was, mem, x - start)
      ensures forall b :: b in blocks && b != blocks[i] && b != blocks[j - 1] && b != Tail() ==>
                b in next && BytesOf(mem, start, b, next[b]) == BytesOf(was, start, b, next[b])
    {
      hide Ring, Spares, Tiles, BytesOf;
      forall b | b in blocks && b != blocks[i] && b != blocks[j - 1] && b != Tail()
        ensures b in next && BytesOf(mem, start, b, next[b]) == BytesOf(was, start, b, next[b])
      {
        AwayFromOne(b, i, j, x, was);
      }
    }

    /** The request is met by cutting the front off a free block. */
    method Split(h: nat, size: nat)
      requires Valid() && h in free && SizeOf(h) >= size + HEADER + MIN_ALLOC
      modifies this
      ensures Valid() && Live(h) && SizeOf(h) == size
      ensures forall b: nat :: Live(b) <==> old(Live(b)) || b == h
      ensures Keeps({}, old(blocks), old(used), old(next), old(mem))
      ensures available == old(available) - size - HEADER
      ensures maxUsed == Max(old(maxUsed), poolSize - available)
    {
      hide Ring, Shape, FreeSum, InsertAt, Spares, BytesOf;
      FreeBlock(blocks, used, free, start, Tail(), h);
      ghost var i := Place(h);
      ghost var blocks0, mem0 := blocks, mem;
      var x: nat := h + size + HEADER;
      ShapeTiles(blocks, used, free, start, Tail());
      WriteHeader(x);
      AwayFrom(i, i + 1, x, mem0);
      UnlinkFree(h);
      SplitShape(blocks0, used, old(free), start, Tail(), i, x, free);
      used := used[h := true][x := false];
      LinkBlock(h, x, i);
      LinkFree(x);
      available := available - size - HEADER;
      maxUsed := Max(maxUsed, poolSize - available);
    }

    /** The request is met by a whole free block. */
    method TakeAll(h: nat)
      requires Valid() && h in free
      modifies this
      ensures Valid() && Live(h) && SizeOf(h) == old(SizeOf(h))
      ensures forall b: nat :: Live(b) <==> old(Live(b)) || b == h
      ensures Keeps({}, old(blocks), old(used), old(next), old(mem))
      ensures available == old(available) - SizeOf(h)
      ensures maxUsed == Max(old(maxUsed), poolSize - available)
    {
      hide Ring, Shape, FreeSum, BytesOf;
      FreeBlock(blocks, used, free, start, Tail(), h);
      ghost var i := Place(h);
      BlocksLinked();
      available := available - (next[h] - h - HEADER);
      maxUsed := Max(maxUsed, poolSize - available);
      UnlinkFree(h);
      TakeShape(blocks, used, old(free), start, Tail(), i, free);
      used := used[h := true];
    }

    lemma FreeRing(k: nat)
      requires Ring([freeList] + free, nextFree, prevFree) && k <= |free|
      ensures var b := if k == 0 then freeList else free[k - 1];
              && b in nextFree && nextFree[b] == (if k == |free| then freeList else free[k])
              && (k > 0 ==> b != freeList)
    {
      hide Ring;
      var s := [freeList] + free;
      RingIsDistinct(s, nextFree, prevFree);
      RingNext(s, nextFree, prevFree, k);
      if k > 0 { DistinctAt(s, 0, k); }
    }

    /** The search of rt_memheap_alloc: the first block on the free list that is large enough. */
    method FirstFit(size: nat) returns (h: nat, freeSize: int)
      requires Valid() && size > 0
      ensures freeSize >= size ==> h in free && freeSize == SizeOf(h) && Fitting(h, size)
      ensures freeSize >= size <==> exists b :: b in free && SizeOf(b) >= size
    {
      hide Ring, Shape, FreeSum, Contents;
      FreeRing(0);
      h, freeSize := nextFree[freeList], 0;
      ghost var k := 0;
      while h != freeList && freeSize < size
        invariant k <= |free| && h == if k == |free| then freeList else free[k]
        invariant forall j :: 0 <= j < k ==> SizeOf(free[j]) < size
        invariant freeSize >= size ==> k < |free| && freeSize == SizeOf(h)
        decreases |free| - k, if freeSize < size then 1 else 0
      {
        FreeRing(k + 1);
        FreeBlock(blocks, used, free, start, Tail(), h);
        ghost var i := Place(h);
        freeSize := next[h] - h - HEADER;
        if freeSize < size {
          h := nextFree[h];
          k := k + 1;
        }
      }
      if k < |free| {
        FreeRing(k + 1);
      }
    }

    /** rt_memheap_alloc */
    method Alloc(size: nat) returns (r: Option<nat>)
      requires Valid() && size < WORD_LIMIT
      modifies this
      ensures Valid() && maxUsed == Max(old(maxUsed), poolSize - available)
      ensures r == None <==> old(Full(AlignedSize(size)))
      ensures r == None ==> unchanged(this)
      ensures Keeps({}, old(blocks), old(used), old(next), old(mem))
      ensures r.Some? ==> r.value >= HEADER && Live(r.value - HEADER) && !old(Live(r.value - HEADER))
      ensures r.Some? ==> old(Fitting(r.value - HEADER, AlignedSize(size)))
      ensures r.Some? ==> AlignedSize(size) <= SizeOf(r.value - HEADER) < AlignedSize(size) + HEADER + MIN_ALLOC
      ensures r.Some? ==> SizeOf(r.value - HEADER) == AlignedSize(size) || SizeOf(r.value - HEADER) == old(SizeOf(r.value - HEADER))
      ensures r.Some? ==> forall b: nat :: Live(b) <==> old(Live(b)) || b == r.value - HEADER
    {
      hide Ring, Shape, FreeSum, BytesOf, Fitting;
      var n := AlignedSize(size);
      BlocksLinked();
      if n < available {
        var h, freeSize := FirstFit(n);
        if freeSize >= n {
          FreeBlock(blocks, used, free, start, Tail(), h);
          if freeSize >= n + HEADER + MIN_ALLOC {
            Split(h, n);
          } else {
            TakeAll(h);
          }
          return Some(h + HEADER);
        }
      }
      return None;
    }

    // -------------------------------------------------------------- rt_memheap_free

    /** What giving back block number i adds to the available bytes, and which blocks it leaves. */
    ghost predicate Released(i: nat, left: bool, right: bool, blocks0: seq<nat>, used0: Flags, free0: seq<nat>)
      reads this
    {
      && i + 1 < |blocks0| && (left ==> i > 0) && (right ==> i + 2 < |blocks0|)
      && used == used0[blocks0[i] := false]
      && blocks == (if right then (if left then RemoveAt(RemoveAt(blocks0, i), i) else RemoveAt(blocks0, i + 1))
                    else if left then RemoveAt(blocks0, i) else blocks0)
      && forall x :: x in free <==> (x in free0 && !(right && x == blocks0[i + 1])) || (x == blocks0[i] && !left)
    }

    /** Giving a block back keeps the pool well formed, whichever neighbours it merges with. */
    lemma ReleasedShape(i: nat, left: bool, right: bool, blocks0: seq<nat>, used0: Flags, free0: seq<nat>)
      requires Shape(blocks0, used0, free0, start, Tail()) && i + 1 < |blocks0| && used0[blocks0[i]]
      requires left == (i > 0 && !used0[blocks0[i - 1]]) && right == !used0[blocks0[i + 1]]
      requires Released(i, left, right, blocks0, used0, free0)
      ensures Shape(blocks, used, free, start, Tail())
      ensures FreeSum(blocks, used) == FreeSum(blocks0, used0) + Gap(blocks0[i], blocks0[i + 1])
                                       + (if left then HEADER else 0) + (if right then HEADER else 0)
      ensures forall b: nat :: InUse(blocks, used, Tail(), b) <==> InUse(blocks0, used0, Tail(), b) && b != blocks0[i]
    {
      hide Shape, FreeSum, RemoveAt, InUse;
      if right {
        var rest := Omit(free0, blocks0[i + 1]);
        OmitMembers(free0, blocks0[i + 1]);
        MergeNext(blocks0, used0, free0, start, Tail(), i, rest);
        ReleaseShape(RemoveAt(blocks0, i + 1), used0, rest, start, Tail(), i, free);
        RemoveTwo(blocks0, i);
      } else {
        ReleaseShape(blocks0, used0, free0, start, Tail(), i, free);
      }
    }

    /** The block behind block number k, free, disappears into it. */
    method AbsorbNext(h: nat, ghost k: nat)
      requires Linked() && k + 1 < |blocks| && blocks[k] == h && blocks[k + 1] in free && h in next && next[h] == blocks[k + 1]
      modifies `next, `prev, `blocks, `nextFree, `prevFree, `free, `available
      ensures Linked() && blocks == RemoveAt(old(blocks), k + 1) && available == old(available) + HEADER
      ensures OnlyNext(old(next), next, h)
      ensures forall x :: x in free <==> x in old(free) && x != old(blocks)[k + 1]
    {
      hide Ring, RemoveAt;
      // the neighbour's header becomes payload
      available := available + HEADER;
      var c := next[h];
      UnlinkBlock(c, k + 1);
      UnlinkFree(c);
    }

    /** A block disappears into its free predecessor. */
    method AbsorbedByPrevious(b: nat, ghost i: nat) returns (h: nat)
      requires Linked() && 0 < i < |blocks| - 1 && blocks[i] == b && b in prev
      modifies `next, `prev, `blocks, `available
      ensures Linked() && blocks == RemoveAt(old(blocks), i) && available == old(available) + HEADER
      ensures h == old(blocks)[i - 1] && OnlyNext(old(next), next, h)
      ensures h in next && next[h] == old(blocks)[i + 1]
    {
      hide Ring, RemoveAt;
      RingNext(blocks, next, prev, i);
      LastFollows(blocks, i);
      // the block's own header becomes payload
      available := available + HEADER;
      h := prev[b];
      UnlinkBlock(b, i);
    }

    /** The body of rt_memheap_free: block number i is marked free and merged with its free neighbours. */
    method Detach(b: nat, ghost i: nat) returns (ghost left: bool, ghost right: bool, ghost h: nat)
      requires Linked() && i + 1 < |blocks| && blocks[i] == b && Distinct(blocks) && b != freeList
      requires b in next && b in prev && next[b] == blocks[i + 1] && (i > 0 ==> prev[b] == blocks[i - 1])
      requires i == 0 ==> prev[b] != b && prev[b] in used && used[prev[b]]
      requires (forall x :: x in blocks ==> x in used) && used[b] && used[Last(blocks)]
      requires forall x :: x in free <==> x in blocks && !used[x]
      modifies `next, `prev, `blocks, `nextFree, `prevFree, `free, `available, `used
      ensures Linked() && OnlyNext(old(next), next, h)
      ensures left == (i > 0 && !old(used)[old(blocks)[i - 1]]) && right == !old(used)[old(blocks)[i + 1]]
      ensures h == if left then old(blocks)[i - 1] else b
      ensures Released(i, left, right, old(blocks), old(used), old(free))
      ensures available == old(available) + Gap(b, old(blocks)[i + 1]) + (if left then HEADER else 0) + (if right then HEADER else 0)
    {
      hide Ring, RemoveAt, Distinct, OnlyNext;
      ghost var blocks0, next0 := blocks, next;
      var header, insert := b, true;
      used := used[b := false];
      available := available + (next[b] - b - HEADER);
      left, right := !used[prev[b]], !used[next[b]];
      NeighboursDiffer(blocks, i);
      if !used[prev[b]] {
        header := AbsorbedByPrevious(b, i);
        RemoveAtElements(blocks0, i);
        // an absorbed block is on no list of its own
        insert := false;
      }
      ghost var next1 := next;
      OnlyNextTwice(next0, next1, next, header);
      if !used[next[header]] {
        AbsorbNext(header, if left then i - 1 else i);
      }
      OnlyNextTwice(next0, next1, next, header);
      if insert {
        LinkFree(header);
      }
      h := header;
    }

    lemma NeighboursDiffer(s: seq<nat>, i: nat)
      requires Distinct(s) && i + 1 < |s|
      ensures s[i + 1] != s[i] && s[i] != Last(s) && (i > 0 ==> s[i - 1] != s[i] && s[i - 1] != s[i + 1])
    {
    }

    /** rt_memheap_free of a live block. */
    method Release(b: nat)
      requires Valid() && Live(b)
      modifies this
      ensures Valid() && maxUsed == old(maxUsed)
      ensures forall x: nat :: Live(x) <==> old(Live(x)) && x != b
      ensures Keeps({b}, old(blocks), old(used), old(next), old(mem))
      ensures available >= old(available) + old(SizeOf(b))
    {
      hide Ring, Shape, FreeSum, BytesOf, Distinct, Keeps, InUse, Released, OnlyNext, Tiles;
      LiveBlock(b);
      ghost var i := Place(b);
      ghost var blocks0, used0, free0, next0 := blocks, used, free, next;
      BlocksLinked();
      ShapeKnown(blocks, used, free, start, Tail());
      ghost var left, right, h := Detach(b, i);
      ReleasedShape(i, left, right, blocks0, used0, free0);
      StillKept(b, h, blocks0, used0, next0);
    }

    lemma LiveBlock(b: nat)
      requires Live(b)
      ensures b in blocks && b in used && used[b] && b != Tail()
    {
    }

    lemma StillKept(b: nat, h: nat, blocks0: seq<nat>, used0: Flags, next0: Links)
      requires OnlyNext(next0, next, h) && (h == b || (h in used0 && !used0[h]))
      requires forall x :: x in blocks0 ==> x in next0
      requires forall x: nat :: InUse(blocks, used, Tail(), x) <==> InUse(blocks0, used0, Tail(), x) && x != b
      ensures Keeps({b}, blocks0, used0, next0, mem)
    {
      hide BytesOf;
    }

    // -------------------------------------------------------------- rt_memheap_realloc

    lemma ContentsSize(b: nat)
      requires Valid() && Live(b)
      ensures |Contents(b)| == SizeOf(b) && SizeOf(b) >= 0
      ensures start <= b && b in next && b + HEADER <= next[b] <= start + |mem|
      ensures Contents(b) == mem[b + HEADER - start..next[b] - start]
    {
      hide Ring, Shape, FreeSum;
      var i := Place(b);
    }

    /** The block is live and begins with these bytes. */
    ghost predicate Begins(b: nat, bytes: seq<byte>)
      reads this
    {
      Live(b) && |bytes| <= |Contents(b)| && Contents(b)[..|bytes|] == bytes
    }

    /** Where the free block n behind block number i was, a free block begins at x. */
    method MoveBoundary(b: nat, n: nat, x: nat, ghost i: nat)
      requires Linked() && i + 1 < |blocks| && blocks[i] == b && blocks[i + 1] == n && n in free
      requires x !in blocks && x !in free && x != freeList
      modifies `next, `prev, `blocks, `nextFree, `prevFree, `free
      ensures Linked() && blocks == Resized(old(blocks), i, x, true)
      ensures forall y :: y in free <==> (y in old(free) && y != n) || y == x
      ensures OnlyNextTwo(old(next), next, b, x) && b in next && next[b] == x
    {
      hide Ring, InsertAt, RemoveAt;
      ghost var blocks0 := blocks;
      RingIsDistinct(blocks, next, prev);
      // the free block leaves both rings
      UnlinkFree(n);
      UnlinkBlock(n, i + 1);
      RemoveAtElements(blocks0, i + 1);
      // its rest begins where the block ends now
      LinkBlock(b, x, i);
      LinkFree(x);
    }

    /** What resizing block number i leaves of the others. */
    lemma ResizeKeeps(i: nat, j: nat, x: nat, blocks0: seq<nat>, used0: Flags, next0: Links, mem0: seq<byte>)
      requires i < j < |blocks0| && x !in blocks0 && OnlyNextTwo(next0, next, blocks0[i], x)
      requires !InUse(blocks0, used0, Tail(), blocks0[j - 1]) || j == i + 1
      requires forall b: nat :: InUse(blocks, used, Tail(), b) <==> InUse(blocks0, used0, Tail(), b)
      requires forall b :: b in blocks0 && b != blocks0[i] && b != blocks0[j - 1] && b != Tail() ==>
                 b in next0 && BytesOf(mem, start, b, next0[b]) == BytesOf(mem0, start, b, next0[b])
      ensures Keeps({blocks0[i]}, blocks0, used0, next0, mem0)
    {
      hide BytesOf;
    }

    /** A resized block keeps the bytes in front of the header that was written behind it. */
    lemma ResizeBegins(b: nat, e: nat, x: nat, n0: nat, mem0: seq<byte>)
      requires Live(b) && b in next && next[b] == x && Spares(mem0, mem, x - start)
      requires start <= b && b + HEADER <= e && e <= x && e <= n0 <= start + |mem0| && x <= start + |mem|
      ensures Begins(b, BytesOf(mem0, start, b, n0)[..e - b - HEADER])
    {
      hide Spares, InUse;
      SparesSlice(mem0, mem, x - start, b + HEADER - start, e - start);
      Slice(mem0, b + HEADER - start, n0 - start, 0, e - b - HEADER);
      Slice(mem, b + HEADER - start, x - start, 0, e - b - HEADER);
    }

    /** The block grows into the free block behind it. */
    method Grow(b: nat, size: nat)
      requires Valid() && Live(b) && size > SizeOf(b)
      requires b in next && next[b] in used && !used[next[b]] && SizeOf(next[b]) + SizeOf(b) > size + MIN_ALLOC
      modifies this
      ensures Valid() && Live(b) && SizeOf(b) == size && Begins(b, old(Contents(b)))
      ensures forall x: nat :: Live(x) <==> old(Live(x))
      ensures Keeps({b}, old(blocks), old(used), old(next), old(mem))
      ensures available == old(available) - (size - old(SizeOf(b)))
      ensures maxUsed == Max(old(maxUsed), poolSize - available)
    {
      hide Ring, Shape, FreeSum, Spares, BytesOf, Resized, Distinct, InUse, Keeps, Begins, Ascending, OnlyNextTwo;
      LiveBlock(b);
      ghost var i := Place(b);
      ghost var blocks0, used0, free0, next0, mem0 := blocks, used, free, next, mem;
      BlocksLinked();
      ShapeKnown(blocks, used, free, start, Tail());
      var n := next[b];
      ghost var j := Place(n);
      SameIndex(blocks, i + 1, j);
      available := available - (size - (next[b] - b - HEADER));
      maxUsed := Max(maxUsed, poolSize - available);
      var x: nat := b + HEADER + size;
      WriteHeader(x);
      NotABlock(blocks, start, Tail(), i + 1, x);
      AwayFrom(i, i + 2, x, mem0);
      MoveBoundary(b, n, x, i);
      used := used[x := false];
      ResizeShape(blocks0, used0, free0, start, Tail(), i, x, true, free);
      FreeIsNotInUse(blocks0, used0, n);
      ResizeKeeps(i, i + 2, x, blocks0, used0, next0, mem0);
      ResizeBegins(b, n, x, n, mem0);
      WholeBytes(mem0, start, b, n);
    }

    /** A free block begins at x, inside block number i; a free block behind it is merged into the new one. */
    method CutOff(b: nat, x: nat, merge: bool, ghost i: nat)
      requires Linked() && i + 1 < |blocks| && blocks[i] == b && b in next && next[b] == blocks[i + 1]
      requires (merge ==> blocks[i + 1] in free) && x !in blocks && x !in free && x != freeList
      modifies `next, `prev, `blocks, `nextFree, `prevFree, `free, `available
      ensures Linked() && blocks == Resized(old(blocks), i, x, merge)
      ensures forall y :: y in free <==> (y in old(free) && !(merge && y == old(blocks)[i + 1])) || y == x
      ensures OnlyNextTwo(old(next), next, b, x) && b in next && next[b] == x
      ensures merge && i + 2 < |old(blocks)| ==> available == old(available) - Gap(old(blocks)[i + 1], old(blocks)[i + 2])
                                                             + Gap(x, old(blocks)[i + 2])
      ensures !merge ==> available == old(available) + Gap(x, old(blocks)[i + 1])
    {
      hide Ring, InsertAt, RemoveAt;
      ghost var blocks0 := blocks;
      InsertThenRemove(blocks, i, x);
      InsertAtElements(blocks, i + 1, x);
      RingNext(blocks, next, prev, i + 1);
      // a block begins behind the bytes that are kept
      LinkBlock(b, x, i);
      RingNext(blocks, next, prev, i + 1);
      LastFollows(blocks, i + 1);
      // a free block behind is taken in
      if merge {
        var c := next[x];
        available := available - (next[c] - c - HEADER);
        UnlinkBlock(c, i + 2);
        UnlinkFree(c);
      }
      // whatever it is made of, the new block is free
      LinkFree(x);
      available := available + (next[x] - x - HEADER);
    }

    /** The end of the block is cut off and becomes free. */
    method Shrink(b: nat, size: nat)
      requires Valid() && Live(b) && size + HEADER + MIN_ALLOC < SizeOf(b)
      modifies this
      ensures Valid() && Live(b) && SizeOf(b) == size && size <= |old(Contents(b))| && Begins(b, old(Contents(b))[..size])
      ensures forall x: nat :: Live(x) <==> old(Live(x))
      ensures Keeps({b}, old(blocks), old(used), old(next), old(mem))
      ensures available > old(available) && maxUsed == old(maxUsed)
    {
      hide Ring, Shape, FreeSum, Spares, BytesOf, Resized, Distinct, InUse, Keeps, Begins, Ascending, OnlyNextTwo;
      LiveBlock(b);
      ContentsSize(b);
      ghost var i := Place(b);
      ghost var blocks0, used0, free0, next0, mem0 := blocks, used, free, next, mem;
      BlocksLinked();
      ShapeKnown(blocks, used, free, start, Tail());
      ghost var n := next[b];
      var merge := !used[next[b]];
      ghost var k := i + 1;
      if merge {
        k := Place(n);
        SameIndex(blocks, i + 1, k);
        FreeIsNotInUse(blocks0, used0, n);
      }
      var x: nat := b + size + HEADER;
      WriteHeader(x);
      NotABlock(blocks, start, Tail(), i, x);
      AwayFrom(i, i + 1, x, mem0);
      CutOff(b, x, merge, i);
      used := used[x := false];
      ResizeShape(blocks0, used0, free0, start, Tail(), i, x, merge, free);
      ResizeKeeps(i, i + 1, x, blocks0, used0, next0, mem0);
      ResizeBegins(b, x, x, n, mem0);
    }

    lemma FreeIsNotInUse(blocks0: seq<nat>, used0: Flags, n: nat)
      requires n in used0 && !used0[n]
      ensures !InUse(blocks0, used0, Tail(), n)
    {
    }

    /** rt_memcpy from one block to another. */
    method CopyPayload(a: nat, b: nat, n: nat)
      requires Valid() && Live(a) && Live(b) && a != b && n <= SizeOf(a) && n <= SizeOf(b)
      modifies `mem
      ensures Valid() && |old(Contents(b))| >= n && Begins(a, old(Contents(b))[..n])
      ensures Keeps({a}, blocks, used, next, old(mem))
    {
      hide Ring, Shape, FreeSum, InUse, Put, BytesOf, Keeps, Begins;
      ContentsSize(a);
      ContentsSize(b);
      ghost var was := mem;
      var data := mem[b + HEADER - start..b + HEADER - start + n];
      Slice(mem, b + HEADER - start, next[b] - start, 0, n);
      assert data == mem[b + HEADER - start..next[b] - start][..n];
      mem := Put(mem, a + HEADER - start, data);
      PutSlices(was, a + HEADER - start, data);
      PayloadPut(a, data, was);
      OthersSpared(a, n, was);
    }

    /** The bytes put behind a block's header are its first bytes. */
    lemma PayloadPut(a: nat, data: seq<byte>, was: seq<byte>)
      requires Valid() && Live(a) && |data| <= SizeOf(a) && |was| == |mem| && a + HEADER - start + |data| <= |was|
      requires a + HEADER >= start && mem == Put(was, a + HEADER - start, data)
      ensures Begins(a, data)
    {
      hide Ring, Shape, FreeSum, InUse, Put;
      ContentsSize(a);
      PutSlices(was, a + HEADER - start, data);
      Slice(mem, a + HEADER - start, next[a] - start, 0, |data|);
      assert Contents(a)[..|data|] == Contents(a)[0..|data|];
    }

    /** Bytes put into one block's payload leave all other blocks alone. */
    lemma OthersSpared(a: nat, n: nat, was: seq<byte>)
      requires Valid() && Live(a) && n <= SizeOf(a) && |was| == |mem| && a + HEADER >= start && a + HEADER - start + n <= |was|
      requires mem[..a + HEADER - start] == was[..a + HEADER - start]
      requires mem[a + HEADER - start + n..] == was[a + HEADER - start + n..]
      ensures Keeps({a}, blocks, used, next, was)
    {
      hide Ring, Shape, FreeSum, InUse;
      ContentsSize(a);
      ApartFrom(a);
      forall x: nat | Live(x) && x != a
        ensures x in next && BytesOf(mem, start, x, next[x]) == BytesOf(was, start, x, next[x])
      {
        ContentsSize(x);
        SameOutside(was, mem, a + HEADER - start, n, x + HEADER - start, next[x] - start);
      }
    }

    /** Blocks do not overlap. */
    lemma ApartFrom(a: nat)
      requires Valid() && Live(a)
      ensures a in next && forall x: nat :: Live(x) && x != a ==> x in next && (next[x] <= a || next[a] <= x)
    {
      hide Ring, Shape, FreeSum, Ascending;
      ShapeKnown(blocks, used, free, start, Tail());
      var i := Place(a);
      forall x: nat | Live(x) && x != a
        ensures x in next && (next[x] <= a || next[a] <= x)
      {
        var k := Place(x);
        if k < i {
          InOrder(blocks, k + 1, i);
        } else {
          InOrder(blocks, i + 1, k);
        }
      }
    }

    lemma KeepsRefl()
      requires Valid()
      ensures Keeps({}, blocks, used, next, mem) && forall b: nat :: Keeps({b}, blocks, used, next, mem)
    {
      hide Ring, Shape, FreeSum, BytesOf;
      BlocksLinked();
    }

    lemma BeginsItself(b: nat, n: nat)
      requires Live(b)
      ensures Begins(b, Prefix(Contents(b), n))
    {
      hide BytesOf, InUse;
      var s := Contents(b);
      assert s[..|s|] == s;
    }

    /** A new block, the bytes of the old one, and the old one given back. */
    method Move(b: nat, n: nat, oldSize: nat) returns (r: Option<nat>)
      requires Valid() && Live(b) && oldSize == SizeOf(b) < n < WORD_LIMIT && AlignedSize(n) == n
      modifies this
      ensures Valid() && (r == None <==> old(Full(n))) && (r == None ==> unchanged(this))
      ensures Keeps({b}, old(blocks), old(used), old(next), old(mem))
      ensures r.Some? ==> r.value >= HEADER && n <= SizeOf(r.value - HEADER) && old(Fitting(r.value - HEADER, n))
                          && Begins(r.value - HEADER, old(Contents(b))) && !old(Live(r.value - HEADER)) && !Live(b)
      ensures r.Some? ==> forall x: nat :: Live(x) <==> (old(Live(x)) && x != b) || x == r.value - HEADER
    {
      hide Ring, Shape, FreeSum, BytesOf, InUse, Begins, Kept, Full, Fitting;
      LiveBlock(b);
      KeepsRefl();
      ContentsSize(b);
      r := Alloc(n);
      if r.Some? {
        var a := r.value - HEADER;
        ghost var blocks1, used1, next1, mem1 := blocks, used, next, mem;
        KeptContents(b, old(blocks), old(used), old(next), old(mem));
        CopyPayload(a, b, oldSize);
        ghost var mem2, bytes := mem, old(Contents(b));
        assert bytes[..oldSize] == bytes;
        KeptTwice(start, Tail(), {}, {a}, old(blocks), old(used), old(next), old(mem), blocks1, used1, next1, mem1,
                  blocks, used, next, mem);
        ContentsSize(a);
        BeginsMeans(a, bytes);
        Release(b);
        KeptTwice(start, Tail(), {} + {a}, {b}, old(blocks), old(used), old(next), old(mem), blocks1, used1, next1, mem2,
                  blocks, used, next, mem);
        assert {} + {a} + {b} == {b} + {a};
        KeptOthers(start, Tail(), {b}, a, old(blocks), old(used), old(next), old(mem), blocks, used, next, mem);
        KeptBegins(a, bytes, blocks1, used1, next1, mem2, {b});
      }
    }

    /** A kept block still has its contents. */
    lemma KeptContents(b: nat, blocks0: seq<nat>, used0: Flags, next0: Links, mem0: seq<byte>)
      requires Keeps({}, blocks0, used0, next0, mem0) && InUse(blocks0, used0, Tail(), b)
      ensures Live(b) && b in next0 && b in next && next[b] == next0[b] && Contents(b) == BytesOf(mem0, start, b, next0[b])
    {
      hide BytesOf, InUse;
    }

    lemma BeginsMeans(a: nat, bytes: seq<byte>)
      requires Begins(a, bytes) && a in next
      ensures |bytes| <= |BytesOf(mem, start, a, next[a])| && BytesOf(mem, start, a, next[a])[..|bytes|] == bytes
    {
      hide BytesOf;
    }

    /** A kept block still begins with the same bytes. */
    lemma KeptBegins(a: nat, bytes: seq<byte>, blocks0: seq<nat>, used0: Flags, next0: Links, mem0: seq<byte>, gone: set<nat>)
      requires Keeps(gone, blocks0, used0, next0, mem0) && InUse(blocks0, used0, Tail(), a) && a !in gone && a in next0
      requires |bytes| <= |BytesOf(mem0, start, a, next0[a])| && BytesOf(mem0, start, a, next0[a])[..|bytes|] == bytes
      ensures Begins(a, bytes) && SizeOf(a) == next0[a] - a - HEADER
    {
      hide BytesOf, InUse;
    }

    /** The test for growing in place does not wrap around, or is not made because the next block is in use. */
    predicate GrowthSafe(b: nat, n: nat)
      reads this
    {
      n + MIN_ALLOC < WORD_LIMIT || (b in next && next[b] in used && used[next[b]])
    }

    /** Otherwise the test succeeds for every free block behind, and the header of the block left over is put where the
        header of the grown block itself lies: the pool is destroyed. */
    lemma GrowthWraps(b: nat, n: nat)
      requires Valid() && Live(b) && SizeOf(b) >= MIN_ALLOC && n % 4 == 0 && n < WORD_LIMIT && !GrowthSafe(b, n)
      ensures b in next && next[b] in used && !used[next[b]] && SizeOf(next[b]) >= 0
      ensures SizeOf(b) + SizeOf(next[b]) < n && Add32(SizeOf(next[b]), SizeOf(b)) > Add32(n, MIN_ALLOC)
      ensures b < Add32(b + HEADER, n) < b + HEADER
    {
      hide Ring, Shape, FreeSum, InUse;
      LiveBlock(b);
      ghost var i := Place(b);
      ShapeKnown(blocks, used, free, start, Tail());
      ghost var j := Place(next[b]);
    }

    /** The block behind is free and has more than the minimum left when this one grows to n. */
    ghost predicate Growable(b: nat, n: nat)
      reads this
    {
      b in next && next[b] in used && !used[next[b]] && SizeOf(next[b]) + SizeOf(b) > n + MIN_ALLOC
    }

    /** What a block and an aligned size lead to: the block cannot get that size anywhere, has this size where it is, or
        finds another place. */
    ghost function Expected(b: nat, n: nat): Resizing
      reads this
    {
      if n <= SizeOf(b) then InPlace(if SizeOf(b) <= n + HEADER + MIN_ALLOC then SizeOf(b) else n)
      else if Growable(b, n) then InPlace(n)
      else if Full(n) then Refused
      else Elsewhere
    }

    ghost predicate Came(e: Resizing, b: nat, r: Option<nat>)
      reads this
    {
      match e
      case Refused => r == None
      case InPlace(size) => r == Some(b + HEADER) && SizeOf(b) == size
      case Elsewhere => r.Some? && r.value != b + HEADER
    }

    /** The body of rt_memheap_realloc for a live block and an aligned size n: it fails only for a block that has to grow,
        cannot grow in place, and finds no other place; it moves only such a block. */
    method Resize(b: nat, n: nat) returns (r: Option<nat>)
      requires Valid() && Live(b) && MIN_ALLOC <= n < WORD_LIMIT && AlignedSize(n) == n && GrowthSafe(b, n)
      modifies this
      ensures Valid() && Keeps({b}, old(blocks), old(used), old(next), old(mem))
      ensures r == None ==> unchanged(this)
      ensures Came(old(Expected(b, n)), b, r)
      ensures r.Some? && r.value != b + HEADER ==> r.value >= HEADER && old(Fitting(r.value - HEADER, n))
      ensures r.Some? ==> r.value >= HEADER && n <= SizeOf(r.value - HEADER)
                          && Begins(r.value - HEADER, Prefix(old(Contents(b)), n))
      ensures r.Some? && r.value != b + HEADER ==> !old(Live(r.value - HEADER))
      ensures r.Some? ==> forall x: nat :: Live(x) <==> (old(Live(x)) && x != b) || x == r.value - HEADER
    {
      hide Ring, Shape, FreeSum, BytesOf, InUse, Begins, Keeps, Contents, Full, Fitting;
      KeepsRefl();
      LiveBlock(b);
      ContentsSize(b);
      ghost var i := Place(b);
      BlocksLinked();
      ShapeKnown(blocks, used, free, start, Tail());
      var oldSize := next[b] - b - HEADER;
      // growing: in place if the block behind allows it
      if n > oldSize {
        var nextPtr := next[b];
        if !used[nextPtr] {
          ghost var j := Place(nextPtr);
          var nextSize := next[nextPtr] - nextPtr - HEADER;
          if Add32(nextSize, oldSize) > Add32(n, MIN_ALLOC) {
            Grow(b, n);
            return Some(b + HEADER);
          }
        }
        r := Move(b, n, oldSize);
        return;
      }
      // too little to make a block of
      if n + HEADER + MIN_ALLOC >= oldSize {
        BeginsItself(b, n);
        return Some(b + HEADER);
      }
      Shrink(b, n);
      return Some(b + HEADER);
    }

    /** rt_memheap_realloc, for all calls whose growth test does not wrap around: the block returned has the aligned size
        and begins with what the old one held, all other blocks stay as they are, and on failure the old block stays too.
        For the three largest sizes the aligned size is the minimum, so that the block shrinks. */
    method Realloc(ptr: Option<nat>, newSize: nat) returns (r: Option<nat>)
      requires Valid() && newSize < WORD_LIMIT
      requires ptr.Some? ==> ptr.value >= HEADER && Live(HeaderOf(ptr.value))
      requires ptr.Some? && newSize > 0 ==> GrowthSafe(HeaderOf(ptr.value), AlignedSize(newSize))
      modifies this
      ensures Valid()
      ensures newSize == 0 ==> r == None
      ensures newSize == 0 && ptr.Some? ==> forall x: nat :: Live(x) <==> old(Live(x)) && x != HeaderOf(ptr.value)
      ensures newSize > 0 && ptr == None ==> (r == None <==> old(Full(AlignedSize(newSize))))
      ensures newSize > 0 && ptr.Some? ==> Came(old(Expected(HeaderOf(ptr.value), AlignedSize(newSize))), HeaderOf(ptr.value), r)
      ensures r == None && (newSize > 0 || ptr == None) ==> unchanged(this)
      ensures r.Some? && r != ptr ==> old(Fitting(HeaderOf(r.value), AlignedSize(newSize)))
      ensures r.Some? ==> r.value >= HEADER && AlignedSize(newSize) <= SizeOf(HeaderOf(r.value)) && Live(HeaderOf(r.value))
      ensures newSize <= AlignedSize(newSize) <==> newSize <= 0xffff_fffc
      ensures ptr == None ==> Keeps({}, old(blocks), old(used), old(next), old(mem))
      ensures ptr.Some? ==> Keeps({HeaderOf(ptr.value)}, old(blocks), old(used), old(next), old(mem))
      ensures ptr.Some? && r.Some? ==> Begins(HeaderOf(r.value), Prefix(old(Contents(HeaderOf(ptr.value))), AlignedSize(newSize)))
      ensures r.Some? && r != ptr ==> !old(Live(HeaderOf(r.value)))
      ensures ptr == None && r.Some? ==> forall x: nat :: Live(x) <==> old(Live(x)) || x == HeaderOf(r.value)
      ensures ptr.Some? && r.Some? ==>
                forall x: nat :: Live(x) <==> (old(Live(x)) && x != HeaderOf(ptr.value)) || x == HeaderOf(r.value)
    {
      hide Ring, Shape, FreeSum, BytesOf, InUse, Begins, Keeps, Contents, Full, Fitting, Expected, Came;
      AlignedCovers(newSize);
      AlignedTwice(newSize);
      KeepsRefl();
      if newSize == 0 {
        if ptr.Some? {
          Release(ptr.value - HEADER);
        }
        return None;
      }
      var n := AlignedSize(newSize);
      if ptr == None {
        r := Alloc(n);
      } else {
        r := Resize(ptr.value - HEADER, n);
      }
    }

    // -------------------------------------------------------------- whole runs

    /** The blocks handed out are exactly those the client holds, and begin with what it knows. */
    ghost predicate Owned(h: Holdings)
      reads this
    {
      (forall b: nat :: Live(b) <==> b in h) && forall b :: b in h ==> Begins(b, h[b])
    }

    /** A client writes to the front of a block it holds. */
    method Write(b: nat, bytes: seq<byte>)
      requires Valid() && Live(b) && |bytes| <= SizeOf(b)
      modifies `mem
      ensures Valid() && Contents(b) == Over(bytes, old(Contents(b))) && Keeps({b}, blocks, used, next, old(mem))
    {
      hide Ring, Shape, FreeSum, InUse, Put, BytesOf, Keeps;
      ContentsSize(b);
      ghost var was := mem;
      mem := Put(mem, b + HEADER - start, bytes);
      PutSlices(was, b + HEADER - start, bytes);
      OthersSpared(b, |bytes|, was);
      ContentsSize(b);
      PutInside(was, b + HEADER - start, next[b] - start, bytes);
    }

    /** What the client knows of a block that was kept still holds. */
    lemma StillBegins(b: nat, bytes: seq<byte>, gone: set<nat>, blocks0: seq<nat>, used0: Flags, next0: Links, mem0: seq<byte>)
      requires Keeps(gone, blocks0, used0, next0, mem0) && InUse(blocks0, used0, Tail(), b) && b !in gone && b in next0
      requires |bytes| <= |BytesOf(mem0, start, b, next0[b])| && BytesOf(mem0, start, b, next0[b])[..|bytes|] == bytes
      ensures Begins(b, bytes)
    {
      KeptBegins(b, bytes, blocks0, used0, next0, mem0, gone);
    }

    /** All that was known of the other blocks. */
    lemma OthersBegin(h: Holdings, gone: set<nat>, blocks0: seq<nat>, used0: Flags, next0: Links, mem0: seq<byte>)
      requires Keeps(gone, blocks0, used0, next0, mem0)
      requires Known(h, start, Tail(), blocks0, used0, next0, mem0)
      ensures forall b :: b in h && b !in gone ==> Begins(b, h[b])
    {
      hide Keeps, BytesOf, InUse, Begins;
      forall b | b in h && b !in gone
        ensures Begins(b, h[b])
      {
        StillBegins(b, h[b], gone, blocks0, used0, next0, mem0);
      }
    }

    /** What owning blocks means for the fields. */
    lemma OwnedMeans(h: Holdings)
      requires Valid() && Owned(h)
      ensures Known(h, start, Tail(), blocks, used, next, mem)
    {
      hide Ring, Shape, FreeSum, BytesOf, InUse;
      BlocksLinked();
      forall b | b in h
        ensures b in next
      {
        LiveBlock(b);
      }
    }

    /** A client resizes a block, unless GrowthWraps describes the call. */
    method ServeResizing(b: nat, size: nat, h: Holdings) returns (r: Option<nat>)
      requires Valid() && Owned(h) && size < WORD_LIMIT && b in h
      modifies this
      ensures Valid() && Owned(HoldingsAfter(h, Reallocation(b, size), r))
      ensures size > 0 && old(GrowthSafe(b, AlignedSize(size))) ==> Came(old(Expected(b, AlignedSize(size))), b, r)
    {
      hide Ring, Shape, FreeSum, BytesOf, InUse, Begins, Keeps, Contents, Kept, Full, Fitting, Expected, Came, Prefix;
      OwnedMeans(h);
      assert Live(b);
      ghost var blocks0, used0, next0, mem0, bytes := blocks, used, next, mem, Contents(b);
      BeginsKnown(b, h[b]);
      if size != 0 && !GrowthSafe(b, AlignedSize(size)) {
        return None;
      }
      r := Realloc(Some(b + HEADER), size);
      OthersBegin(h, {b}, blocks0, used0, next0, mem0);
      if r.Some? { BeginsShorter(HeaderOf(r.value), bytes, h[b], AlignedSize(size)); }
    }

    /** A client writes to a block, unless it would write past its end. */
    method ServeWriting(b: nat, bytes: seq<byte>, h: Holdings) returns (r: Option<nat>)
      requires Valid() && Owned(h) && b in h
      modifies this
      ensures Valid() && Owned(HoldingsAfter(h, Writing(b, bytes), r))
      ensures r.Some? <==> |bytes| <= old(SizeOf(b))
    {
      hide Ring, Shape, FreeSum, BytesOf, InUse, Begins, Keeps, Contents, Kept, Over;
      OwnedMeans(h);
      assert Live(b);
      ContentsSize(b);
      ghost var blocks0, used0, next0, mem0, was := blocks, used, next, mem, Contents(b);
      BeginsKnown(b, h[b]);
      if |bytes| > next[b] - b - HEADER {
        return None;
      }
      Write(b, bytes);
      OthersBegin(h, {b}, blocks0, used0, next0, mem0);
      BeginsOver(b, bytes, was, h[b]);
      return Some(b + HEADER);
    }

    /** One request. */
    method Serve(q: Request, h: Holdings) returns (r: Option<nat>)
      requires Valid() && Owned(h) && q.Sensible() && Possible(q, h)
      modifies this
      ensures Valid() && Owned(HoldingsAfter(h, q, r))
      ensures q.Allocation? ==> (r == None <==> old(Full(AlignedSize(q.size))))
      ensures q.Reallocation? && q.size > 0 && old(GrowthSafe(q.b, AlignedSize(q.size))) ==>
                Came(old(Expected(q.b, AlignedSize(q.size))), q.b, r)
      ensures q.Writing? ==> (r.Some? <==> |q.bytes| <= old(SizeOf(q.b)))
    {
      hide Ring, Shape, FreeSum, BytesOf, InUse, Begins, Keeps, Contents, Kept, Full, Fitting, Expected, Came, Prefix, Over;
      OwnedMeans(h);
      ghost var blocks0, used0, next0, mem0 := blocks, used, next, mem;
      match q
      case Allocation(size) =>
        r := Alloc(size);
        OthersBegin(h, {}, blocks0, used0, next0, mem0);
        if r.Some? { BeginsNothing(HeaderOf(r.value)); }
      case Freeing(b) =>
        assert Live(b);
        Release(b);
        OthersBegin(h, {b}, blocks0, used0, next0, mem0);
        r := None;
      case Reallocation(b, size) => r := ServeResizing(b, size, h);
      case Writing(b, bytes) => r := ServeWriting(b, bytes, h);
    }

    lemma BeginsKnown(b: nat, bytes: seq<byte>)
      requires Begins(b, bytes)
      ensures Live(b) && |bytes| <= |Contents(b)| && Contents(b)[..|bytes|] == bytes
    {
    }

    lemma BeginsNothing(b: nat)
      requires Live(b)
      ensures Begins(b, [])
    {
    }

    lemma BeginsShorter(b: nat, bytes: seq<byte>, known: seq<byte>, n: nat)
      requires Begins(b, Prefix(bytes, n)) && |known| <= |bytes| && bytes[..|known|] == known
      ensures Begins(b, Prefix(known, n))
    {
      hide InUse, BytesOf;
      var c, p, k := Contents(b), Prefix(bytes, n), Prefix(known, n);
      assert c[..|k|] == c[..|p|][..|k|];
      assert p[..|k|] == k;
    }

    lemma BeginsOver(b: nat, bytes: seq<byte>, was: seq<byte>, known: seq<byte>)
      requires Live(b) && Contents(b) == Over(bytes, was) && |bytes| <= |was|
      requires |known| <= |was| && was[..|known|] == known
      ensures Begins(b, Over(bytes, known))
    {
      hide InUse, BytesOf;
    }

    /** Over every run the blocks tile the pool, free neighbours are merged, the free list holds exactly the free
        blocks, the available bytes are their payload, and the client holds exactly the blocks in use, each of which
        begins with what was last written to it, wherever it was moved. */
    method Run(requests: seq<Request>) returns (answers: seq<Option<nat>>)
      requires Valid() && Owned(map[]) && forall i :: 0 <= i < |requests| ==> requests[i].Sensible()
      modifies this
      ensures Valid() && |answers| <= |requests| && Owned(HoldingsRun(requests[..|answers|], answers))
      ensures |answers| < |requests| ==> !Possible(requests[|answers|], HoldingsRun(requests[..|answers|], answers))
      ensures Tiles(blocks, start, Tail()) && Ring(blocks, next, prev)
      ensures Flagged(blocks, used) && Merged(blocks, used)
      ensures Ring([freeList] + free, nextFree, prevFree) && forall b :: b in free <==> b in blocks && !used[b]
      ensures available == FreeSum(blocks, used)
    {
      hide Ring, Tiles, Merged, FreeSum, Owned, HoldingsAfter;
      answers := [];
      var h: Holdings := map[];
      while |answers| < |requests| && Possible(requests[|answers|], h)
        invariant Valid() && |answers| <= |requests| && h == HoldingsRun(requests[..|answers|], answers) && Owned(h)
        decreases |requests| - |answers|
      {
        var q := requests[|answers|];
        var r := Serve(q, h);
        h := HoldingsAfter(h, q, r);
        NextAnswer(requests, answers, r);
        answers := answers + [r];
      }
    }
  }

  /** The blocks are in use and begin with these bytes. */
  ghost predicate Known(h: Holdings, start: nat, tail: nat, blocks: seq<nat>, used: Flags, next: Links, mem: seq<byte>) {
    forall b :: b in h ==>
      && InUse(blocks, used, tail, b) && b in next
      && |h[b]| <= |BytesOf(mem, start, b, next[b])| && BytesOf(mem, start, b, next[b])[..|h[b]|] == h[b]
  }

  /** A client asks only for what is done to blocks it holds. */
  predicate Possible(q: Request, h: Holdings) { q.Allocation? || q.b in h }

  lemma NextAnswer(qs: seq<Request>, rs: seq<Option<nat>>, r: Option<nat>)
    requires |rs| < |qs|
    ensures HoldingsRun(qs[..|rs| + 1], rs + [r]) == HoldingsAfter(HoldingsRun(qs[..|rs|], rs), qs[|rs|], r)
  {
    Snoc(rs, r);
    SplitAt(qs, |rs|);
    Snoc(qs[..|rs|], qs[|rs|]);
  }

  lemma PutInside(was: seq<byte>, lo: nat, hi: nat, bytes: seq<byte>)
    requires lo + |bytes| <= hi <= |was|
    ensures Put(was, lo, bytes)[lo..hi] == Over(bytes, was[lo..hi])
  {
  }

  lemma InsertSecond(h: nat, s: seq<nat>, x: nat)
    ensures InsertAt([h] + s, 1, x) == [h] + ([x] + s)
  {
  }

  function Prefix(s: seq<byte>, n: nat): seq<byte> {
    if |s| <= n then s else s[..n]
  }

  lemma SameOutside(was: seq<byte>, now: seq<byte>, at: nat, n: nat, lo: nat, hi: nat)
    requires at + n <= |was| == |now| && lo <= hi <= |was| && (hi <= at || at + n <= lo)
    requires now[..at] == was[..at] && now[at + n..] == was[at + n..]
    ensures now[lo..hi] == was[lo..hi]
  {
    if hi <= at {
      SamePrefixSlice(was, now, at, lo, hi);
    } else {
      SameSuffixSlice(was, now, at + n, lo, hi);
    }
  }

  lemma WholeBytes(mem: seq<byte>, start: nat, b: nat, n: nat)
    requires start <= b && b + HEADER <= n <= start + |mem|
    ensures BytesOf(mem, start, b, n)[..n - b - HEADER] == BytesOf(mem, start, b, n)
  {
  }

  /** Only the successors of these two differ. */
  ghost predicate OnlyNextTwo(next0: Links, next: Links, h: nat, x: nat) {
    forall y :: y in next0 && y != h && y != x ==> y in next && next[y] == next0[y]
  }

  lemma OnlyNextTwice(next0: Links, next1: Links, next2: Links, h: nat)
    ensures OnlyNext(next0, next0, h)
    ensures OnlyNext(next0, next1, h) && OnlyNext(next1, next2, h) ==> OnlyNext(next0, next2, h)
  {
  }

  /** The blocks handed out in one state, but for `gone`, are handed out in another, with the same bounds and bytes. */
  ghost predicate Kept(start: nat, tail: nat, gone: set<nat>, blocks0: seq<nat>, used0: Flags, next0: Links, mem0: seq<byte>,
                       blocks: seq<nat>, used: Flags, next: Links, mem: seq<byte>) {
    forall b: nat :: InUse(blocks0, used0, tail, b) && b !in gone ==>
      InUse(blocks, used, tail, b) && b in next0 && b in next && next[b] == next0[b]
      && BytesOf(mem, start, b, next[b]) == BytesOf(mem0, start, b, next0[b])
  }

  lemma KeptTwice(start: nat, tail: nat, gone: set<nat>, later: set<nat>, blocks0: seq<nat>, used0: Flags, next0: Links,
                  mem0: seq<byte>, blocks1: seq<nat>, used1: Flags, next1: Links, mem1: seq<byte>, blocks2: seq<nat>,
                  used2: Flags, next2: Links, mem2: seq<byte>)
    requires Kept(start, tail, gone, blocks0, used0, next0, mem0, blocks1, used1, next1, mem1)
    requires Kept(start, tail, later, blocks1, used1, next1, mem1, blocks2, used2, next2, mem2)
    ensures Kept(start, tail, gone + later, blocks0, used0, next0, mem0, blocks2, used2, next2, mem2)
  {
    hide BytesOf, InUse;
  }

  /** A block that was not handed out before need not be excepted. */
  lemma KeptOthers(start: nat, tail: nat, gone: set<nat>, a: nat, blocks0: seq<nat>, used0: Flags, next0: Links, mem0: seq<byte>,
                   blocks: seq<nat>, used: Flags, next: Links, mem: seq<byte>)
    requires Kept(start, tail, gone + {a}, blocks0, used0, next0, mem0, blocks, used, next, mem)
    requires !InUse(blocks0, used0, tail, a)
    ensures Kept(start, tail, gone, blocks0, used0, next0, mem0, blocks, used, next, mem)
  {
    hide BytesOf, InUse;
  }

  /** Only the successor of h differs. */
  ghost predicate OnlyNext(next0: Links, next: Links, h: nat) {
    forall x :: x in next0 && x != h ==> x in next && next[x] == next0[x]
  }

  function Max(a: int, b: int): int { if a < b then b else a }

  /** The payload of a block from b to its successor n. */
  function BytesOf(mem: seq<byte>, start: nat, b: nat, n: nat): seq<byte> {
    if start <= b && b + HEADER <= n <= start + |mem| then mem[b + HEADER - start..n - start] else []
  }

  /** Only the 24 bytes from `at` on differ. */
  ghost predicate Spares(was: seq<byte>, now: seq<byte>, at: int) {
    |now| == |was| && forall k :: 0 <= k < |was| && (k < at || at + HEADER <= k) ==> now[k] == was[k]
  }

  lemma SparesSlice(was: seq<byte>, now: seq<byte>, at: int, lo: nat, hi: nat)
    requires Spares(was, now, at) && lo <= hi <= |was| && (hi <= at || at + HEADER <= lo)
    ensures now[lo..hi] == was[lo..hi]
  {
  }

  lemma PlaceOf(blocks: seq<nat>, start: nat, tail: nat, b: nat) returns (i: nat)
    requires Tiles(blocks, start, tail) && b in blocks && b != tail
    ensures i + 1 < |blocks| && blocks[i] == b && start <= b && b + HEADER <= blocks[i + 1] <= tail
  {
    i :| 0 <= i < |blocks| && blocks[i] == b;
  }

  lemma InOrder(blocks: seq<nat>, i: nat, j: nat)
    requires Ascending(blocks) && i <= j < |blocks|
    ensures blocks[i] <= blocks[j]
  {
  }

  lemma LastFollows(blocks: seq<nat>, i: nat)
    requires i + 1 < |blocks|
    ensures Following(blocks, i) == blocks[i + 1]
  {
  }

  lemma RingIsDistinct(s: seq<nat>, nx: Links, pv: Links)
    requires Ring(s, nx, pv)
    ensures Distinct(s)
  {
  }

  lemma RemoveBehind(h: nat, s: seq<nat>, k: nat)
    requires Distinct([h] + s) && k < |s|
    ensures RemoveAt([h] + s, k + 1) == [h] + RemoveAt(s, k)
    ensures forall x :: x in RemoveAt(s, k) <==> x in s && x != s[k]
  {
    TailDistinct(h, s);
    RemoveAtElements(s, k);
  }

  lemma TailDistinct(h: nat, s: seq<nat>)
    requires Distinct([h] + s)
    ensures Distinct(s) && h !in s
  {
    forall i, j | 0 <= i < j < |s|
      ensures s[i] != s[j]
    {
      assert ([h] + s)[i + 1] == s[i] && ([h] + s)[j + 1] == s[j];
    }
    forall k | 0 <= k < |s|
      ensures s[k] != h
    {
      assert ([h] + s)[k + 1] == s[k] && ([h] + s)[0] == h;
    }
  }
}
