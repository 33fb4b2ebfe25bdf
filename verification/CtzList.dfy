/** Files as backward-linked skip lists of blocks: lfs_ctz_find, lfs_ctz_extend and lfs_ctz_traverse. */
module CtzList {
  import opened Words
  import opened Sequences
  import opened CtzMath

  type Block = seq<byte>

  /** Flash as an array of erase blocks. */
  type Device = seq<Block>

  /** Pointer j of a block. */
  function Pointer(b: Block, j: nat): nat
    requires 4 * j + 4 <= |b|
  {
    FromLe32(b[4 * j..4 * j + 4])
  }

  /** Block k > 0 of a list holds Ctz(k) + 1 pointers, and pointer j names block k - 2^j. */
  ghost predicate PointersOf(b: Block, addrs: seq<nat>, k: nat)
    requires k < |addrs|
  {
    k > 0 ==> 4 * (Ctz(k) + 1) <= |b|
              && forall j :: 0 <= j <= Ctz(k) ==> Exp2(j) <= k && Pointer(b, j) == addrs[k - Exp2(j)]
  }

  /** The blocks of a list, first to last, lie at these addresses. */
  ghost predicate List(dev: Device, blockSize: nat, addrs: seq<nat>) {
    && |addrs| > 0 && |dev| <= WORD_LIMIT
    && (forall k :: 0 <= k < |addrs| ==> 2 <= addrs[k] < |dev| && |dev[addrs[k]]| == blockSize)
    && (forall k :: 0 <= k < |addrs| ==> PointersOf(dev[addrs[k]], addrs, k))
  }

  /** A file of `size` bytes: its list and its head, the last block. */
  ghost predicate File(dev: Device, blockSize: nat, head: nat, size: nat, addrs: seq<nat>) {
    && blockSize >= 16 && 0 < size <= FirstWrong(blockSize)
    && List(dev, blockSize, addrs) && head == Last(addrs)
    && |addrs| - 1 == CtzIndex(blockSize, size - 1).0
  }

  /** The byte at a position, read through the layout. */
  ghost function ByteAt(dev: Device, blockSize: nat, addrs: seq<nat>, pos: nat): int
    requires blockSize >= 16
  {
    var (i, off) := CtzIndex(blockSize, pos);
    if i < |addrs| && addrs[i] < |dev| && 0 <= off < |dev[addrs[i]]| then dev[addrs[i]][off] else -1
  }

  // ---------------------------------------------------------------- lfs_ctz_find

  /** How many hops are still possible: first the pointers grow, then they shrink. */
  function Potential(current: nat, d: nat): nat
    requires d <= current
  {
    if d == 0 then 0
    else Log2(d) + 1 + (if Ctz(current) < Log2(d) then Log2(d) - Ctz(current) else 0)
  }

  lemma HopShrinks(current: nat, d: nat, skip: nat)
    requires 0 < d <= current && skip == Min(Log2(d), Ctz(current))
    ensures Exp2(skip) <= d
    ensures Potential(current - Exp2(skip), d - Exp2(skip)) < Potential(current, d)
  {
    hide Exp2, Log2, Ctz;
    Log2Bounds(d);
    Exp2Mono(skip, Log2(d));
    CtzBack(current, skip);
    var d' := d - Exp2(skip);
    if d' > 0 {
      Log2Mono(d', d);
      if skip == Log2(d) { Log2Less(d', Log2(d)); }
    }
  }

  /** The block that is reached from block `h` by following these pointers, one after the other. */
  function Follow(dev: Device, h: nat, skips: seq<nat>): nat {
    if skips == [] then h
    else
      var a, s := Follow(dev, h, Front(skips)), Last(skips);
      if a < |dev| && 4 * s + 4 <= |dev[a]| then Pointer(dev[a], s) else 0
  }

  /** The place in the list that this leads to from place n. */
  function PlaceAfter(n: int, skips: seq<nat>): int {
    if skips == [] then n else PlaceAfter(n, Front(skips)) - Exp2(Last(skips))
  }

  /** Every pointer followed is one that the block at its place has. */
  ghost predicate Present(n: int, skips: seq<nat>) {
    skips == []
    || (Present(n, Front(skips)) && 0 < PlaceAfter(n, Front(skips)) && Last(skips) <= Ctz(PlaceAfter(n, Front(skips))))
  }

  lemma OneHop(dev: Device, h: nat, n: int, skips: seq<nat>, s: nat)
    requires Follow(dev, h, skips) < |dev| && 4 * s + 4 <= |dev[Follow(dev, h, skips)]|
    requires 0 < PlaceAfter(n, skips) && s <= Ctz(PlaceAfter(n, skips))
    ensures Follow(dev, h, skips + [s]) == Pointer(dev[Follow(dev, h, skips)], s)
    ensures PlaceAfter(n, skips + [s]) == PlaceAfter(n, skips) - Exp2(s)
    ensures Present(n, skips) ==> Present(n, skips + [s])
  {
    Snoc(skips, s);
  }

  /** lfs_ctz_find: the block and offset that hold byte `pos`. `hops` are the pointers followed. */
  method Find(dev: Device, blockSize: nat, head: nat, size: nat, pos: nat, ghost addrs: seq<nat>)
    returns (block: nat, off: int, ghost hops: seq<nat>)
    requires size == 0 || (pos < size && File(dev, blockSize, head, size, addrs))
    requires |dev| <= WORD_LIMIT && blockSize >= 16
    ensures size == 0 ==> block == 0xffff_ffff && off == 0
    ensures size > 0 ==> CtzIndex(blockSize, pos).0 < |addrs| && block == addrs[CtzIndex(blockSize, pos).0]
    ensures size > 0 ==> Locates(blockSize, pos, CtzIndex(blockSize, pos).0, off) && 0 <= off < blockSize
    ensures size > 0 ==> 2 <= block < |dev| && dev[block][off] == ByteAt(dev, blockSize, addrs, pos)
    ensures var d := if size == 0 then 0 else |addrs| - 1 - CtzIndex(blockSize, pos).0;
            |hops| <= if d <= 0 then 0 else 2 * Log2(d) + 1
    ensures size > 0 ==> block == Follow(dev, head, hops) && Present(|addrs| - 1, hops)
                         && PlaceAfter(|addrs| - 1, hops) == CtzIndex(blockSize, pos).0
  {
    hide Follow, PlaceAfter, Present, Exp2, Log2, Ctz, Begin, CtzIndex, FromLe32, FirstWrong, Locates, PointersOf, Potential,
      Pointer;
    if size == 0 {
      return 0xffff_ffff, 0, [];
    }
    var current := CtzIndex(blockSize, size - 1).0;
    var (target, off') := CtzIndex(blockSize, pos);
    IndexMono(blockSize, pos, size - 1);
    IndexIsExact(blockSize, pos);
    IndexInside(blockSize, pos);
    var h := head;
    hops := [];
    NoHops(dev, head, |addrs| - 1);
    ghost var d0 := current - target;
    while current > target
      invariant target <= current < |addrs| && h == addrs[current]
      invariant h == Follow(dev, head, hops) && current == PlaceAfter(|addrs| - 1, hops) && Present(|addrs| - 1, hops)
      invariant |hops| + Potential(current, current - target) <= Potential(|addrs| - 1, d0)
      decreases current
    {
      var log := NextPower(current - target + 1);
      var skip := Min(log - 1, Ctz(current));
      HopShrinks(current, current - target, skip);
      HopIsThere(dev, blockSize, addrs, current, skip);
      OneHop(dev, head, |addrs| - 1, hops, skip);
      h := Pointer(dev[h], skip);
      current := current - Exp2(skip);
      hops := hops + [skip];
    }
    PotentialBound(|addrs| - 1, d0);
    block, off := h, off';
  }

  /** The pointers of a block in the list lead to blocks of the list. */
  lemma HopIsThere(dev: Device, blockSize: nat, addrs: seq<nat>, k: nat, s: nat)
    requires List(dev, blockSize, addrs) && 0 < k < |addrs| && s <= Ctz(k)
    ensures 4 * s + 4 <= blockSize && 1 <= Exp2(s) <= k && Pointer(dev[addrs[k]], s) == addrs[k - Exp2(s)]
  {
    hide Exp2, Ctz, Pointer;
    assert PointersOf(dev[addrs[k]], addrs, k);
    Exp2Positive(s);
  }

  lemma PotentialBound(current: nat, d: nat)
    requires d <= current
    ensures Potential(current, d) <= if d == 0 then 0 else 2 * Log2(d) + 1
  {
  }

  lemma NoHops(dev: Device, h: nat, n: int)
    ensures Follow(dev, h, []) == h && PlaceAfter(n, []) == n && Present(n, [])
  {
  }

  /** lfs_npw2 with compiler intrinsics. */
  function NextPower(n: nat): nat
    requires n >= 2
  {
    Log2(n - 1) + 1
  }

  lemma Exp2Positive(s: nat)
    ensures Exp2(s) >= 1
  {
  }

  /** The offset found lies inside the block, behind its pointers. */
  lemma IndexInside(blockSize: nat, pos: nat)
    requires blockSize >= 16 && pos < FirstWrong(blockSize)
    ensures var (i, off) := CtzIndex(blockSize, pos);
            (if i == 0 then 0 else 4 * (Ctz(i) + 1)) <= off < blockSize
  {
    hide CtzIndex, Exp2, FirstWrong, Ctz;
    var i := CtzIndex(blockSize, pos).0;
    IndexIsExact(blockSize, pos);
    assert Begin(blockSize, i + 1) == Begin(blockSize, i) + Capacity(blockSize, i);
  }

  // ---------------------------------------------------------------- lfs_ctz_traverse

  function Reverse<T>(s: seq<T>): seq<T> {
    if s == [] then [] else [Last(s)] + Reverse(Front(s))
  }

  /** The callback has seen everything but the first k blocks. */
  ghost predicate SeenFrom(visited: seq<nat>, addrs: seq<nat>, k: nat)
    requires k <= |addrs|
  {
    visited + Reverse(addrs[..k]) == Reverse(addrs)
  }

  lemma SeenNothing(addrs: seq<nat>)
    ensures SeenFrom([], addrs, |addrs|)
  {
    assert addrs[..|addrs|] == addrs;
    Neutral(Reverse(addrs));
  }

  lemma SeenOne(visited: seq<nat>, addrs: seq<nat>, k: nat)
    requires k < |addrs| && SeenFrom(visited, addrs, k + 1)
    ensures SeenFrom(visited + [addrs[k]], addrs, k)
  {
    assert Front(addrs[..k + 1]) == addrs[..k];
    Assoc(visited, [addrs[k]], Reverse(addrs[..k]));
  }

  lemma SeenAll(visited: seq<nat>, addrs: seq<nat>)
    requires SeenFrom(visited, addrs, 0)
    ensures visited == Reverse(addrs)
  {
    assert addrs[..0] == [];
    Neutral(visited);
  }

  /** lfs_ctz_traverse: the blocks the callback is given, in order: every block of the list once, last to first. */
  method Traverse(dev: Device, blockSize: nat, head: nat, size: nat, ghost addrs: seq<nat>) returns (visited: seq<nat>)
    requires size == 0 || File(dev, blockSize, head, size, addrs)
    requires |dev| <= WORD_LIMIT && blockSize >= 16
    ensures visited == if size == 0 then [] else Reverse(addrs)
  {
    hide Exp2, Ctz, CtzIndex, FromLe32, FirstWrong, SeenFrom, Reverse;
    visited := [];
    if size == 0 {
      return;
    }
    var h: nat, index: nat := head, CtzIndex(blockSize, size - 1).0;
    SeenNothing(addrs);
    while true
      invariant index < |addrs| && h == addrs[index]
      invariant SeenFrom(visited, addrs, index + 1)
      decreases index
    {
      SeenOne(visited, addrs, index);
      visited := visited + [h];
      if index == 0 {
        SeenAll(visited, addrs);
        return;
      }
      assert PointersOf(dev[h], addrs, index);
      LowPointers(index);
      var count := 2 - index % 2;
      var heads := if count == 1 then [Pointer(dev[h], 0)] else [Pointer(dev[h], 0), Pointer(dev[h], 1)];
      for i := 0 to count - 1
        invariant SeenFrom(visited, addrs, index - i)
      {
        assert i == 0 && index - i == index - 1 + 1;
        SeenOne(visited, addrs, index - 1);
        visited := visited + [heads[i]];
      }
      h := heads[count - 1];
      index := index - count;
    }
  }

  /** Odd blocks have one pointer at least, even ones two. */
  lemma LowPointers(n: nat)
    requires n > 0
    ensures Exp2(0) == 1 && Exp2(1) == 2 && (n % 2 == 0 ==> n >= 2 && Ctz(n) >= 1)
  {
  }

  lemma {:induction false} ReverseLists(s: seq<nat>)
    ensures |Reverse(s)| == |s| && multiset(Reverse(s)) == multiset(s)
    ensures forall i :: 0 <= i < |s| ==> Reverse(s)[i] == s[|s| - 1 - i]
  {
    if s != [] {
      ReverseLists(Front(s));
      FrontLast(s);
    }
  }

  // ---------------------------------------------------------------- lfs_ctz_extend

  /** Only block `b` differs. */
  ghost predicate OnlyTouches(dev: Device, dev': Device, b: nat) {
    |dev'| == |dev| && forall k :: 0 <= k < |dev| && k != b ==> dev'[k] == dev[k]
  }

  lemma PutPointer(b: Block, i: nat, v: nat)
    requires 4 * i + 4 <= |b| && v < WORD_LIMIT
    ensures Pointer(Put(b, 4 * i, Le32(v)), i) == v
    ensures forall j :: 0 <= j < i ==> Pointer(Put(b, 4 * i, Le32(v)), j) == Pointer(b, j)
  {
    hide FromLe32, Le32;
    var r := Put(b, 4 * i, Le32(v));
    WordRoundTrip(v);
    assert r[4 * i..4 * i + 4] == Le32(v);
    forall j | 0 <= j < i
      ensures Pointer(r, j) == Pointer(b, j)
    {
      assert r[4 * j..4 * j + 4] == b[4 * j..4 * j + 4];
    }
  }

  /** Copying the incomplete last block, byte by byte. */
  method CopyBlock(dev: Device, from: nat, to: nat, n: nat) returns (now: Device)
    requires from < |dev| && to < |dev| && from != to && n <= |dev[from]| && n <= |dev[to]|
    ensures OnlyTouches(dev, now, to) && |now[to]| == |dev[to]|
    ensures now[to][..n] == dev[from][..n] && now[to][n..] == dev[to][n..]
  {
    now := dev;
    for i := 0 to n
      invariant OnlyTouches(dev, now, to) && |now[to]| == |dev[to]| && now[to][..i] == dev[from][..i]
      invariant now[to][i..] == dev[to][i..]
    {
      var data := now[from][i];
      RestOnly(dev[to], now[to], i, [data]);
      CopyByte(now[to], i, data, dev[from]);
      now := now[to := Put(now[to], i, [data])];
    }
  }

  /** Writing at the front of what is untouched leaves what comes behind it untouched. */
  lemma RestOnly(was: Block, b: Block, o: nat, bytes: seq<byte>)
    requires |was| == |b| && o + |bytes| <= |b| && b[o..] == was[o..]
    ensures Put(b, o, bytes)[o + |bytes|..] == was[o + |bytes|..]
  {
    PutSlices(b, o, bytes);
    assert b[o + |bytes|..] == b[o..][|bytes|..] && was[o + |bytes|..] == was[o..][|bytes|..];
  }

  lemma CopyByte(b: Block, i: nat, data: byte, source: Block)
    requires i < |b| && i < |source| && source[i] == data && b[..i] == source[..i]
    ensures Put(b, i, [data])[..i + 1] == source[..i + 1]
  {
    var r := Put(b, i, [data]);
    assert r[..i] == b[..i] && r[i] == data;
    SplitAt(r, i);
    SplitAt(source, i);
  }

  /** The pointer that the new block takes from the block named by its previous pointer. */
  lemma NextPointer(addrs: seq<nat>, dev: Device, blockSize: nat, index: nat, i: nat)
    requires List(dev, blockSize, addrs) && index == |addrs| && i < Ctz(index)
    ensures 1 <= Exp2(i) < index && 1 <= Exp2(i + 1) <= index
    ensures 4 * i + 4 <= blockSize && Pointer(dev[addrs[index - Exp2(i)]], i) == addrs[index - Exp2(i + 1)]
  {
    hide Ctz, FromLe32;
    CtzBack(index, i);
    Exp2Positive(i);
    var k := index - Exp2(i);
    assert PointersOf(dev[addrs[k]], addrs, k);
    assert Exp2(i + 1) == 2 * Exp2(i);
  }

  /** The first n pointers of block `index` are in place. */
  ghost predicate HasPointers(b: Block, addrs: seq<nat>, index: nat, n: nat) {
    4 * n <= |b| && index <= |addrs|
    && forall j :: 0 <= j < n ==> 1 <= Exp2(j) <= index && Pointer(b, j) == addrs[index - Exp2(j)]
  }

  lemma PointerWritten(b: Block, addrs: seq<nat>, index: nat, i: nat, h: nat)
    requires HasPointers(b, addrs, index, i) && 4 * i + 4 <= |b| && h < WORD_LIMIT
    requires Exp2(i) <= index && h == addrs[index - Exp2(i)]
    ensures HasPointers(Put(b, 4 * i, Le32(h)), addrs, index, i + 1)
  {
    hide Exp2, FromLe32, Le32, Pointer, Put;
    Exp2Positive(i);
    PutPointer(b, i, h);
  }

  /** The pointers of an appended block: the old head, and pointer i of the block that pointer i names. */
  method WritePointers(dev: Device, blockSize: nat, head: nat, nblock: nat, index: nat, ghost addrs: seq<nat>)
    returns (now: Device)
    requires List(dev, blockSize, addrs) && index == |addrs| && head == Last(addrs)
    requires nblock < |dev| && nblock !in addrs && |dev[nblock]| == blockSize && 4 * (Ctz(index) + 1) <= blockSize
    ensures OnlyTouches(dev, now, nblock) && |now[nblock]| == blockSize
    ensures PointersOf(now[nblock], addrs + [nblock], index)
    ensures now[nblock][4 * (Ctz(index) + 1)..] == dev[nblock][4 * (Ctz(index) + 1)..]
  {
    hide Ctz, Exp2, FromLe32, Le32, Pointer, Put, PointersOf, HasPointers;
    now := dev;
    var h: nat := head;
    var skips := Ctz(index) + 1;
    FirstPointer(now[nblock], addrs, index);
    for i := 0 to skips
      invariant OnlyTouches(dev, now, nblock) && |now[nblock]| == blockSize
      invariant i < skips ==> 1 <= Exp2(i) <= index && h == addrs[index - Exp2(i)]
      invariant HasPointers(now[nblock], addrs, index, i) && now[nblock][4 * i..] == dev[nblock][4 * i..]
    {
      RestOnly(dev[nblock], now[nblock], 4 * i, Le32(h));
      PointerWritten(now[nblock], addrs, index, i, h);
      now := now[nblock := Put(now[nblock], 4 * i, Le32(h))];
      if i != skips - 1 {
        NextPointer(addrs, dev, blockSize, index, i);
        h := Pointer(now[h], i);
      }
    }
    NewPointers(now[nblock], addrs, nblock, index);
  }

  lemma FirstPointer(b: Block, addrs: seq<nat>, index: nat)
    requires index <= |addrs|
    ensures Exp2(0) == 1 && HasPointers(b, addrs, index, 0)
  {
  }

  lemma NewPointers(b: Block, addrs: seq<nat>, nblock: nat, index: nat)
    requires index == |addrs| && index > 0 && HasPointers(b, addrs, index, Ctz(index) + 1)
    ensures PointersOf(b, addrs + [nblock], index)
  {
    hide Ctz, Exp2, Pointer;
  }

  /** A block keeps its pointers when the list changes behind it. */
  lemma PointersKept(b: Block, b': Block, addrs: seq<nat>, addrs': seq<nat>, k: nat)
    requires k < |addrs| && k < |addrs'| && addrs'[..k] == addrs[..k] && PointersOf(b, addrs, k)
    requires k > 0 ==> |b'| == |b| && b'[..4 * (Ctz(k) + 1)] == b[..4 * (Ctz(k) + 1)]
    ensures PointersOf(b', addrs', k)
  {
    hide Ctz, Exp2, FromLe32;
    if k > 0 {
      forall j | 0 <= j <= Ctz(k)
        ensures Exp2(j) <= k && Pointer(b', j) == addrs'[k - Exp2(j)]
      {
        Exp2Positive(j);
        SamePrefixSlice(b, b', 4 * (Ctz(k) + 1), 4 * j, 4 * j + 4);
        assert addrs'[..k][k - Exp2(j)] == addrs[..k][k - Exp2(j)];
      }
    }
  }

  /** Appending a block with its pointers. */
  lemma ListAppended(dev: Device, dev': Device, blockSize: nat, addrs: seq<nat>, nblock: nat)
    requires List(dev, blockSize, addrs) && OnlyTouches(dev, dev', nblock) && nblock !in addrs && 2 <= nblock < |dev|
    requires |dev'[nblock]| == blockSize && PointersOf(dev'[nblock], addrs + [nblock], |addrs|)
    ensures List(dev', blockSize, addrs + [nblock])
  {
    hide PointersOf;
    var all := addrs + [nblock];
    forall k | 0 <= k < |all|
      ensures PointersOf(dev'[all[k]], all, k)
    {
      if k < |addrs| { PointersKept(dev[addrs[k]], dev'[all[k]], addrs, all, k); }
    }
  }

  /** Replacing the last block by a copy of its used part. */
  lemma ListReplaced(dev: Device, dev': Device, blockSize: nat, addrs: seq<nat>, nblock: nat, used: nat)
    requires List(dev, blockSize, addrs) && OnlyTouches(dev, dev', nblock) && nblock !in addrs && 2 <= nblock < |dev|
    requires |dev'[nblock]| == blockSize && used <= blockSize
    requires |addrs| > 1 ==> 4 * (Ctz(|addrs| - 1) + 1) <= used
    requires dev'[nblock][..used] == dev[Last(addrs)][..used]
    ensures List(dev', blockSize, Front(addrs) + [nblock])
  {
    hide PointersOf, Ctz;
    var all := Front(addrs) + [nblock];
    forall k | 0 <= k < |all|
      ensures PointersOf(dev'[all[k]], all, k)
    {
      ReplacedFront(addrs, nblock, k);
      if k < |addrs| - 1 {
        ReplacedKeeps(dev[addrs[k]], dev'[all[k]], addrs, all, k);
      } else {
        ReplacedLast(dev[Last(addrs)], dev'[nblock], addrs, all, used);
      }
    }
  }

  lemma ReplacedKeeps(b: Block, b': Block, addrs: seq<nat>, all: seq<nat>, k: nat)
    requires k < |addrs| && k < |all| && all[..k] == addrs[..k] && PointersOf(b, addrs, k) && b' == b
    ensures PointersOf(b', all, k)
  {
    hide PointersOf, Ctz;
    PointersInside(b, addrs, k);
    PointersKept(b, b', addrs, all, k);
  }

  lemma PointersInside(b: Block, addrs: seq<nat>, k: nat)
    requires k < |addrs| && PointersOf(b, addrs, k)
    ensures k > 0 ==> 4 * (Ctz(k) + 1) <= |b|
  {
  }

  lemma ReplacedLast(b: Block, b': Block, addrs: seq<nat>, all: seq<nat>, used: nat)
    requires addrs != [] && |all| == |addrs| && Front(all) == Front(addrs) && PointersOf(b, addrs, |addrs| - 1)
    requires |b'| == |b| && used <= |b| && b'[..used] == b[..used] && (|addrs| > 1 ==> 4 * (Ctz(|addrs| - 1) + 1) <= used)
    ensures PointersOf(b', all, |all| - 1)
  {
    hide PointersOf, Ctz;
    var n := |addrs| - 1;
    if n > 0 { SamePrefixSlice(b, b', used, 0, 4 * (Ctz(n) + 1)); }
    PointersKept(b, b', addrs, all, n);
  }

  lemma ReplacedFront(addrs: seq<nat>, nblock: nat, k: nat)
    requires k < |addrs|
    ensures var all := Front(addrs) + [nblock];
            Front(all) == Front(addrs) && all[..k] == addrs[..k] && all[k] == if k < |addrs| - 1 then addrs[k] else nblock
  {
  }

  /** The old list as it was after a write outside of it. */
  lemma ListUntouched(dev: Device, dev': Device, blockSize: nat, addrs: seq<nat>, nblock: nat)
    requires List(dev, blockSize, addrs) && OnlyTouches(dev, dev', nblock) && nblock !in addrs
    ensures List(dev', blockSize, addrs)
  {
    hide PointersOf;
  }

  /** The first n bytes of a file read the same through both lists. */
  ghost predicate SamePrefix(dev: Device, addrs: seq<nat>, dev': Device, addrs': seq<nat>, blockSize: nat, n: nat)
    requires blockSize >= 16
  {
    forall pos: nat :: pos < n ==> ByteAt(dev', blockSize, addrs', pos) == ByteAt(dev, blockSize, addrs, pos)
  }

  lemma PrefixAppended(dev: Device, dev': Device, blockSize: nat, addrs: seq<nat>, nblock: nat, size: nat)
    requires OnlyTouches(dev, dev', nblock) && nblock !in addrs && addrs != [] && File(dev, blockSize, Last(addrs), size, addrs)
    ensures SamePrefix(dev, addrs, dev', addrs + [nblock], blockSize, size)
    ensures SamePrefix(dev, addrs, dev', addrs, blockSize, size)
  {
    hide CtzIndex, FirstWrong, PointersOf;
    forall pos: nat | pos < size
      ensures ByteAt(dev', blockSize, addrs + [nblock], pos) == ByteAt(dev, blockSize, addrs, pos)
      ensures ByteAt(dev', blockSize, addrs, pos) == ByteAt(dev, blockSize, addrs, pos)
    {
      IndexMono(blockSize, pos, size - 1);
    }
  }

  lemma PrefixReplaced(dev: Device, dev': Device, blockSize: nat, addrs: seq<nat>, nblock: nat, size: nat, used: nat)
    requires OnlyTouches(dev, dev', nblock) && nblock !in addrs && nblock < |dev| && |dev'[nblock]| == blockSize
    requires addrs != [] && File(dev, blockSize, Last(addrs), size, addrs)
    requires used == CtzIndex(blockSize, size - 1).1 + 1 <= blockSize
    requires dev'[nblock][..used] == dev[Last(addrs)][..used]
    ensures SamePrefix(dev, addrs, dev', Front(addrs) + [nblock], blockSize, size)
  {
    hide CtzIndex, FirstWrong, PointersOf, Begin, Ctz;
    var addrs' := Front(addrs) + [nblock];
    forall pos: nat | pos < size
      ensures ByteAt(dev', blockSize, addrs', pos) == ByteAt(dev, blockSize, addrs, pos)
    {
      IndexMono(blockSize, pos, size - 1);
      var (i, off) := CtzIndex(blockSize, pos);
      IndexInside(blockSize, pos);
      if i == |addrs| - 1 {
        IndexIsExact(blockSize, pos);
        IndexIsExact(blockSize, size - 1);
        assert 0 <= off < used;
        assert dev'[nblock][..used][off] == dev[Last(addrs)][..used][off];
      }
    }
  }

  /** Where the byte behind a file goes: behind the last byte while the last block has room, else behind the pointers
      of a new block. */
  lemma NextByte(blockSize: nat, size: nat)
    requires blockSize >= 16 && 0 < size <= FirstWrong(blockSize)
    ensures var (n, o) := CtzIndex(blockSize, size - 1);
            && 4 * (Ctz(n + 1) + 1) < blockSize
            && if o + 1 != blockSize then Locates(blockSize, size, n, o + 1)
               else Locates(blockSize, size, n + 1, 4 * (Ctz(n + 1) + 1))
  {
    hide CtzIndex, Exp2, FirstWrong, Ctz;
    var n := CtzIndex(blockSize, size - 1).0;
    IndexIsExact(blockSize, size - 1);
    IndexInside(blockSize, size - 1);
    IndexBound(blockSize, size - 1);
    Room(blockSize, n + 1);
    BeginNext(blockSize, n);
    BeginNext(blockSize, n + 1);
  }

  lemma BeginNext(blockSize: nat, k: nat)
    ensures Begin(blockSize, k + 1) == Begin(blockSize, k) + Capacity(blockSize, k)
  {
  }

  lemma Room(blockSize: nat, k: nat)
    requires blockSize >= 16 && 0 < k <= Exp2(MaxBits(blockSize) - 1)
    ensures 4 * (Ctz(k) + 1) < blockSize
  {
    hide Ctz;
    CtzAtMost(k);
    Exp2Positive(MaxBits(blockSize) - 1);
    assert Exp2(MaxBits(blockSize)) == 2 * Exp2(MaxBits(blockSize) - 1);
    if Ctz(k) >= MaxBits(blockSize) { Exp2Mono(MaxBits(blockSize), Ctz(k)); }
  }

  /** The addresses of the list after lfs_ctz_extend. */
  ghost function Extended(blockSize: nat, size: nat, nblock: nat, addrs: seq<nat>): seq<nat>
    requires blockSize >= 16 && (size > 0 ==> addrs != [])
  {
    if size == 0 then [nblock]
    else if CtzIndex(blockSize, size - 1).1 + 1 != blockSize then Front(addrs) + [nblock]
    else addrs + [nblock]
  }

  /** From here on the block is as it was erased. */
  ghost predicate RestErased(now: Device, nblock: nat, erased: Block, off: nat) {
    nblock < |now| && off < |now[nblock]| == |erased| && now[nblock][off..] == erased[off..]
  }

  /** lfs_ctz_extend, with the block the allocator handed out and what an erase leaves in it. */
  method Extend(dev: Device, blockSize: nat, head: nat, size: nat, nblock: nat, erased: Block, ghost addrs: seq<nat>)
    returns (now: Device, block: nat, off: nat)
    requires blockSize >= 16 && |dev| <= WORD_LIMIT && 2 <= nblock < |dev| && |erased| == blockSize
    requires size > 0 ==> File(dev, blockSize, head, size, addrs) && nblock !in addrs
    ensures block == nblock && OnlyTouches(dev, now, nblock)
    ensures List(now, blockSize, Extended(blockSize, size, nblock, addrs))
    ensures Locates(blockSize, size, |Extended(blockSize, size, nblock, addrs)| - 1, off)
    ensures RestErased(now, nblock, erased, off)
    ensures size > 0 ==> SamePrefix(dev, addrs, now, Extended(blockSize, size, nblock, addrs), blockSize, size)
    ensures size > 0 ==> List(now, blockSize, addrs) && SamePrefix(dev, addrs, now, addrs, blockSize, size)
  {
    hide CtzIndex, FirstWrong, PointersOf, Ctz, Exp2, SamePrefix, Locates;
    now := dev[nblock := erased];
    block := nblock;
    if size == 0 {
      OneBlock(blockSize, now, nblock);
      return now, block, 0;
    }
    var (n, o) := CtzIndex(blockSize, size - 1);
    NextByte(blockSize, size);
    IndexInside(blockSize, size - 1);
    ListUntouched(dev, now, blockSize, addrs, nblock);
    ghost var mid := now;
    if o + 1 != blockSize {
      // room is left: a copy of the last block takes its place
      now := CopyBlock(now, head, nblock, o + 1);
      ListReplaced(dev, now, blockSize, addrs, nblock, o + 1);
      PrefixReplaced(dev, now, blockSize, addrs, nblock, size, o + 1);
      off := o + 1;
    } else {
      // a full last block: a new one points back
      var index := n + 1;
      now := WritePointers(now, blockSize, head, nblock, index, addrs);
      ListAppended(dev, now, blockSize, addrs, nblock);
      off := 4 * (Ctz(index) + 1);
    }
    ListUntouched(dev, now, blockSize, addrs, nblock);
    PrefixAppended(dev, now, blockSize, addrs, nblock, size);
  }

  lemma OneBlock(blockSize: nat, dev: Device, nblock: nat)
    requires blockSize >= 16 && 2 <= nblock < |dev| <= WORD_LIMIT && |dev[nblock]| == blockSize
    ensures List(dev, blockSize, [nblock]) && Locates(blockSize, 0, 0, 0)
  {
    BeginFirst(blockSize);
  }

  /** After the next byte is written where lfs_ctz_extend said, the longer file is well formed again. */
  lemma ExtendedIsFile(dev: Device, dev': Device, blockSize: nat, size: nat, addrs: seq<nat>, off: nat, data: byte)
    requires blockSize >= 16 && addrs != [] && size < FirstWrong(blockSize)
    requires List(dev, blockSize, addrs) && Locates(blockSize, size, |addrs| - 1, off) && off < blockSize
    requires dev' == dev[Last(addrs) := Put(dev[Last(addrs)], off, [data])]
    requires forall i, j :: 0 <= i < j < |addrs| ==> addrs[i] != addrs[j]
    requires |addrs| <= Exp2(MaxBits(blockSize))
    ensures File(dev', blockSize, Last(addrs), size + 1, addrs)
    ensures ByteAt(dev', blockSize, addrs, size) == data
    ensures SamePrefix(dev, addrs, dev', addrs, blockSize, size)
  {
    hide CtzIndex, FirstWrong, PointersOf, Ctz, Exp2, Begin, Locates;
    var n := |addrs| - 1;
    IndexIsExact(blockSize, size);
    IndexBound(blockSize, size);
    Exp2Mono(MaxBits(blockSize) - 1, MaxBits(blockSize));
    LocatesOnce(blockSize, size, n, off, CtzIndex(blockSize, size).0, CtzIndex(blockSize, size).1, MaxBits(blockSize));
    IndexInside(blockSize, size);
    forall k | 0 <= k < |addrs|
      ensures PointersOf(dev'[addrs[k]], addrs, k)
    {
      if k < n {
        assert dev'[addrs[k]] == dev[addrs[k]];
        PointersKept(dev[addrs[k]], dev'[addrs[k]], addrs, addrs, k);
      } else {
        PrefixBefore(dev[Last(addrs)], off, data, if n == 0 then 0 else 4 * (Ctz(n) + 1));
        PointersKept(dev[addrs[n]], dev'[addrs[n]], addrs, addrs, n);
      }
    }
    forall pos: nat | pos < size
      ensures ByteAt(dev', blockSize, addrs, pos) == ByteAt(dev, blockSize, addrs, pos)
    {
      IndexMono(blockSize, pos, size);
      SamePlaceSamePos(blockSize, pos, size);
    }
  }

  lemma PrefixBefore(b: Block, off: nat, data: byte, p: nat)
    requires p <= off < |b|
    ensures Put(b, off, [data])[..p] == b[..p]
  {
  }

  lemma SamePlaceSamePos(blockSize: nat, pos: nat, size: nat)
    requires blockSize >= 16 && pos < size < FirstWrong(blockSize)
    ensures CtzIndex(blockSize, pos) != CtzIndex(blockSize, size)
  {
    hide CtzIndex, FirstWrong, Ctz, Begin;
    IndexIsExact(blockSize, pos);
    IndexIsExact(blockSize, size);
  }
}
