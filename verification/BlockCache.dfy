/** The caching block device operations: lfs_bd_read, lfs_bd_prog, lfs_bd_flush and lfs_bd_sync. */
module BlockCache {
  import opened Words
  import opened Sequences
  import Tags

  datatype Status = Ok | Corrupt

  /** lfs_cache_t */
  class Cache {
    var block: nat
    var off: nat
    var size: nat
    const buffer: array<byte>

    constructor (cacheSize: nat)
      ensures block == Tags.BLOCK_NULL && fresh(buffer) && buffer.Length == cacheSize
      ensures forall k :: 0 <= k < cacheSize ==> buffer[k] == 0xff
    {
      block, off, size := Tags.BLOCK_NULL, 0, 0;
      buffer := new byte[cacheSize](_ => 0xff);
    }

    predicate Active()
      reads this
    {
      block != Tags.BLOCK_NULL
    }

    /** lfs_cache_drop */
    method Drop()
      modifies this`block
      ensures !Active()
    {
      block := Tags.BLOCK_NULL;
    }

    /** lfs_cache_zero */
    method Zero()
      modifies this`block, buffer
      ensures !Active() && forall k :: 0 <= k < buffer.Length ==> buffer[k] == 0xff
    {
      for k := 0 to buffer.Length
        invariant forall j :: 0 <= j < k ==> buffer[j] == 0xff
      {
        buffer[k] := 0xff;
      }
      block := Tags.BLOCK_NULL;
    }
  }

  datatype Order = Equal | Less | Greater

  /** The order of two byte strings of the same length: decided by the first byte in which they differ. */
  function Compared(a: seq<byte>, b: seq<byte>): Order
    requires |a| == |b|
  {
    if a == [] then Equal
    else if a[0] < b[0] then Less
    else if a[0] > b[0] then Greater
    else Compared(a[1..], b[1..])
  }

  lemma {:induction false} SameCompared(a: seq<byte>)
    ensures Compared(a, a) == Equal
  {
    if a != [] { SameCompared(a[1..]); }
  }

  lemma {:induction false} FirstDifference(a: seq<byte>, b: seq<byte>, i: nat)
    requires |a| == |b| && i < |a| && a[..i] == b[..i]
    ensures a[i] != b[i] ==> Compared(a, b) == if a[i] < b[i] then Less else Greater
  {
    if i > 0 {
      assert a[0] == a[..i][0] && b[0] == b[..i][0];
      assert a[1..][..i - 1] == a[..i][1..] && b[1..][..i - 1] == b[..i][1..];
      FirstDifference(a[1..], b[1..], i - 1);
    }
  }

  lemma AllCompared(a: seq<byte>, b: seq<byte>, k: nat)
    requires k == |a| <= |b| && a[..k] == b[..k]
    ensures Compared(a, b[..k]) == Equal
  {
    assert a[..k] == a;
    SameCompared(a);
  }

  lemma CutDifference(a: seq<byte>, b: seq<byte>, k: nat, i: nat)
    requires i < k == |a| <= |b| && a[..i] == b[..i] && a[i] != b[i]
    ensures Compared(a, b[..k]) == if a[i] < b[i] then Less else Greater
  {
    assert b[..k][..i] == b[..i] && b[..k][i] == b[i];
    FirstDifference(a, b[..k], i);
  }

  lemma MultipleOfMultiple(a: nat, b: nat, c: nat)
    requires b > 0 && c > 0 && a % b == 0 && b % c == 0
    ensures a % c == 0
  {
    var x, y := a / b, b / c;
    assert a == x * b && b == y * c;
    assert a == (x * y) * c by { assert x * (y * c) == (x * y) * c; }
    ModUnique(a, c, x * y, 0);
  }

  lemma SumOfMultiples(a: nat, b: nat, c: nat)
    requires c > 0 && a % c == 0 && b % c == 0
    ensures (a + b) % c == 0
  {
    var x, y := a / c, b / c;
    assert a == x * c && b == y * c;
    assert (x + y) * c == x * c + y * c;
    ModUnique(a + b, c, x + y, 0);
  }

  /** The fields and bytes of a cache are these. */
  ghost predicate Same(c: Cache, block: nat, off: nat, size: nat, bytes: seq<byte>)
    reads c, c.buffer
  {
    c.block == block && c.off == off && c.size == size && c.buffer[..] == bytes
  }

  /** memcpy into a buffer */
  method CopyInto(a: array<byte>, at: nat, data: seq<byte>)
    requires at + |data| <= a.Length
    modifies a
    ensures a[..] == Put(old(a[..]), at, data)
  {
    ghost var was := a[..];
    assert data[..0] == [];
    PutNothing(was, at);
    for k := 0 to |data|
      invariant a[..] == Put(was, at, data[..k])
    {
      a[at + k] := data[k];
      PutOneMore(was, at, data, k);
    }
    assert data[..|data|] == data;
  }

  class BlockDevice {
    const readSize: nat
    const progSize: nat
    const cacheSize: nat
    const blockSize: nat
    var flash: seq<seq<byte>>

    predicate ValidConfig() {
      && readSize > 0 && progSize > 0 && cacheSize > 0
      && cacheSize % readSize == 0 && cacheSize % progSize == 0 && blockSize % cacheSize == 0
    }

    ghost predicate Valid()
      reads this
    {
      ValidConfig() && |flash| < Tags.BLOCK_NULL && forall b :: 0 <= b < |flash| ==> |flash[b]| == blockSize
    }

    ghost predicate ValidCache(c: Cache)
      reads this, c
    {
      && c.buffer.Length == cacheSize
      && (c.Active() ==> c.block < |flash| && c.size <= cacheSize && c.off + c.size <= blockSize)
    }

    /** The read cache shows what is on flash. */
    ghost predicate Coherent(r: Cache)
      requires Valid() && ValidCache(r)
      reads this, r, r.buffer
    {
      r.Active() ==> r.buffer[..r.size] == flash[r.block][r.off..r.off + r.size]
    }

    /** What a reader sees of a block: flash, overlaid by the program cache when there is one. */
    ghost function View(p: Cache?, b: nat): (v: seq<byte>)
      requires Valid() && b < |flash| && (p != null ==> ValidCache(p))
      reads this, p, if p != null then {p.buffer} else {}
      ensures |v| == blockSize
    {
      if p != null && p.block == b then Put(flash[b], p.off, p.buffer[..p.size]) else flash[b]
    }

    /** The range of offsets a miss loads. */
    function LoadFrom(off: nat): nat
      requires ValidConfig()
    {
      AlignDown(off, readSize)
    }

    function LoadSize(off: nat, hint: nat): nat
      requires ValidConfig() && off < blockSize
    {
      Min(Min(AlignUp(off + hint, readSize), blockSize) - LoadFrom(off), cacheSize)
    }

    lemma ReadFitsCache()
      requires ValidConfig()
      ensures readSize <= cacheSize
    {
      assert cacheSize == (cacheSize / readSize) * readSize;
      if cacheSize / readSize >= 1 { MulAtLeast(cacheSize / readSize, readSize); }
    }

    /** Where a load with hint 0 loads nothing. */
    predicate Aligned(off: nat)
      requires ValidConfig()
    {
      off % readSize == 0
    }

    /** A miss makes progress for every hint but zero, and for zero unless the offset is a multiple of the read size. */
    lemma LoadCovers(off: nat, hint: nat)
      requires ValidConfig() && off < blockSize
      ensures LoadFrom(off) <= off && LoadFrom(off) + LoadSize(off, hint) <= blockSize && LoadSize(off, hint) <= cacheSize
      ensures off < LoadFrom(off) + LoadSize(off, hint) <==> hint >= 1 || !Aligned(off)
    {
      hide AlignDown, AlignUp;
      ReadFitsCache();
      if hint == 0 && off % readSize == 0 {
        MultiplesApart(AlignUp(off, readSize), off, readSize);
      }
    }

    /** The device's read callback into the cache. */
    method Load(r: Cache, block: nat, from: nat, n: nat)
      requires Valid() && r.buffer.Length == cacheSize && block < |flash| && from + n <= blockSize && n <= cacheSize
      modifies r, r.buffer
      ensures ValidCache(r) && Coherent(r) && r.block == block && r.off == from && r.size == n
    {
      r.block, r.off, r.size := block, from, n;
      for k := 0 to n
        modifies r.buffer
        invariant r.buffer[..k] == flash[block][from..from + k]
      {
        r.buffer[k] := flash[block][from + k];
      }
    }

    /** The bytes a cache holds for `off` on are those of `v`, up to n of them. */
    lemma HitBytes(v: seq<byte>, c: seq<byte>, coff: nat, off: nat, n: nat)
      requires coff <= off && off + n <= coff + |c| && coff + |c| <= |v| && v[coff..coff + |c|] == c
      ensures c[off - coff..off - coff + n] == v[off..off + n]
    {
      Slice(v, coff, coff + |c|, off - coff, off - coff + n);
    }

    /** Copying out of a cache whose bytes are those of `v`. */
    method CopyFrom(c: Cache, o: nat, n: nat, ghost v: seq<byte>) returns (piece: seq<byte>)
      requires c.size <= c.buffer.Length && c.off <= o && o + n <= c.off + c.size <= |v|
      requires v[c.off..c.off + c.size] == c.buffer[..c.size]
      ensures piece == v[o..o + n]
    {
      piece := c.buffer[o - c.off..o - c.off + n];
      HitBytes(v, c.buffer[..c.size], c.off, o, n);
      Slice(c.buffer[..], 0, c.size, o - c.off, o - c.off + n);
      assert c.buffer[..][0..c.size] == c.buffer[..c.size];
    }

    /** Where the program cache does not reach, a reader sees flash. */
    lemma ViewOutside(p: Cache?, b: nat, off: nat, n: nat)
      requires Valid() && b < |flash| && (p != null ==> ValidCache(p)) && off + n <= blockSize
      requires p != null && p.block == b ==> off + n <= p.off || p.off + p.size <= off
      ensures View(p, b)[off..off + n] == flash[b][off..off + n]
    {
      if p != null && p.block == b {
        PutOutside(flash[b], p.off, p.buffer[..p.size], off, n);
      }
    }

    lemma ViewSize(p: Cache?, b: nat)
      requires Valid() && b < |flash| && (p != null ==> ValidCache(p))
      ensures |View(p, b)| == blockSize
    {
    }

    lemma ViewInside(p: Cache, b: nat)
      requires Valid() && b < |flash| && ValidCache(p) && p.block == b
      ensures View(p, b)[p.off..p.off + p.size] == p.buffer[..p.size]
    {
      PutInside(flash[b], p.off, p.buffer[..p.size]);
    }

    predicate Hits(r: Cache, block: nat, o: nat)
      reads r
    {
      r.block == block && r.off <= o < r.off + r.size
    }

    /** One turn of the loop of lfs_bd_read: some bytes from a cache, or a load after which the read cache has the next. */
    method ReadSome(p: Cache?, r: Cache, hint: nat, block: nat, o: nat, left: nat) returns (piece: seq<byte>)
      requires Valid() && ValidCache(r) && Coherent(r) && block < |flash| && left > 0 && o + left <= blockSize
      requires hint >= 1 || !Aligned(o)
      requires p != null ==> ValidCache(p) && p != r && p.buffer != r.buffer
      modifies r, r.buffer
      ensures ValidCache(r) && Coherent(r) && |piece| <= left && piece == View(p, block)[o..o + |piece|]
      ensures piece == [] ==> Hits(r, block, o) && !old(Hits(r, block, o))
    {
      hide View, Coherent, LoadFrom, LoadSize, Aligned;
      var diff := left;
      ViewSize(p, block);
      if p != null && block == p.block && o < p.off + p.size {
        if o >= p.off {
          // pending bytes are newer than flash
          diff := Min(diff, p.size - (o - p.off));
          ViewInside(p, block);
          piece := CopyFrom(p, o, diff, View(p, block));
          return;
        }
        // stop where the pending bytes begin
        diff := Min(diff, p.off - o);
      }
      if r.block == block && o < r.off + r.size {
        if o >= r.off {
          // a hit
          diff := Min(diff, r.size - (o - r.off));
          CoherentBytes(r);
          piece := CopyFrom(r, o, diff, flash[block]);
          ViewOutside(p, block, o, diff);
          return;
        }
        // stop where the loaded bytes begin
        diff := Min(diff, r.off - o);
      }
      // neither cache reaches here: the next turn finds the byte loaded
      LoadCovers(o, hint);
      Load(r, block, LoadFrom(o), LoadSize(o, hint));
      piece := [];
    }

    /** lfs_bd_read; with hint 0 no byte of the range may be at a multiple of the read size, where a miss loads nothing. */
    method Read(p: Cache?, r: Cache, hint: nat, block: nat, off: nat, size: nat) returns (s: Status, data: seq<byte>)
      requires Valid() && ValidCache(r) && Coherent(r) && block < |flash|
      requires hint >= 1 || off + size > blockSize || forall o :: off <= o < off + size ==> !Aligned(o)
      requires p != null ==> ValidCache(p) && p != r && p.buffer != r.buffer
      modifies r, r.buffer
      ensures Valid() && ValidCache(r) && Coherent(r)
      ensures s == if off + size > blockSize then Corrupt else Ok
      ensures s == Ok ==> data == View(p, block)[off..off + size]
    {
      hide View, Coherent, Aligned;
      data := [];
      if off + size > blockSize {
        return Corrupt, data;
      }
      ghost var view := View(p, block);
      ViewSize(p, block);
      var o: nat, left: nat := off, size;
      while left > 0
        invariant Valid() && ValidCache(r) && Coherent(r)
        invariant o + left == off + size && off <= o && |view| == blockSize && view == View(p, block)
        invariant data == view[off..o]
        decreases left, if Hits(r, block, o) then 0 else 1
      {
        var piece := ReadSome(p, r, hint, block, o, left);
        Grow(view, off, o, |piece|, data, piece);
        data := data + piece;
        o, left := o + |piece|, left - |piece|;
      }
      return Ok, data;
    }

    lemma CoherentBytes(r: Cache)
      requires Valid() && ValidCache(r) && Coherent(r) && r.Active()
      ensures r.buffer[..r.size] == flash[r.block][r.off..r.off + r.size]
    {
    }

    /** How much of a range lies inside a block. */
    function Inside(off: nat, n: nat): (k: nat)
      ensures k <= n && (off + n <= blockSize ==> k == n) && (k < n ==> off + k >= blockSize) && (k > 0 ==> off + k <= blockSize)
    {
      if off + n <= blockSize then n else if off <= blockSize then blockSize - off else 0
    }

    lemma InsideEnds(off: nat, n: nat)
      ensures var k := Inside(off, n);
              k <= n && (off + n <= blockSize ==> k == n) && (k < n ==> off + k >= blockSize) && (k > 0 ==> off + k <= blockSize)
    {
    }

    /** lfs_bd_cmp: `data` against what a reader sees. Bytes are compared one by one, so that a difference is found before
        the end of the block is. */
    method Compare(p: Cache?, r: Cache, hint: nat, block: nat, off: nat, data: seq<byte>) returns (s: Status, c: Order)
      requires Valid() && ValidCache(r) && Coherent(r) && block < |flash| && hint >= |data|
      requires p != null ==> ValidCache(p) && p != r && p.buffer != r.buffer
      modifies r, r.buffer
      ensures Valid() && ValidCache(r) && Coherent(r)
      ensures var k := Inside(off, |data|);
              var seen := if k == 0 then [] else View(p, block)[off..off + k];
              c == Compared(seen, data[..k]) && s == if c == Equal && k < |data| then Corrupt else Ok
    {
      hide Coherent, View, Compared, Inside;
      ghost var k := Inside(off, |data|);
      InsideEnds(off, |data|);
      ViewSize(p, block);
      ghost var view := View(p, block);
      ghost var there := if k == 0 then [] else view[off..off + k];
      for i := 0 to |data|
        invariant Valid() && ValidCache(r) && Coherent(r) && View(p, block) == view
        invariant i <= k && there[..i] == data[..i]
      {
        var dat;
        s, dat := Read(p, r, hint - i, block, off + i, 1);
        if s != Ok {
          AllCompared(there, data, i);
          return Corrupt, Equal;
        }
        assert dat[0] == there[i];
        if dat[0] != data[i] {
          CutDifference(there, data, k, i);
          return Ok, if dat[0] < data[i] then Less else Greater;
        }
        SplitAt(there, i);
        SplitAt(data, i);
      }
      AllCompared(there, data, |data|);
      return Ok, Equal;
    }

    /** What was just programmed compares equal. */
    lemma WholeCompared(was: seq<seq<byte>>, block: nat, off: nat, bytes: seq<byte>)
      requires Valid() && block < |was| && |was[block]| == blockSize && off + |bytes| <= blockSize
      requires flash == was[block := Put(was[block], off, bytes)]
      ensures View(null, block)[off..off + |bytes|] == bytes && bytes[..|bytes|] == bytes && Compared(bytes, bytes) == Equal
    {
      PutInside(was[block], off, bytes);
      SameCompared(bytes);
    }

    /** A program cache with something to write. */
    ghost predicate Pending(p: Cache)
      reads this, p
    {
      ValidConfig() && p.Active() && ValidCache(p) && p.off % progSize == 0
    }

    /** The bytes a flush programs: whole units. */
    lemma UnitsFit(p: Cache)
      requires Valid() && Pending(p)
      ensures AlignUp(p.size, progSize) <= cacheSize && p.off + AlignUp(p.size, progSize) <= blockSize
    {
      hide AlignUp;
      AlignUpInside(p.size, progSize, cacheSize);
      BlockInUnits();
      SumOfMultiples(p.off, AlignUp(p.size, progSize), progSize);
      MultiplesApart(p.off + AlignUp(p.size, progSize), blockSize, progSize);
    }

    lemma BlockInUnits()
      requires ValidConfig()
      ensures blockSize % progSize == 0
    {
      MultipleOfMultiple(blockSize, cacheSize, progSize);
    }

    /** lfs_bd_flush. The read cache may hold anything before; it is right afterwards when the flush was validated and
        had something to write, and is as right or wrong as before otherwise. */
    method Flush(p: Cache, r: Cache, validate: bool) returns (s: Status)
      requires Valid() && ValidCache(p) && ValidCache(r) && (p.Active() ==> Pending(p))
      requires p != r && p.buffer != r.buffer
      modifies `flash, p, p.buffer, r, r.buffer
      ensures Valid() && s == Ok && !p.Active() && ValidCache(p) && ValidCache(r) && |flash| == |old(flash)|
      ensures flash == if old(p.Active()) then old(Flushed(p)) else old(flash)
      ensures old(p.Active()) && validate ==> Coherent(r)
      ensures !old(p.Active()) ==> (Coherent(r) <==> old(Coherent(r)))
      ensures !old(p.Active()) || !validate ==> Same(r, old(r.block), old(r.off), old(r.size), old(r.buffer[..]))
      ensures !old(p.Active()) ==> p.buffer[..] == old(p.buffer[..])
    {
      hide AlignUp;
      if p.Active() {
        UnitsFit(p);
        var diff := AlignUp(p.size, progSize);
        ghost var was := flash;
        var bytes := p.buffer[..diff];
        flash := flash[p.block := Put(flash[p.block], p.off, bytes)];
        if validate {
          // compare what flash holds now
          r.Drop();
          PutInside(was[p.block], p.off, bytes);
          var res, c := Compare(null, r, diff, p.block, p.off, bytes);
          WholeCompared(was, p.block, p.off, bytes);
          if res != Ok || c != Equal {
            return Corrupt;
          }
        }
        p.Zero();
      }
      return Ok;
    }

    /** Flash with the pending bytes programmed. */
    ghost function Flushed(p: Cache): (f: seq<seq<byte>>)
      requires Valid() && Pending(p)
      reads this, p, p.buffer
    {
      UnitsFit(p);
      flash[p.block := Put(flash[p.block], p.off, p.buffer[..AlignUp(p.size, progSize)])]
    }

    /** lfs_bd_sync */
    method Sync(p: Cache, r: Cache, validate: bool) returns (s: Status)
      requires Valid() && ValidCache(p) && ValidCache(r) && (p.Active() ==> Pending(p))
      requires p != r && p.buffer != r.buffer
      modifies `flash, p, p.buffer, r, r.buffer
      ensures Valid() && s == Ok && !p.Active() && ValidCache(p) && ValidCache(r) && Coherent(r) && |flash| == |old(flash)|
      ensures flash == if old(p.Active()) then old(Flushed(p)) else old(flash)
    {
      r.Drop();
      s := Flush(p, r, validate);
    }

    /** Where the window of a program cache that takes bytes at `off` begins, and how much of it is already pending. */
    function WindowStart(p: Cache, off: nat): nat
      requires ValidConfig()
      reads p
    {
      if p.Active() then p.off else AlignDown(off, progSize)
    }

    function WindowEnd(p: Cache, off: nat): nat
      requires ValidConfig()
      reads p
    {
      if p.Active() then p.off + p.size else AlignDown(off, progSize)
    }

    /** The program cache can take bytes at `off`: it is empty, or its window reaches there. */
    ghost predicate Takes(p: Cache, block: nat, off: nat)
      reads this, p
    {
      && ValidConfig() && ValidCache(p)
      && (p.Active() ==> Pending(p) && p.block == block && p.off <= off < p.off + cacheSize && p.size < cacheSize)
    }

    /** Bytes the cache skips over, between what is pending and `off`, show what its buffer happens to hold. */
    ghost function Skipped(p: Cache, block: nat, off: nat): (v: seq<byte>)
      requires Valid() && Takes(p, block, off) && block < |flash| && off <= blockSize
      reads this, p, p.buffer
      ensures |v| == blockSize
    {
      WindowInside(p, block, off);
      Fill(View(p, block), WindowStart(p, off), WindowEnd(p, off), off, p.buffer[..])
    }

    lemma WindowInside(p: Cache, block: nat, off: nat)
      requires Valid() && Takes(p, block, off) && block < |flash| && off <= blockSize
      ensures WindowStart(p, off) <= WindowEnd(p, off) && off - WindowStart(p, off) <= cacheSize
    {
      ProgFitsCache();
    }

    lemma ProgFitsCache()
      requires ValidConfig()
      ensures progSize <= cacheSize
    {
      assert cacheSize == (cacheSize / progSize) * progSize;
      if cacheSize / progSize >= 1 { MulAtLeast(cacheSize / progSize, progSize); }
    }

    /** Preparing an empty program cache changes nothing a reader sees. */
    method Prepare(p: Cache, block: nat, off: nat)
      requires Valid() && Takes(p, block, off) && block < |flash| && off < blockSize && !p.Active()
      modifies p
      ensures Takes(p, block, off) && p.Active() && p.size == 0 && p.off <= off && p.buffer[..] == old(p.buffer[..])
      ensures p.off == old(WindowStart(p, off))
      ensures Skipped(p, block, off) == old(Skipped(p, block, off))
    {
      ProgFitsCache();
      ghost var f := flash[block];
      p.block := block;
      p.off := AlignDown(off, progSize);
      p.size := 0;
      assert p.buffer[..0] == [];
      PutNothing(f, p.off);
    }

    lemma ViewActive(p: Cache, block: nat)
      requires Valid() && ValidCache(p) && p.Active() && p.block == block
      ensures View(p, block) == Put(flash[block], p.off, p.buffer[..p.size])
    {
    }

    lemma SkippedActive(p: Cache, block: nat, off: nat)
      requires Valid() && Takes(p, block, off) && p.Active() && block < |flash| && off <= blockSize
      ensures Skipped(p, block, off)
              == Fill(Put(flash[block], p.off, p.buffer[..p.size]), p.off, p.off + p.size, off, p.buffer[..])
    {
      hide Put, Fill;
    }

    /** Copying into the program cache: a reader sees the bytes at once. */
    method Copy(p: Cache, block: nat, off: nat, data: seq<byte>) returns (n: nat)
      requires Valid() && Takes(p, block, off) && p.Active() && block < |flash|
      requires |data| > 0 && off + |data| <= blockSize
      modifies p`size, p.buffer
      ensures n == Min(|data|, cacheSize - (off - p.off)) && ValidCache(p) && Pending(p)
      ensures p.size == (if old(p.size) > off + n - p.off then old(p.size) else off + n - p.off)
      ensures View(p, block) == Put(old(Skipped(p, block, off)), off, data[..n])
    {
      hide Valid, Put, Fill, View, Skipped, WindowStart, WindowEnd;
      n := Min(|data|, cacheSize - (off - p.off));
      ghost var f, buf, size0 := flash[block], p.buffer[..], p.size;
      assert p.buffer[..size0] == buf[..size0];
      SkippedActive(p, block, off);
      CopyInto(p.buffer, off - p.off, data[..n]);
      if p.size < off + n - p.off {
        p.size := off + n - p.off;
      }
      assert p.buffer[..p.size] == p.buffer[..][..p.size];
      ViewActive(p, block);
      Overlay(f, p.off, buf, size0, off - p.off, data[..n]);
    }

    /** The next bytes come right behind what was programmed last. */
    ghost predicate Continues(p: Cache, block: nat, off: nat)
      reads this, p
    {
      Takes(p, block, off) && (if p.Active() then off <= p.off + p.size else off % progSize == 0)
    }

    predicate EndsAt(p: Cache, off: nat)
      reads p
    {
      p.Active() ==> off == p.off + p.size
    }

    lemma NothingSkipped(p: Cache, block: nat, off: nat)
      requires Valid() && Continues(p, block, off) && block < |flash| && off <= blockSize
      ensures Skipped(p, block, off) == View(p, block)
    {
      hide Valid, View;
      if !p.Active() { MultiplesApart(off, AlignDown(off, progSize), progSize); }
    }

    lemma FullFlush(p: Cache)
      requires Valid() && Pending(p) && p.size == cacheSize && p.block < |flash|
      ensures Flushed(p) == flash[p.block := View(p, p.block)]
    {
      hide AlignUp, Put;
      MultiplesApart(AlignUp(cacheSize, progSize), cacheSize, progSize);
    }

    /** The program cache's windows follow each other from `start` on, each a full cache long: what has been programmed
        up to `o` beyond a whole number of windows is pending. */
    ghost predicate Windows(p: Cache, start: nat, o: nat)
      reads this, p
    {
      && ValidConfig() && start <= o
      && if p.Active() then start <= p.off && (p.off - start) % cacheSize == 0 && p.size > 0
         else (o - start) % cacheSize == 0
    }

    lemma WindowsOn(p: Cache, start: nat, w: nat, o: nat)
      requires Windows(p, w, o) && start <= w && (w - start) % cacheSize == 0
      ensures Windows(p, start, o)
    {
      SumOfMultiples(w - start, if p.Active() then p.off - w else o - w, cacheSize);
    }

    /** Something is pending exactly when the bytes programmed do not fill whole windows. */
    lemma PendingRest(p: Cache, block: nat, start: nat, o: nat)
      requires Windows(p, start, o) && Continues(p, block, o) && EndsAt(p, o)
      ensures p.Active() <==> (o - start) % cacheSize != 0
    {
      if p.Active() {
        var q := (p.off - start) / cacheSize;
        ModUnique(o - start, cacheSize, q, p.size);
      }
    }

    /** One turn of the loop of lfs_bd_prog: prepare the cache if it is empty, fill it, flush it eagerly when it is full. */
    method FillUp(p: Cache, r: Cache, validate: bool, block: nat, off: nat, data: seq<byte>) returns (s: Status, n: nat)
      requires Valid() && Takes(p, block, off) && block < |flash|
      requires |data| > 0 && off + |data| <= blockSize
      requires ValidCache(r) && p != r && p.buffer != r.buffer
      modifies `flash, p, p.buffer, r, r.buffer
      ensures Valid() && s == Ok && 0 < n <= |data| && ValidCache(r) && |flash| == |old(flash)| && Only(old(flash), flash, block)
      ensures Continues(p, block, off + n) && (old(WindowEnd(p, off)) <= off ==> EndsAt(p, off + n))
      ensures View(p, block) == Put(old(Skipped(p, block, off)), off, data[..n])
      ensures Windows(p, old(WindowStart(p, off)), off + n)
      ensures validate && (old(Coherent(r)) || !p.Active()) ==> Coherent(r)
      ensures !validate ==> Same(r, old(r.block), old(r.off), old(r.size), old(r.buffer[..]))
    {
      hide Put, Fill, View, Skipped, Flushed, AlignDown, Windows;
      s := Ok;
      ghost var start := WindowStart(p, off);
      if !p.Active() {
        // an empty cache starts at the unit the bytes fall into
        Prepare(p, block, off);
      }
      n := Copy(p, block, off, data);
      if p.size == cacheSize {
        // a full cache is written at once
        FullFlush(p);
        SumOfMultiples(p.off, cacheSize, progSize);
        s := Flush(p, r, validate);
        ViewOfIdle(p, block);
      }
      OneWindow(p, start, off + n);
    }

    lemma OneWindow(p: Cache, start: nat, o: nat)
      requires ValidConfig() && start <= o
      requires if p.Active() then p.off == start && p.size > 0 else o == start + cacheSize
      ensures Windows(p, start, o)
    {
      if !p.Active() { ModUnique(cacheSize, cacheSize, 1, 0); }
    }

    lemma ViewOfIdle(p: Cache, block: nat)
      requires Valid() && ValidCache(p) && block < |flash| && !p.Active()
      ensures View(p, block) == flash[block]
    {
    }

    /** lfs_bd_prog: a reader sees the bytes at once; gaps show what the buffer holds. */
    method Prog(p: Cache, r: Cache, validate: bool, block: nat, off: nat, data: seq<byte>) returns (s: Status)
      requires Valid() && Takes(p, block, off) && block < |flash| && off + |data| <= blockSize
      requires ValidCache(r) && p != r && p.buffer != r.buffer
      modifies `flash, p, p.buffer, r, r.buffer
      ensures Valid() && s == Ok && ValidCache(p) && ValidCache(r) && Only(old(flash), flash, block) && |flash| == |old(flash)|
      ensures data != [] ==> Continues(p, block, off + |data|)
      ensures data != [] && old(WindowEnd(p, off)) <= off ==> EndsAt(p, off + |data|)
      ensures data != [] ==> View(p, block) == Put(old(Skipped(p, block, off)), off, data)
      ensures data != [] ==> Windows(p, old(WindowStart(p, off)), off + |data|)
      ensures data == [] ==> View(p, block) == old(View(p, block)) && flash == old(flash) && unchanged(p)
      ensures data == [] && old(Continues(p, block, off)) ==> Continues(p, block, off)
      ensures data == [] && old(EndsAt(p, off)) ==> EndsAt(p, off)
      ensures validate && (old(Coherent(r)) || (data != [] && !p.Active())) ==> Coherent(r)
      ensures !validate || data == [] ==> Same(r, old(r.block), old(r.off), old(r.size), old(r.buffer[..]))
    {
      hide Put, Fill, View, Skipped, Pending, Coherent, WindowEnd, WindowStart, Only, Windows;
      s := Ok;
      OnlyRefl(flash, block);
      if data == [] {
        return;
      }
      ghost var shown, flash0 := Skipped(p, block, off), flash;
      ghost var behind, start := WindowEnd(p, off) <= off, WindowStart(p, off);
      var n;
      s, n := FillUp(p, r, validate, block, off, data);
      var k: nat := n;
      while k < |data|
        invariant Valid() && s == Ok && k <= |data| && Only(flash0, flash, block) && |flash| == |flash0| && ValidCache(r)
        invariant Continues(p, block, off + k) && (behind ==> EndsAt(p, off + k))
        invariant View(p, block) == Put(shown, off, data[..k])
        invariant Windows(p, start, off + k)
        invariant validate && (old(Coherent(r)) || !p.Active()) ==> Coherent(r)
        invariant !validate ==> Same(r, old(r.block), old(r.off), old(r.size), old(r.buffer[..]))
        decreases |data| - k
      {
        NothingSkipped(p, block, off + k);
        ghost var now, flash1 := View(p, block), flash;
        EndsBehind(p, block, off + k);
        ghost var w := WindowStart(p, off + k);
        NextWindow(p, block, start, off + k);
        s, n := FillUp(p, r, validate, block, off + k, data[k..]);
        PutMore(shown, now, off, data, k, n);
        OnlyTrans(flash0, flash1, flash, block);
        WindowsOn(p, start, w, off + k + n);
        k := k + n;
      }
      assert data[..k] == data;
    }

    lemma EndsBehind(p: Cache, block: nat, off: nat)
      requires Valid() && Continues(p, block, off)
      ensures EndsAt(p, off) ==> WindowEnd(p, off) <= off
    {
    }

    lemma NextWindow(p: Cache, block: nat, start: nat, o: nat)
      requires Windows(p, start, o) && Continues(p, block, o)
      ensures start <= WindowStart(p, o) && (WindowStart(p, o) - start) % cacheSize == 0
    {
      if !p.Active() { MultiplesApart(o, AlignDown(o, progSize), progSize); }
    }

    /** A run of lfs_bd_prog calls, each continuing where the last one ended. */
    method Run(p: Cache, r: Cache, validate: bool, block: nat, off: nat, pieces: seq<seq<byte>>)
      requires Valid() && ValidCache(p) && ValidCache(r) && p != r && p.buffer != r.buffer && !p.Active()
      requires block < |flash| && off % progSize == 0 && off + |Joined(pieces)| <= blockSize
      modifies `flash, p, p.buffer, r, r.buffer
      ensures Valid() && ValidCache(p) && ValidCache(r) && Only(old(flash), flash, block)
      ensures Continues(p, block, off + |Joined(pieces)|) && EndsAt(p, off + |Joined(pieces)|)
      ensures View(p, block) == Put(old(flash[block]), off, Joined(pieces))
      ensures p.Active() <==> |Joined(pieces)| % cacheSize != 0
      ensures validate && (old(Coherent(r)) || (Joined(pieces) != [] && !p.Active())) ==> Coherent(r)
      ensures !validate || Joined(pieces) == [] ==> Same(r, old(r.block), old(r.off), old(r.size), old(r.buffer[..]))
    {
      hide Put, Fill, View, Skipped, Pending, Coherent, WindowEnd, WindowStart, Only, Joined, Windows;
      ghost var was, flash0 := flash[block], flash;
      ViewOfIdle(p, block);
      PutNothing(was, off);
      OnlyRefl(flash, block);
      NothingJoined(pieces);
      FirstWindow(p, off);
      var o: nat := off;
      for i := 0 to |pieces|
        invariant Valid() && ValidCache(p) && ValidCache(r) && Only(flash0, flash, block) && |flash| == |flash0|
        invariant o == off + |Joined(pieces[..i])| <= blockSize && Continues(p, block, o) && EndsAt(p, o)
        invariant View(p, block) == Put(was, off, Joined(pieces[..i])) && Windows(p, off, o)
        invariant validate && (old(Coherent(r)) || (o > off && !p.Active())) ==> Coherent(r)
        invariant !validate || o == off ==> Same(r, old(r.block), old(r.off), old(r.size), old(r.buffer[..]))
      {
        ghost var done, flash1 := Joined(pieces[..i]), flash;
        JoinedSteps(pieces, i);
        NothingSkipped(p, block, o);
        EndsBehind(p, block, o);
        PutPut(was, off, done, pieces[i]);
        Neutral(done);
        ghost var w := WindowStart(p, o);
        NextWindow(p, block, off, o);
        var s := Prog(p, r, validate, block, o, pieces[i]);
        if pieces[i] != [] { WindowsOn(p, off, w, o + |pieces[i]|); }
        o := o + |pieces[i]|;
        OnlyTrans(flash0, flash1, flash, block);
      }
      assert pieces[..|pieces|] == pieces;
      PendingRest(p, block, off, o);
    }

    lemma FirstWindow(p: Cache, off: nat)
      requires ValidConfig() && !p.Active()
      ensures Windows(p, off, off)
    {
    }

    lemma RunWritten(p: Cache, was: seq<seq<byte>>, block: nat, off: nat, data: seq<byte>, now: seq<seq<byte>>)
      requires Valid() && block < |flash| && off + |data| <= blockSize && Only(was, flash, block)
      requires Continues(p, block, off + |data|) && EndsAt(p, off + |data|) && |was[block]| == blockSize
      requires View(p, block) == Put(was[block], off, data) && off % progSize == 0
      requires now == if p.Active() then Flushed(p) else flash
      ensures Written(was, now, block, off, data, progSize)
    {
      hide AlignUp, Put;
      BlockInUnits();
      AlignUpInside(off + |data|, progSize, blockSize);
      if p.Active() {
        UnitsFit(p);
        AlignShift(p.off, p.size, progSize);
        UnitsWritten(flash[block], was[block], p.off, p.buffer[..], p.size, AlignUp(p.size, progSize), off, data);
      } else {
        AlreadyWritten(flash[block], was[block], off, data, AlignUp(off + |data|, progSize));
      }
    }

    /** The read cache holds the bytes that flash will hold once `data` has been programmed. */
    ghost predicate Foresees(r: Cache, block: nat, off: nat, data: seq<byte>)
      requires Valid() && ValidCache(r) && block < |flash| && off + |data| <= blockSize
      reads this, r, r.buffer
    {
      r.Active() ==> Shows(flash[block := Put(flash[block], off, data)], r.block, r.off, r.size, r.buffer[..])
    }

    lemma CoherentShows(r: Cache)
      requires Valid() && ValidCache(r)
      ensures Coherent(r) <==> (r.Active() ==> Shows(flash, r.block, r.off, r.size, r.buffer[..]))
    {
      if r.Active() { assert r.buffer[..][..r.size] == r.buffer[..r.size]; }
    }

    /** A run followed by lfs_bd_flush with validation: the bytes are on flash. The read cache is right afterwards exactly
        when something was left for the flush to write, or the programs were validated and wrote something, or its bytes
        were already those that flash holds now. */
    method RunAndFlush(p: Cache, r: Cache, validate: bool, block: nat, off: nat, pieces: seq<seq<byte>>)
      requires Valid() && ValidCache(p) && ValidCache(r) && p != r && p.buffer != r.buffer && !p.Active()
      requires block < |flash| && off % progSize == 0 && off + |Joined(pieces)| <= blockSize
      modifies `flash, p, p.buffer, r, r.buffer
      ensures Valid() && ValidCache(r) && Written(old(flash), flash, block, off, Joined(pieces), progSize)
      ensures Coherent(r) <==> |Joined(pieces)| % cacheSize != 0 || (validate && Joined(pieces) != [])
                               || old(Foresees(r, block, off, Joined(pieces)))
      ensures validate && old(Coherent(r)) ==> Coherent(r)
    {
      hide Put, View, Coherent, Only, Joined, AlignUp, Written, Flushed, Shows;
      ghost var was, t := flash, Joined(pieces);
      NothingForeseen(r, block, off);
      CoherentShows(r);
      Run(p, r, validate, block, off, pieces);
      OnlyCount(was, flash, block);
      RunWritten(p, was, block, off, t, if p.Active() then Flushed(p) else flash);
      if !p.Active() {
        ViewOfIdle(p, block);
        OnlyUpdates(was, flash, block);
        CoherentShows(r);
      }
      var s := Flush(p, r, true);
    }

    lemma NothingForeseen(r: Cache, block: nat, off: nat)
      requires Valid() && ValidCache(r) && block < |flash| && off <= blockSize
      ensures Foresees(r, block, off, []) <==> Coherent(r)
    {
      PutNothing(flash[block], off);
      assert flash[block := flash[block]] == flash;
      CoherentShows(r);
    }

    /** A run followed by lfs_bd_sync: the bytes are on flash, and the read cache is right whatever it was before. */
    method RunAndSync(p: Cache, r: Cache, validate: bool, block: nat, off: nat, pieces: seq<seq<byte>>)
      requires Valid() && ValidCache(p) && ValidCache(r) && p != r && p.buffer != r.buffer && !p.Active()
      requires block < |flash| && off % progSize == 0 && off + |Joined(pieces)| <= blockSize
      modifies `flash, p, p.buffer, r, r.buffer
      ensures Valid() && ValidCache(r) && Coherent(r)
      ensures Written(old(flash), flash, block, off, Joined(pieces), progSize)
    {
      hide Put, View, Coherent, Only, Joined, AlignUp, Written, Flushed;
      ghost var was := flash;
      Run(p, r, validate, block, off, pieces);
      OnlyCount(was, flash, block);
      RunWritten(p, was, block, off, Joined(pieces), if p.Active() then Flushed(p) else flash);
      var s := Sync(p, r, validate);
    }

    /** Without validation of the programs a validated flush is not enough: when the bytes fill whole windows, nothing is
        left to flush, and a read cache that held an old byte which was changed keeps it. */
    method StaleRead(p: Cache, r: Cache, block: nat, off: nat, data: seq<byte>, ghost at: nat)
      requires Valid() && ValidCache(p) && ValidCache(r) && p != r && p.buffer != r.buffer && !p.Active()
      requires block < |flash| && off % progSize == 0 && off + |data| <= blockSize && |data| % cacheSize == 0
      requires Coherent(r) && r.Active() && r.block == block
      requires r.off <= at < r.off + r.size && off <= at < off + |data| && |flash[block]| == blockSize
      requires data[at - off] != flash[block][at]
      modifies `flash, p, p.buffer, r, r.buffer
      ensures Valid() && ValidCache(r) && Written(old(flash), flash, block, off, data, progSize) && !Coherent(r)
    {
      hide Put;
      ghost var f := flash[block];
      PutChanges(f, off, data, at);
      assert r.buffer[..r.size][at - r.off] == f[r.off..r.off + r.size][at - r.off];
      assert Put(f, off, data)[r.off..r.off + r.size][at - r.off] == Put(f, off, data)[at];
      OnePiece(data);
      RunAndFlush(p, r, false, block, off, [data]);
    }
  }

  /** The bytes between `end` and `off`, taken from a buffer whose first byte belongs at `start`. */
  function Fill(v: seq<byte>, start: nat, end: nat, off: nat, buffer: seq<byte>): (r: seq<byte>)
    requires start <= end && off <= |v| && (end < off ==> off - start <= |buffer|)
    ensures |r| == |v|
  {
    if end < off then Put(v, end, buffer[end - start..off - start]) else v
  }

  /** Only one block of flash differs. */
  ghost predicate Only(f: seq<seq<byte>>, f': seq<seq<byte>>, block: nat) {
    |f'| == |f| && forall b :: 0 <= b < |f| && b != block ==> f'[b] == f[b]
  }

  /** A cache with this window and buffer agrees with these flash contents. */
  predicate Shows(f: seq<seq<byte>>, block: nat, off: nat, size: nat, bytes: seq<byte>) {
    block < |f| && off + size <= |f[block]| && size <= |bytes| && bytes[..size] == f[block][off..off + size]
  }

  lemma OnlyUpdates(f: seq<seq<byte>>, f': seq<seq<byte>>, block: nat)
    requires Only(f, f', block) && block < |f|
    ensures f' == f[block := f'[block]]
  {
    assert forall b :: 0 <= b < |f| ==> f'[b] == f[block := f'[block]][b];
  }

  lemma OnlyRefl(f: seq<seq<byte>>, block: nat)
    ensures Only(f, f, block)
  {
  }

  lemma OnlyTrans(f: seq<seq<byte>>, g: seq<seq<byte>>, h: seq<seq<byte>>, block: nat)
    requires Only(f, g, block) && Only(g, h, block)
    ensures Only(f, h, block)
  {
  }

  lemma NothingJoined(pieces: seq<seq<byte>>)
    ensures Joined(pieces[..0]) == []
  {
  }

  function Joined(pieces: seq<seq<byte>>): seq<byte> {
    if pieces == [] then [] else Joined(Front(pieces)) + Last(pieces)
  }

  lemma {:induction false} JoinedPrefix(pieces: seq<seq<byte>>, i: nat)
    requires i <= |pieces|
    ensures |Joined(pieces[..i])| <= |Joined(pieces)|
    decreases |pieces|
  {
    if i < |pieces| {
      assert pieces[..i] == Front(pieces)[..i];
      JoinedPrefix(Front(pieces), i);
    } else {
      assert pieces[..i] == pieces;
    }
  }

  lemma JoinedSteps(pieces: seq<seq<byte>>, i: nat)
    requires i < |pieces|
    ensures Joined(pieces[..i + 1]) == Joined(pieces[..i]) + pieces[i]
    ensures |Joined(pieces[..i + 1])| <= |Joined(pieces)|
  {
    SplitAt(pieces, i);
    Snoc(pieces[..i], pieces[i]);
    JoinedPrefix(pieces, i + 1);
  }

  lemma PutPut(s: seq<byte>, o: nat, a: seq<byte>, b: seq<byte>)
    requires o + |a| + |b| <= |s|
    ensures Put(Put(s, o, a), o + |a|, b) == Put(s, o, a + b)
  {
  }

  lemma AlignShift(a: nat, b: nat, m: nat)
    requires m > 0 && a % m == 0
    ensures AlignUp(a + b, m) == a + AlignUp(b, m)
  {
    hide AlignUp;
    SumOfMultiples(a, AlignUp(b, m), m);
    MultiplesApart(AlignUp(a + b, m), a + AlignUp(b, m), m);
    MultiplesApart(a + AlignUp(b, m), AlignUp(a + b, m), m);
  }

  /** What a finished run leaves on flash: exactly the bytes, and behind them at most the rest of a program unit. */
  ghost predicate Written(was: seq<seq<byte>>, now: seq<seq<byte>>, block: nat, off: nat, data: seq<byte>, progSize: nat) {
    && Only(was, now, block) && progSize > 0 && block < |now| && |now[block]| == |was[block]|
    && var end := AlignUp(off + |data|, progSize);
       && end <= |was[block]|
       && now[block][..off] == was[block][..off] && now[block][off..off + |data|] == data
       && now[block][end..] == was[block][end..]
  }

  lemma OnlyCount(f: seq<seq<byte>>, f': seq<seq<byte>>, block: nat)
    requires Only(f, f', block)
    ensures |f'| == |f|
  {
  }

  lemma PutChanges(s: seq<byte>, off: nat, data: seq<byte>, at: nat)
    requires off <= at < off + |data| <= |s|
    ensures Put(s, off, data)[at] == data[at - off]
  {
  }

  lemma OnePiece(data: seq<byte>)
    ensures Joined([data]) == data
  {
    assert Front([data]) == [];
    Neutral(data);
  }

  /** Programming whole units of a buffer, of which the first `size` bytes were shown over flash `f` already. */
  lemma UnitsWritten(f: seq<byte>, was: seq<byte>, start: nat, buffer: seq<byte>, size: nat, units: nat, off: nat, data: seq<byte>)
    requires |f| == |was| && off + |data| <= |was| && size <= units <= |buffer| && start + units <= |f|
    requires Put(f, start, buffer[..size]) == Put(was, off, data) && start + size == off + |data|
    ensures var now := Put(f, start, buffer[..units]);
            && now[..off] == was[..off] && now[off..off + |data|] == data && now[start + units..] == was[start + units..]
  {
    var v, now := Put(f, start, buffer[..size]), Put(f, start, buffer[..units]);
    var w, end := Put(was, off, data), off + |data|;
    assert now[..end] == v[..end];
    assert now[start + units..] == v[start + units..];
    assert now[..off] == now[..end][..off] && w[..off] == w[..end][..off] == was[..off];
    assert now[off..end] == now[..end][off..] && w[off..end] == w[..end][off..];
    assert w[start + units..] == was[start + units..];
  }

  lemma AlreadyWritten(f: seq<byte>, was: seq<byte>, off: nat, data: seq<byte>, end: nat)
    requires |f| == |was| && off + |data| <= end <= |was| && f == Put(was, off, data)
    ensures f[..off] == was[..off] && f[off..off + |data|] == data && f[end..] == was[end..]
  {
  }

  lemma PutMore(s: seq<byte>, now: seq<byte>, o: nat, data: seq<byte>, k: nat, n: nat)
    requires k + n <= |data| && o + |data| <= |s| == |now| && now == if k == 0 then s else Put(s, o, data[..k])
    ensures Put(now, o + k, data[k..][..n]) == Put(s, o, data[..k + n])
  {
    assert data[k..][..n] == data[k..k + n];
  }

  lemma PutNothing(s: seq<byte>, o: nat)
    requires o <= |s|
    ensures Put(s, o, []) == s
  {
  }

  lemma PutOneMore(s: seq<byte>, o: nat, data: seq<byte>, k: nat)
    requires k < |data| && o + k < |s|
    ensures Put(s, o, data[..k + 1]) == Put(s, o, data[..k])[o + k := data[k]]
  {
  }

  /** Overlaying a buffer into which bytes were copied is the same as copying them into the overlay. */
  lemma Overlay(f: seq<byte>, start: nat, buf: seq<byte>, size: nat, at: nat, data: seq<byte>)
    requires size <= |buf| && at + |data| <= |buf| && start + size <= |f| && start + at + |data| <= |f|
    ensures var n := if size > at + |data| then size else at + |data|;
            Put(f, start, Put(buf, at, data)[..n])
            == Put(Fill(Put(f, start, buf[..size]), start, start + size, start + at, buf), start + at, data)
  {
    hide Put, Fill;
    var n := if size > at + |data| then size else at + |data|;
    var over, mid := Put(buf, at, data), Put(f, start, buf[..size]);
    PutSize(buf, at, data);
    PutSize(f, start, over[..n]);
    PutSize(f, start, buf[..size]);
    var filled := Fill(mid, start, start + size, start + at, buf);
    PutSize(filled, start + at, data);
    forall i | 0 <= i < |f|
      ensures Put(f, start, over[..n])[i] == Put(filled, start + at, data)[i]
    {
      PutAt(f, start, over[..n], i);
      PutAt(filled, start + at, data, i);
      PutAt(f, start, buf[..size], i);
      FillAt(mid, start, start + size, start + at, buf, i);
      if start <= i < start + n { PutAt(buf, at, data, i - start); }
    }
  }

  lemma PutSize(s: seq<byte>, o: nat, b: seq<byte>)
    requires o + |b| <= |s|
    ensures |Put(s, o, b)| == |s|
  {
  }

  lemma PutAt(s: seq<byte>, o: nat, b: seq<byte>, i: nat)
    requires o + |b| <= |s| && i < |s|
    ensures |Put(s, o, b)| == |s|
    ensures Put(s, o, b)[i] == if o <= i < o + |b| then b[i - o] else s[i]
  {
  }

  lemma FillAt(v: seq<byte>, start: nat, end: nat, off: nat, buffer: seq<byte>, i: nat)
    requires start <= end && off <= |v| && (end < off ==> off - start <= |buffer|) && i < |v|
    ensures |Fill(v, start, end, off, buffer)| == |v|
    ensures Fill(v, start, end, off, buffer)[i] == if end <= i < off then buffer[i - start] else v[i]
  {
  }

  lemma Grow(v: seq<byte>, off: nat, o: nat, n: nat, data: seq<byte>, piece: seq<byte>)
    requires off <= o && o + n <= |v| && data == v[off..o] && piece == v[o..o + n]
    ensures data + piece == v[off..o + n]
  {
  }

  lemma PutOutside(s: seq<byte>, o: nat, b: seq<byte>, off: nat, n: nat)
    requires o + |b| <= |s| && off + n <= |s| && (off + n <= o || o + |b| <= off)
    ensures Put(s, o, b)[off..off + n] == s[off..off + n]
  {
  }

  lemma PutInside(s: seq<byte>, o: nat, b: seq<byte>)
    requires o + |b| <= |s|
    ensures Put(s, o, b)[o..o + |b|] == b
  {
  }
}
