/** The arithmetic of the copy-on-write file lists: block k > 0 starts with Ctz(k) + 1 pointers, and lfs_ctz_index finds
    a byte's block without adding those up. */
module CtzMath {
  import opened Words

  /** Trailing binary zeros (lfs_ctz). */
  function Ctz(n: nat): nat
    requires n > 0
  {
    if n % 2 == 1 then 0 else 1 + Ctz(n / 2)
  }

  /** Binary ones (lfs_popc). */
  function Popc(n: nat): nat {
    if n == 0 then 0 else n % 2 + Popc(n / 2)
  }

  /** The exponent of the highest power of two that is not above n. */
  function Log2(n: nat): nat
    requires n > 0
  {
    if n == 1 then 0 else 1 + Log2(n / 2)
  }

  // ---------------------------------------------------------------- powers of two

  lemma {:induction false} Log2Bounds(n: nat)
    requires n > 0
    ensures Exp2(Log2(n)) <= n < 2 * Exp2(Log2(n))
  {
    if n > 1 { Log2Bounds(n / 2); }
  }

  lemma {:induction false} Log2Less(n: nat, k: nat)
    requires 0 < n < Exp2(k)
    ensures k > 0 && Log2(n) <= k - 1
  {
    if n > 1 { Log2Less(n / 2, k - 1); }
  }

  lemma {:induction false} Log2Mono(a: nat, b: nat)
    requires 0 < a <= b
    ensures Log2(a) <= Log2(b)
  {
    if a > 1 { Log2Mono(a / 2, b / 2); }
  }

  lemma {:induction false} Exp2Mono(a: nat, b: nat)
    requires a <= b
    ensures Exp2(a) <= Exp2(b)
    decreases b
  {
    if a < b { Exp2Mono(a, b - 1); }
  }

  /** A block's pointers never reach below block 0. */
  lemma {:induction false} CtzAtMost(n: nat)
    requires n > 0
    ensures Exp2(Ctz(n)) <= n
  {
    if n % 2 == 0 { CtzAtMost(n / 2); }
  }

  /** Going back by the lowest power of two clears it; going back by a smaller one makes that one the lowest. */
  lemma {:induction false} CtzBack(n: nat, s: nat)
    requires n > 0 && s <= Ctz(n)
    ensures Exp2(s) <= n
    ensures s < Ctz(n) ==> Exp2(s) < n && Ctz(n - Exp2(s)) == s
    ensures s == Ctz(n) && Exp2(s) < n ==> Ctz(n - Exp2(s)) > s
    decreases s
  {
    if s == 0 {
    } else {
      CtzBack(n / 2, s - 1);
      assert (n - Exp2(s)) / 2 == n / 2 - Exp2(s - 1);
    }
  }

  // ---------------------------------------------------------------- the pointer count in closed form

  /** All pointers of blocks 1 to m. */
  function Pointers(m: nat): nat {
    if m == 0 then 0 else Pointers(m - 1) + Ctz(m) + 1
  }

  lemma {:induction false} PopcStep(m: nat)
    requires m > 0
    ensures Popc(m) + Ctz(m) == Popc(m - 1) + 1
  {
    if m % 2 == 1 {
      assert (m - 1) / 2 == m / 2;
    } else {
      PopcStep(m / 2);
      assert (m - 1) / 2 == m / 2 - 1;
    }
  }

  lemma {:induction false} PointersClosed(m: nat)
    ensures Pointers(m) == 2 * m - Popc(m)
  {
    if m > 0 {
      PointersClosed(m - 1);
      PopcStep(m);
    }
  }

  lemma {:induction false} PopcBound(m: nat, bits: nat)
    requires m < Exp2(bits)
    ensures Popc(m) <= bits
    ensures m < Exp2(bits) - 1 ==> Popc(m) < bits
  {
    if m > 0 && bits > 0 { PopcBound(m / 2, bits - 1); }
  }

  lemma {:induction false} PopcOfOnes(bits: nat)
    ensures Popc(Exp2(bits) - 1) == bits
  {
    if bits > 0 {
      PopcOfOnes(bits - 1);
      assert (Exp2(bits) - 1) / 2 == Exp2(bits - 1) - 1;
    }
  }

  // ---------------------------------------------------------------- the layout

  /** Bytes of block k that hold file contents. */
  function Capacity(blockSize: nat, k: nat): int {
    if k == 0 then blockSize else blockSize - 4 * (Ctz(k) + 1)
  }

  /** The file position of the first byte in block k: what the blocks before it hold. */
  function Begin(blockSize: nat, k: nat): int {
    if k == 0 then 0 else Begin(blockSize, k - 1) + Capacity(blockSize, k - 1)
  }

  lemma {:induction false} BeginCounts(blockSize: nat, k: nat)
    requires k > 0
    ensures Begin(blockSize, k) == k * blockSize - 4 * Pointers(k - 1)
  {
    if k == 1 {
      BeginFirst(blockSize);
    } else {
      BeginCounts(blockSize, k - 1);
      Distribute(k - 1, 1, blockSize);
    }
  }

  lemma BeginClosed(blockSize: nat, k: nat)
    requires k > 0
    ensures Begin(blockSize, k) == k * (blockSize - 8) + 4 * (Popc(k - 1) + 2)
  {
    hide Begin, Pointers, Popc;
    BeginCounts(blockSize, k);
    PointersClosed(k - 1);
    Distribute8(k, blockSize);
  }

  lemma Distribute8(k: nat, b: nat)
    ensures k * (b - 8) == k * b - 8 * k
  {
  }

  /** Byte `pos` of a file lies in block i at offset off, pointers included. */
  predicate Locates(blockSize: nat, pos: nat, i: nat, off: int) {
    Begin(blockSize, i) <= pos < Begin(blockSize, i + 1)
    && off == pos - Begin(blockSize, i) + (if i == 0 then 0 else 4 * (Ctz(i) + 1))
  }

  lemma {:induction false} BeginMono(blockSize: nat, i: nat, k: nat, bits: nat)
    requires i <= k && k < Exp2(bits) && 4 * bits <= blockSize
    ensures Begin(blockSize, i) <= Begin(blockSize, k)
    decreases k
  {
    if i < k {
      BeginMono(blockSize, i, k - 1, bits);
      CapacityPositive(blockSize, k - 1, bits);
    }
  }

  /** Blocks with numbers below 2^bits have room for their pointers. */
  lemma CapacityPositive(blockSize: nat, k: nat, bits: nat)
    requires k < Exp2(bits) && 4 * bits <= blockSize
    ensures Capacity(blockSize, k) >= 0
    ensures k > 0 ==> 4 * (Ctz(k) + 1) <= blockSize
  {
    if k > 0 {
      CtzAtMost(k);
      if Ctz(k) >= bits { Exp2Mono(bits, Ctz(k)); }
    }
  }

  lemma {:induction false} PopcAtMost(n: nat)
    ensures Popc(n) <= n
  {
    if n > 0 { PopcAtMost(n / 2); }
  }

  function Div(x: nat, b: nat): nat
    requires b > 0
  {
    x / b
  }

  lemma Product(i: nat, b: nat)
    requires b >= 8
    ensures i * b >= 8 * i
  {
  }

  /** The first guess of lfs_ctz_index is large enough to subtract the pointers from. */
  lemma NoUnderflow(b: nat, size: nat)
    requires b >= 8 && size >= b
    ensures size / b >= 1 && 4 * (Popc(size / b - 1) + 2) <= size
  {
    hide Popc;
    var i := size / b;
    DivBounds(size, b);
    PopcAtMost(i - 1);
    Product(i, b);
  }

  /** lfs_ctz_index: the block number, and the offset it leaves in place of the position. */
  function CtzIndex(blockSize: nat, size: nat): (nat, int)
    requires blockSize >= 16
  {
    var b := blockSize - 8;
    if size < b then (0, size)
    else
      NoUnderflow(b, size);
      var i := Div(size - 4 * (Popc(size / b - 1) + 2), b);
      (i, size - b * i - 4 * Popc(i))
  }

  /** The smallest position lfs_ctz_index gets wrong. */
  function FirstWrong(blockSize: nat): nat
    requires blockSize >= 16
  {
    var b := blockSize - 8;
    Exp2(b / 4 - 1) * b
  }

  lemma DivSteps(x: nat, b: nat, i: nat)
    requires b > 0 && i * b <= x < (i + 1) * b
    ensures x / b == i
  {
    assert (i + 1) * b == i * b + b;
    ModUnique(x, b, i, x - i * b);
  }

  lemma DivBounds(x: nat, b: nat)
    requires b > 0
    ensures x / b * b <= x < (x / b + 1) * b
  {
    assert (x / b + 1) * b == x / b * b + b;
  }

  lemma MulMono(i: int, k: int, b: nat)
    requires i <= k
    ensures i * b <= k * b
  {
  }

  /** The offset the function leaves counts the pointers of the block it found. */
  lemma OffsetOfIndex(blockSize: nat, size: nat, i: nat)
    requires blockSize >= 16
    ensures size - (blockSize - 8) * i - 4 * Popc(i)
            == size - Begin(blockSize, i) + (if i == 0 then 0 else 4 * (Ctz(i) + 1))
  {
    if i > 0 {
      BeginClosed(blockSize, i);
      PopcStep(i);
      assert (blockSize - 8) * i == i * (blockSize - 8);
    }
  }

  /** The guess stands when what it counts in is really there ... */
  lemma GuessStands(blockSize: nat, size: nat, g: nat)
    requires blockSize >= 16 && g >= 1
    requires var b := blockSize - 8; g * b + 4 * (Popc(g - 1) + 2) <= size < (g + 1) * b
    ensures Div(size - 4 * (Popc(g - 1) + 2), blockSize - 8) == g
    ensures Begin(blockSize, g) <= size < Begin(blockSize, g + 1)
  {
    hide Popc, Begin;
    DivSteps(size - 4 * (Popc(g - 1) + 2), blockSize - 8, g);
    BeginClosed(blockSize, g);
    BeginClosed(blockSize, g + 1);
  }

  /** ... and gives way to the block before it otherwise. */
  lemma GuessFalls(blockSize: nat, size: nat, g: nat, e: nat)
    requires blockSize >= 16 && g >= 1 && e == (blockSize - 8) / 4 - 1 && g - 1 < Exp2(e) - 1
    requires var b := blockSize - 8; g * b <= size < g * b + 4 * (Popc(g - 1) + 2)
    ensures size >= 4 * (Popc(g - 1) + 2) && Div(size - 4 * (Popc(g - 1) + 2), blockSize - 8) == g - 1
    ensures Begin(blockSize, g - 1) <= size < Begin(blockSize, g)
  {
    hide Popc, Begin, Exp2;
    var b := blockSize - 8;
    PopcBound(g - 1, e);
    Distribute(g - 1, 1, b);
    Product(g - 1, b);
    DivSteps(size - 4 * (Popc(g - 1) + 2), b, g - 1);
    BeginClosed(blockSize, g);
    BeginBefore(blockSize, g - 1, e, size);
  }

  /** lfs_ctz_index inverts the layout for every position below FirstWrong. */
  lemma IndexIsExact(blockSize: nat, size: nat)
    requires blockSize >= 16 && size < FirstWrong(blockSize)
    ensures Locates(blockSize, size, CtzIndex(blockSize, size).0, CtzIndex(blockSize, size).1)
  {
    hide Popc, Ctz, Begin, Exp2, Div;
    var b := blockSize - 8;
    if size < b {
      BeginFirst(blockSize);
    } else {
      var g := size / b;
      DivBounds(size, b);
      NoUnderflow(b, size);
      GuessBelow(b, size, b / 4 - 1);
      if g * b + 4 * (Popc(g - 1) + 2) <= size {
        GuessStands(blockSize, size, g);
        OffsetOfIndex(blockSize, size, g);
      } else {
        GuessFalls(blockSize, size, g, b / 4 - 1);
        OffsetOfIndex(blockSize, size, g - 1);
      }
    }
  }

  lemma BeginFirst(blockSize: nat)
    ensures Begin(blockSize, 0) == 0 && Begin(blockSize, 1) == blockSize
  {
    assert Begin(blockSize, 1) == Begin(blockSize, 0) + Capacity(blockSize, 0);
  }

  lemma GuessBelow(b: nat, size: nat, e: nat)
    requires b >= 8 && size < Exp2(e) * b && size / b >= 1
    ensures size / b - 1 < Exp2(e) - 1
  {
    DivBounds(size, b);
    if size / b >= Exp2(e) { MulMono(Exp2(e), size / b, b); }
  }

  lemma BeginBefore(blockSize: nat, k: nat, e: nat, size: nat)
    requires blockSize >= 16 && e == (blockSize - 8) / 4 - 1 && k < Exp2(e) - 1
    requires (k + 1) * (blockSize - 8) <= size
    ensures Begin(blockSize, k) <= size
  {
    hide Exp2, Popc, Ctz;
    if k > 0 {
      BeginClosed(blockSize, k);
      PopcBound(k - 1, e);
      Distribute(k, 1, blockSize - 8);
    }
  }

  /** ... and is off by one block at FirstWrong itself. */
  lemma IndexIsWrong(blockSize: nat)
    requires blockSize >= 16
    ensures !Locates(blockSize, FirstWrong(blockSize), CtzIndex(blockSize, FirstWrong(blockSize)).0,
                     CtzIndex(blockSize, FirstWrong(blockSize)).1)
  {
    hide Ctz, Begin, Exp2, Popc;
    var b := blockSize - 8;
    var e := b / 4 - 1;
    var n, size := Exp2(e), Exp2(e) * b;
    ModUnique(size, b, n, 0);
    PopcOfOnes(e);
    Product(n, b);
    Exp2Mono(1, e);
    NoUnderflow(b, size);
    var x := size - 4 * (e + 2);
    assert x < (n - 1) * b by { assert (n - 1) * b == n * b - b; }
    var i := x / b;
    DivBounds(x, b);
    if i + 1 > n - 1 { MulMono(n - 1, i, b); }
    assert CtzIndex(blockSize, size).0 == i;
    NextBeginsBefore(blockSize, i, e, size);
  }

  /** Blocks up to number 2^e - 1 begin at or before that position. */
  lemma NextBeginsBefore(blockSize: nat, i: nat, e: nat, size: nat)
    requires blockSize >= 16 && e == (blockSize - 8) / 4 - 1 && i + 1 < Exp2(e) && size == Exp2(e) * (blockSize - 8)
    ensures Begin(blockSize, i + 1) <= size
  {
    hide Exp2, Popc, Begin;
    BeginClosed(blockSize, i + 1);
    PopcBound(i, e);
    MulMono(i + 2, Exp2(e), blockSize - 8);
    Distribute(i + 1, 1, blockSize - 8);
  }

  const FILE_MAX := 2147483647

  /** Which block sizes are safe: the smallest size lfs_init lets through is not. */
  lemma SafeBlockSizes(blockSize: nat)
    requires blockSize >= 104
    ensures FirstWrong(blockSize) >= WORD_LIMIT <==> blockSize >= 116
    ensures FirstWrong(blockSize) > FILE_MAX <==> blockSize >= 112
    ensures blockSize == 104 ==> FirstWrong(blockSize) == 805306368
  {
    hide Exp2;
    var b := blockSize - 8;
    var e := b / 4 - 1;
    Powers();
    if blockSize >= 116 {
      Exp2Mono(26, e);
      MulMono(Exp2(26), Exp2(e), b);
      MulMono(108, b, Exp2(26));
    } else if blockSize >= 112 {
      assert e == 25;
    } else if blockSize >= 108 {
      assert e == 24;
    } else {
      assert e == 23;
    }
  }

  lemma Powers()
    ensures Exp2(23) == 0x80_0000 && Exp2(24) == 0x100_0000 && Exp2(25) == 0x200_0000 && Exp2(26) == 0x400_0000
  {
    assert Exp2(8) == 0x100;
    assert Exp2(16) == 0x1_0000;
  }

  /** Positions below FirstWrong lie in one block only. */
  lemma {:induction false} LocatesOnce(blockSize: nat, pos: nat, i: nat, off: int, k: nat, off': int, bits: nat)
    requires 4 * bits <= blockSize && i < Exp2(bits) && k < Exp2(bits)
    requires Locates(blockSize, pos, i, off) && Locates(blockSize, pos, k, off')
    ensures i == k && off == off'
  {
    hide Begin, Exp2, Ctz;
    if i < k { BeginMono(blockSize, i + 1, k, bits); }
    if k < i { BeginMono(blockSize, k + 1, i, bits); }
  }

  /** The largest number of pointer words that is sure to fit: block numbers below FirstWrong's stay below 2 to this. */
  function MaxBits(blockSize: nat): (bits: nat)
    requires blockSize >= 16
    ensures 2 <= bits && 4 * bits <= blockSize - 8
  {
    (blockSize - 8) / 4
  }

  lemma IndexBound(blockSize: nat, size: nat)
    requires blockSize >= 16 && size < FirstWrong(blockSize)
    ensures CtzIndex(blockSize, size).0 < Exp2(MaxBits(blockSize) - 1)
  {
    hide Popc, Exp2;
    var b := blockSize - 8;
    if size >= b {
      NoUnderflow(b, size);
      GuessBelow(b, size, b / 4 - 1);
      DivMono(size - 4 * (Popc(size / b - 1) + 2), size, b);
    }
  }

  lemma DivMono(x: nat, y: nat, b: nat)
    requires b > 0 && x <= y
    ensures x / b <= y / b
  {
    DivBounds(x, b);
    DivBounds(y, b);
    if y / b + 1 <= x / b { MulMono(y / b + 1, x / b, b); }
  }

  /** Later positions never lie in earlier blocks. */
  lemma IndexMono(blockSize: nat, pos: nat, size: nat)
    requires blockSize >= 16 && pos <= size < FirstWrong(blockSize)
    ensures CtzIndex(blockSize, pos).0 <= CtzIndex(blockSize, size).0
  {
    hide CtzIndex, Begin, Exp2, FirstWrong;
    var i, k, bits := CtzIndex(blockSize, pos).0, CtzIndex(blockSize, size).0, MaxBits(blockSize);
    IndexIsExact(blockSize, pos);
    IndexIsExact(blockSize, size);
    IndexBound(blockSize, pos);
    IndexBound(blockSize, size);
    Exp2Mono(bits - 1, bits);
    if k < i { BeginMono(blockSize, k + 1, i, bits); }
  }

  // ---------------------------------------------------------------- lfs_npw2

  lemma {:induction false} Log2Shift(a: nat, s: nat)
    requires Exp2(s) <= a
    ensures a / Exp2(s) > 0 && Log2(a) == Log2(a / Exp2(s)) + s
    decreases s
  {
    if s > 0 {
      Log2Shift(a / 2, s - 1);
      assert a / 2 / Exp2(s - 1) == a / Exp2(s) by { DivTwice(a, Exp2(s - 1)); }
    }
  }

  lemma DivTwice(a: nat, h: nat)
    requires h > 0
    ensures a / 2 / h == a / (2 * h)
  {
    var q := a / (2 * h);
    assert a == 2 * (q * h) + a % (2 * h) by { assert q * (2 * h) == 2 * (q * h); }
    ModHalf(a, h);
    assert a / 2 == q * h + (a % (2 * h)) / 2;
    ModUnique(a / 2, h, q, (a % (2 * h)) / 2);
  }

  /** One halving step of lfs_npw2: shift by s when the word needs more than s bits. */
  lemma NarrowStep(a: nat, s: nat, s': nat)
    requires a > 0 && s' == (if a >= Exp2(s) then s else 0) && a < Exp2(2 * s)
    ensures a / Exp2(s') > 0 && Log2(a) == Log2(a / Exp2(s')) + s' && a / Exp2(s') < Exp2(s)
  {
    hide Exp2, Log2;
    if s' == 0 {
      ShiftByNothing(a);
    } else {
      Log2Shift(a, s);
      Exp2Sum(s, s);
      DivBelow(a, Exp2(s), Exp2(s));
    }
  }

  lemma ShiftByNothing(a: nat)
    ensures Exp2(0) == 1 && a / Exp2(0) == a
  {
  }

  lemma {:induction false} Exp2Sum(a: nat, b: nat)
    ensures Exp2(a + b) == Exp2(a) * Exp2(b)
    decreases a
  {
    if a > 0 { Exp2Sum(a - 1, b); }
  }

  lemma DivBelow(a: nat, b: nat, c: nat)
    requires b > 0 && a < c * b
    ensures a / b < c
  {
    DivBounds(a, b);
    if a / b >= c { MulMono(c, a / b, b); }
  }

  /** lfs_npw2 without compiler intrinsics: the exponent of the next power of two. */
  method Npw2(n: nat) returns (r: nat)
    requires 2 <= n < WORD_LIMIT
    ensures r == Log2(n - 1) + 1
    ensures Exp2(r - 1) < n <= Exp2(r)
  {
    hide Exp2, Log2;
    Widths();
    var a := n - 1;
    Log2Bounds(a);
    var s := if a > 0xffff then 16 else 0;
    NarrowStep(a, 16, s);
    a := a / Exp2(s);
    r := s;
    s := if a > 0xff then 8 else 0;
    NarrowStep(a, 8, s);
    a := a / Exp2(s);
    r := r + s;
    s := if a > 0xf then 4 else 0;
    NarrowStep(a, 4, s);
    a := a / Exp2(s);
    r := r + s;
    s := if a > 0x3 then 2 else 0;
    NarrowStep(a, 2, s);
    a := a / Exp2(s);
    r := r + s;
    SmallLog2(a);
    r := r + a / 2 + 1;
    Exp2Next(r - 1);
  }

  lemma Exp2Next(n: nat)
    ensures Exp2(n + 1) == 2 * Exp2(n)
  {
  }

  lemma SmallLog2(a: nat)
    requires 0 < a < 4
    ensures Log2(a) == a / 2
  {
    assert Log2(1) == 0 && Log2(2) == 1 && Log2(3) == 1;
  }

  lemma Widths()
    ensures Exp2(2) == 4 && Exp2(4) == 16 && Exp2(8) == 0x100 && Exp2(16) == 0x1_0000 && Exp2(32) == WORD_LIMIT
  {
    WordSizes();
    assert Exp2(8) == 0x100;
  }
}
