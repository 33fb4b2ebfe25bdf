/** 32-bit words as natural numbers: exclusive-or, and the byte orders used on disk. */
module Words {

  type byte = b: int | 0 <= b < 0x100

  const WORD_LIMIT := 0x1_0000_0000
  const TOP_BIT := 0x8000_0000

  /** Bitwise exclusive-or, one binary digit at a time. */
  function Xor(a: nat, b: nat): (x: nat)
    decreases a + b
  {
    if a == 0 && b == 0 then 0 else 2 * Xor(a / 2, b / 2) + (if a % 2 == b % 2 then 0 else 1)
  }

  /** Halving and parity of an exclusive-or: the only facts the proofs below unfold it for. */
  lemma XorStep(a: nat, b: nat)
    ensures Xor(a, b) / 2 == Xor(a / 2, b / 2)
    ensures Xor(a, b) % 2 == if a % 2 == b % 2 then 0 else 1
  {
  }

  lemma {:induction false} XorComm(a: nat, b: nat)
    ensures Xor(a, b) == Xor(b, a)
    decreases a + b
  {
    if a != 0 || b != 0 { XorComm(a / 2, b / 2); }
  }

  lemma {:induction false} XorZero(a: nat)
    ensures Xor(a, 0) == a
  {
    if a != 0 { XorZero(a / 2); }
  }

  /** Xoring twice with the same word gives the first word back: the step every reader of a tag chain relies on. */
  lemma {:induction false} XorCancel(a: nat, b: nat)
    ensures Xor(Xor(a, b), b) == a
    decreases a + b
  {
    var x := Xor(a, b);
    if a != 0 || b != 0 {
      XorCancel(a / 2, b / 2);
      XorStep(a, b);
      XorStep(x, b);
      var y := Xor(x, b);
      assert y / 2 == a / 2 && y % 2 == a % 2;
    }
  }

  lemma {:induction false} XorAssoc(a: nat, b: nat, c: nat)
    ensures Xor(Xor(a, b), c) == Xor(a, Xor(b, c))
    decreases a + b + c
  {
    if a != 0 || b != 0 || c != 0 {
      XorAssoc(a / 2, b / 2, c / 2);
      var l, r := Xor(Xor(a, b), c), Xor(a, Xor(b, c));
      XorStep(a, b);
      XorStep(Xor(a, b), c);
      XorStep(b, c);
      XorStep(a, Xor(b, c));
      assert l / 2 == r / 2 && l % 2 == r % 2;
    }
  }

  function Exp2(n: nat): (p: nat)
    ensures p > 0
  {
    if n == 0 then 1 else 2 * Exp2(n - 1)
  }

  lemma Exp2Step(n: nat)
    ensures Exp2(0) == 1 && (n > 0 ==> Exp2(n) == 2 * Exp2(n - 1))
  {
  }

  /** Halving a sum whose first part is even. */
  lemma HalveSum(x: int, y: int)
    ensures (2 * x + y) / 2 == x + y / 2 && (2 * x + y) % 2 == y % 2
  {
  }

  lemma {:induction false} XorBound(a: nat, b: nat, bits: nat)
    requires a < Exp2(bits) && b < Exp2(bits)
    ensures Xor(a, b) < Exp2(bits)
  {
    if bits > 0 { XorBound(a / 2, b / 2, bits - 1); XorStep(a, b); }
  }

  /** The low bits of an exclusive-or depend on the low bits of its operands alone. */
  lemma {:induction false} XorLow(a: nat, b: nat, bits: nat)
    ensures Xor(a, b) % Exp2(bits) == Xor(a % Exp2(bits), b % Exp2(bits))
    decreases bits
  {
    if bits > 0 {
      var h, m := Exp2(bits - 1), Exp2(bits);
      XorLow(a / 2, b / 2, bits - 1);
      ModHalf(a, h);
      ModHalf(b, h);
      var x := Xor(a, b);
      ModHalf(x, h);
      XorStep(a, b);
      var y := Xor(a % m, b % m);
      XorStep(a % m, b % m);
      assert y / 2 == (x % m) / 2 && y % 2 == (x % m) % 2;
    }
  }

  lemma ModHalf(a: nat, h: nat)
    requires h > 0
    ensures (a % (2 * h)) / 2 == a / 2 % h
    ensures (a % (2 * h)) % 2 == a % 2
  {
    var q, r := a / (2 * h), a % (2 * h);
    assert a == 2 * (q * h) + r by { assert q * (2 * h) == 2 * (q * h); }
    assert a / 2 == q * h + r / 2;
    ModUnique(a / 2, h, q, r / 2);
  }

  lemma ModUnique(a: nat, m: nat, q: nat, r: nat)
    requires a == q * m + r && r < m
    ensures a % m == r && a / m == q
  {
    var q', r' := a / m, a % m;
    var d := q' - q;
    assert d * m == q' * m - q * m;
    assert d * m == r - r';
    assert (-d) * m == -(d * m);
    if d >= 1 {
      MulAtLeast(d, m);
    } else if d <= -1 {
      MulAtLeast(-d, m);
    }
  }

  lemma MulAtLeast(d: int, m: nat)
    requires d >= 1
    ensures d * m >= m
  {
  }

  lemma Distribute(q: int, p: int, m: int)
    ensures (q + p) * m == q * m + p * m
  {
  }

  lemma WordSizes()
    ensures Exp2(31) == TOP_BIT && Exp2(32) == WORD_LIMIT
  {
    assert Exp2(8) == 0x100;
    assert Exp2(16) == 0x1_0000;
    assert Exp2(24) == 0x100_0000;
  }

  function XorWord(a: nat, b: nat): (x: nat)
    requires a < WORD_LIMIT && b < WORD_LIMIT
    ensures x < WORD_LIMIT
  {
    WordSizes();
    XorBound(a, b, 32);
    Xor(a, b)
  }

  function Drop(a: nat, n: nat): nat
    decreases n
  {
    if n == 0 then a else Drop(a / 2, n - 1)
  }

  lemma {:induction false} XorDrop(a: nat, b: nat, n: nat)
    ensures Drop(Xor(a, b), n) == Xor(Drop(a, n), Drop(b, n))
    decreases n
  {
    if n > 0 {
      XorStep(a, b);
      XorDrop(a / 2, b / 2, n - 1);
    }
  }

  lemma {:induction false} DropTop(a: nat, n: nat)
    requires a < 2 * Exp2(n)
    ensures Drop(a, n) == if a >= Exp2(n) then 1 else 0
    decreases n
  {
    if n > 0 { DropTop(a / 2, n - 1); }
  }

  /** The top bit of an exclusive-or is set exactly when the top bits differ. */
  lemma XorTop(a: nat, b: nat)
    requires a < WORD_LIMIT && b < WORD_LIMIT
    ensures XorWord(a, b) >= TOP_BIT <==> ((a >= TOP_BIT) != (b >= TOP_BIT))
  {
    hide Exp2, Drop;
    WordSizes();
    XorDrop(a, b, 31);
    var x := XorWord(a, b);
    DropTop(a, 31);
    DropTop(b, 31);
    DropTop(x, 31);
  }

  /** Unsigned 32-bit subtraction and addition. */
  function Sub32(a: nat, b: nat): (r: nat)
    requires a < WORD_LIMIT && b < WORD_LIMIT
    ensures r < WORD_LIMIT
  {
    if a >= b then a - b else a + WORD_LIMIT - b
  }

  function Add32(a: nat, b: nat): (r: nat)
    requires a < WORD_LIMIT && b < WORD_LIMIT
    ensures r < WORD_LIMIT
  {
    if a + b < WORD_LIMIT then a + b else a + b - WORD_LIMIT
  }

  function Min(a: nat, b: nat): nat { if a < b then a else b }

  /** lfs_aligndown */
  function AlignDown(a: nat, m: nat): (r: nat)
    requires m > 0
    ensures r % m == 0 && r <= a < r + m
  {
    var q := a / m;
    assert a == q * m + a % m;
    ModUnique(q * m, m, q, 0);
    a - a % m
  }

  /** lfs_alignup: the least multiple of m that is not below a. */
  function AlignUp(a: nat, m: nat): (r: nat)
    requires m > 0
    ensures r % m == 0 && a <= r < a + m
  {
    AlignDown(a + m - 1, m)
  }

  /** Two multiples of m that are less than m apart in this direction are in order. */
  lemma MultiplesApart(r: nat, size: nat, m: nat)
    requires m > 0 && r % m == 0 && size % m == 0 && r < size + m
    ensures r <= size
  {
    var d := r / m - size / m;
    assert r == (r / m) * m && size == (size / m) * m;
    assert d * m == r - size;
    if d >= 1 { MulAtLeast(d, m); }
    if d <= 0 { assert d * m <= 0; }
  }

  /** Rounding up stays within a block whose size is a multiple of the unit. */
  lemma AlignUpInside(a: nat, m: nat, size: nat)
    requires m > 0 && size % m == 0 && a <= size
    ensures AlignUp(a, m) <= size
  {
    hide AlignUp;
    MultiplesApart(AlignUp(a, m), size, m);
  }

  /** Flipping the top bit of a word. */
  function FlipTop(w: nat): (r: nat)
    requires w < WORD_LIMIT
    ensures r < WORD_LIMIT && r % TOP_BIT == w % TOP_BIT
  {
    if w < TOP_BIT then w + TOP_BIT else w - TOP_BIT
  }

  /** Setting the top bit of a word. */
  function SetTop(w: nat): (r: nat)
    requires w < WORD_LIMIT
    ensures TOP_BIT <= r < WORD_LIMIT && r % TOP_BIT == w % TOP_BIT
  {
    if w < TOP_BIT then w + TOP_BIT else w
  }

  function Be32(w: nat): (s: seq<byte>)
    requires w < WORD_LIMIT
    ensures |s| == 4
  {
    [w / 0x100 / 0x100 / 0x100, w / 0x100 / 0x100 % 0x100, w / 0x100 % 0x100, w % 0x100]
  }

  function FromBe32(s: seq<byte>): (w: nat)
    requires |s| == 4
    ensures w < WORD_LIMIT
  {
    Horner(s[0], s[1], s[2], s[3])
  }

  function Le32(w: nat): (s: seq<byte>)
    requires w < WORD_LIMIT
    ensures |s| == 4
  {
    [w % 0x100, w / 0x100 % 0x100, w / 0x100 / 0x100 % 0x100, w / 0x100 / 0x100 / 0x100]
  }

  function FromLe32(s: seq<byte>): (w: nat)
    requires |s| == 4
    ensures w < WORD_LIMIT
  {
    Horner(s[3], s[2], s[1], s[0])
  }

  function Horner(a: int, b: int, c: int, d: int): int {
    ((a * 0x100 + b) * 0x100 + c) * 0x100 + d
  }

  /** What is stored in either byte order is read back. */
  lemma WordRoundTrip(w: nat)
    requires w < WORD_LIMIT
    ensures FromBe32(Be32(w)) == w && FromLe32(Le32(w)) == w
  {
    var c := w / 0x100;
    var b := c / 0x100;
    var a := b / 0x100;
    assert w == c * 0x100 + w % 0x100;
    assert c == b * 0x100 + c % 0x100;
    assert b == a * 0x100 + b % 0x100;
    assert Horner(a, b % 0x100, c % 0x100, w % 0x100) == w;
  }
}
