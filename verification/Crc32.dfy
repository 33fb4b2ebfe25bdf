/** The CRC that seals a metadata commit: the nibble-table loop of lfs_crc against the bit-at-a-time definition with the
    reflected polynomial of section 8 of RFC 1952, and what a checksum of this kind can tell apart. */
module Crc32 {
  import opened Words
  import opened Sequences

  const POLYNOMIAL: bv32 := 0xedb88320

  const RTABLE: seq<bv32> := [
    0x00000000, 0x1db71064, 0x3b6e20c8, 0x26d930ac,
    0x76dc4190, 0x6b6b51f4, 0x4db26158, 0x5005713c,
    0xedb88320, 0xf00f9344, 0xd6d6a3e8, 0xcb61b38c,
    0x9b64c2b0, 0x86d3d2d4, 0xa00ae278, 0xbdbdf21c]

  // ---------------------------------------------------------------- bit operations and their laws
  // Each operation is named and each law proved on its own; the proofs below use the laws, not the bits.

  function Xor32(a: bv32, b: bv32): bv32 { a ^ b }
  function Half(a: bv32): bv32 { a >> 1 }
  function Twice(a: bv32): bv32 { a << 1 }
  function High(a: bv32): bv32 { a >> 4 }
  function Low(a: bv32): bv32 { a & 0xf }
  function Up(a: bv32): bv32 { a << 4 }
  predicate Odd(a: bv32) { a & 1 == 1 }
  predicate Room1(a: bv32) { a & 0x8000_0000 == 0 }
  predicate Room4(a: bv32) { a & 0xf000_0000 == 0 }

  lemma XorHalf(a: bv32, b: bv32) ensures Half(Xor32(a, b)) == Xor32(Half(a), Half(b)) {}

  lemma XorOdd(a: bv32, b: bv32) ensures Odd(Xor32(a, b)) <==> Odd(a) != Odd(b) {}

  lemma XorAssoc(a: bv32, b: bv32, c: bv32) ensures Xor32(Xor32(a, b), c) == Xor32(a, Xor32(b, c)) {}

  lemma XorComm32(a: bv32, b: bv32) ensures Xor32(a, b) == Xor32(b, a) {}

  lemma XorSelf(a: bv32) ensures Xor32(a, a) == 0 {}

  lemma XorZero32(a: bv32) ensures Xor32(a, 0) == a && Xor32(0, a) == a {}

  lemma XorHigh(a: bv32, b: bv32) ensures High(Xor32(a, b)) == Xor32(High(a), High(b)) {}

  lemma XorLow4(a: bv32, b: bv32) ensures Low(Xor32(a, b)) == Xor32(Low(a), Low(b)) {}

  lemma CutNibble(a: bv32) ensures Xor32(Low(a), Up(High(a))) == a {}

  lemma HighRoom(a: bv32) ensures Room4(High(a)) {}

  lemma LowLow(a: bv32) ensures Low(Low(a)) == Low(a) {}

  lemma HighLow(a: bv32) ensures High(Low(a)) == 0 {}

  lemma TwiceEven(a: bv32) ensures !Odd(Twice(a)) {}

  lemma TwiceHalf(a: bv32) requires Room1(a) ensures Half(Twice(a)) == a {}

  lemma UpIsTwice(a: bv32) ensures Up(a) == Twice(Twice(Twice(Twice(a)))) {}

  lemma RoomForFour(a: bv32)
    requires Room4(a)
    ensures Room1(a) && Room1(Twice(a)) && Room1(Twice(Twice(a))) && Room1(Twice(Twice(Twice(a))))
  {}

  /** Two summands that occur on both sides cancel. */
  lemma XorCancelBoth(a: bv32, b: bv32, p: bv32)
    ensures Xor32(Xor32(a, p), Xor32(b, p)) == Xor32(a, b)
  {
    hide Xor32;
    XorAssoc(a, p, Xor32(b, p));
    XorComm32(b, p);
    XorAssoc(p, p, b);
    XorSelf(p);
    XorZero32(b);
  }

  lemma XorSwap(a: bv32, b: bv32, p: bv32)
    ensures Xor32(Xor32(a, b), p) == Xor32(Xor32(a, p), b)
  {
    hide Xor32;
    XorAssoc(a, b, p);
    XorComm32(b, p);
    XorAssoc(a, p, b);
  }

  lemma XorBack(a: bv32, b: bv32)
    ensures Xor32(Xor32(a, b), b) == a
  {
    hide Xor32;
    XorAssoc(a, b, b);
    XorSelf(b);
    XorZero32(a);
  }

  // ---------------------------------------------------------------- definition, one bit at a time

  function BitStep(c: bv32): bv32 {
    if Odd(c) then Xor32(Half(c), POLYNOMIAL) else Half(c)
  }

  function Steps4(c: bv32): bv32 { BitStep(BitStep(BitStep(BitStep(c)))) }

  function Steps8(c: bv32): bv32 { Steps4(Steps4(c)) }

  function Unit(odd: bool): bv32 { if odd then 1 else 0 }

  /** The n low binary digits of a number as a word. */
  function Digits(b: nat, n: nat): bv32
    decreases n
  {
    if n == 0 then 0 else Xor32(Twice(Digits(b / 2, n - 1)), Unit(b % 2 == 1))
  }

  /** A byte of the buffer, widened to the register. */
  function Bits(b: byte): bv32 { Digits(b, 8) }

  function ByteStep(c: bv32, b: byte): bv32 { Steps8(Xor32(c, Bits(b))) }

  /** The CRC register after `data`, bit by bit. */
  function Crc(c: bv32, data: seq<byte>): bv32 {
    if data == [] then c else ByteStep(Crc(c, Front(data)), Last(data))
  }

  /** The register is linear: its steps distribute over exclusive-or. */
  lemma StepLinear(a: bv32, b: bv32)
    ensures BitStep(Xor32(a, b)) == Xor32(BitStep(a), BitStep(b))
  {
    hide Xor32, Half, Odd;
    XorHalf(a, b);
    XorOdd(a, b);
    XorCancelBoth(Half(a), Half(b), POLYNOMIAL);
    XorSwap(Half(a), Half(b), POLYNOMIAL);
    XorAssoc(Half(a), Half(b), POLYNOMIAL);
  }

  lemma Steps4Linear(a: bv32, b: bv32)
    ensures Steps4(Xor32(a, b)) == Xor32(Steps4(a), Steps4(b))
  {
    hide Xor32, BitStep;
    StepLinear(a, b);
    StepLinear(BitStep(a), BitStep(b));
    StepLinear(BitStep(BitStep(a)), BitStep(BitStep(b)));
    StepLinear(BitStep(BitStep(BitStep(a))), BitStep(BitStep(BitStep(b))));
  }

  /** A bit pattern above the low bit is only shifted. */
  lemma ShiftStep(w: bv32)
    requires Room1(w)
    ensures BitStep(Twice(w)) == w
  {
    hide Odd, Half, Twice, Room1;
    TwiceEven(w);
    TwiceHalf(w);
  }

  lemma ShiftNibble(w: bv32)
    requires Room4(w)
    ensures Steps4(Up(w)) == w
  {
    hide BitStep, Up, Twice, Room1, Room4;
    UpIsTwice(w);
    RoomForFour(w);
    ShiftStep(Twice(Twice(Twice(w))));
    ShiftStep(Twice(Twice(w)));
    ShiftStep(Twice(w));
    ShiftStep(w);
  }

  // ---------------------------------------------------------------- the table

  lemma TableEntry(c: bv32)
    ensures Low(c) as int < 16 && RTABLE[Low(c) as int] == Steps4(Low(c))
  {
    var n := Low(c);
    assert n == 0 || n == 1 || n == 2 || n == 3 || n == 4 || n == 5 || n == 6 || n == 7 || n == 8 || n == 9
        || n == 10 || n == 11 || n == 12 || n == 13 || n == 14 || n == 15;
  }

  /** High bits of the input reach the register unchanged but shifted: xoring them in before or after is the same. */
  lemma LateXor(v: bv32, w: bv32)
    requires Room4(w)
    ensures Steps4(Xor32(v, Up(w))) == Xor32(Steps4(v), w)
  {
    hide Xor32, Steps4, Up, Room4;
    Steps4Linear(v, Up(w));
    ShiftNibble(w);
  }

  /** One table step: four bit steps shift the upper bits down and add a word that depends on the low nibble alone. */
  lemma NibbleStep(c: bv32)
    ensures Low(c) as int < 16
    ensures Xor32(High(c), RTABLE[Low(c) as int]) == Steps4(c)
  {
    hide Xor32, Steps4, Low, High, Up, Room4;
    CutNibble(c);
    HighRoom(c);
    TableEntry(c);
    LateXor(Low(c), High(c));
    XorComm32(Steps4(Low(c)), High(c));
  }

  predicate IsByte(b: bv32) { b & 0xffff_ff00 == 0 }

  lemma ByteNibbles(b: bv32)
    requires IsByte(b)
    ensures Low(High(b)) == High(b) && High(High(b)) == 0
  {
    assert b >> 8 == 0;
  }

  /** The word with the n low bits set. */
  function Ones(n: nat): bv32
    requires n <= 8
  {
    if n == 0 then 0 else if n == 1 then 1 else if n == 2 then 3 else if n == 3 then 7 else if n == 4 then 0xf
    else if n == 5 then 0x1f else if n == 6 then 0x3f else if n == 7 then 0x7f else 0xff
  }

  function And(a: bv32, m: bv32): bv32 { a & m }

  lemma OnesStep(w: bv32, n: nat, odd: bool)
    requires n < 8 && And(w, Ones(n)) == w
    ensures And(Xor32(Twice(w), Unit(odd)), Ones(n + 1)) == Xor32(Twice(w), Unit(odd))
    ensures Half(Xor32(Twice(w), Unit(odd))) == w && (Odd(Xor32(Twice(w), Unit(odd))) <==> odd)
  {
    hide Xor32, Twice, Half, Odd, And;
    NarrowRoom(w, n);
    UnitFacts(odd);
    TwiceEven(w);
    TwiceHalf(w);
    XorOdd(Twice(w), Unit(odd));
    XorHalf(Twice(w), Unit(odd));
    XorZero32(w);
    OnesGrow(w, n, odd);
  }

  lemma UnitFacts(odd: bool) ensures Half(Unit(odd)) == 0 && (Odd(Unit(odd)) <==> odd) {}

  lemma AndMono(w: bv32, m: bv32, k: bv32)
    requires And(w, m) == w && And(m, k) == 0
    ensures And(w, k) == 0
  {
    assert w & k == (w & m) & k == w & (m & k);
  }

  lemma NarrowRoom(w: bv32, n: nat)
    requires n < 8 && And(w, Ones(n)) == w
    ensures Room1(w)
  {
    assert And(Ones(n), 0x8000_0000) == 0;
    AndMono(w, Ones(n), 0x8000_0000);
  }

  lemma AndXor(a: bv32, b: bv32, m: bv32) ensures And(Xor32(a, b), m) == Xor32(And(a, m), And(b, m)) {}

  lemma AndTwice(w: bv32, m: bv32) ensures And(Twice(w), Xor32(Twice(m), 1)) == Twice(And(w, m)) {}

  lemma OnesNext(n: nat) requires n < 8 ensures Ones(n + 1) == Xor32(Twice(Ones(n)), 1) {}

  lemma UnitOdd(m: bv32, odd: bool) ensures And(Unit(odd), Xor32(Twice(m), 1)) == Unit(odd) {}

  lemma OnesGrow(w: bv32, n: nat, odd: bool)
    requires n < 8 && And(w, Ones(n)) == w
    ensures And(Xor32(Twice(w), Unit(odd)), Ones(n + 1)) == Xor32(Twice(w), Unit(odd))
  {
    hide Xor32, Twice, And, Ones, Unit;
    OnesNext(n);
    AndXor(Twice(w), Unit(odd), Ones(n + 1));
    AndTwice(w, Ones(n));
    UnitOdd(Ones(n), odd);
  }

  lemma {:induction false} DigitsNarrow(b: nat, n: nat)
    requires n <= 8
    ensures And(Digits(b, n), Ones(n)) == Digits(b, n)
    decreases n
  {
    if n > 0 {
      hide Xor32, Twice, And, Ones, Unit;
      DigitsNarrow(b / 2, n - 1);
      OnesGrow(Digits(b / 2, n - 1), n - 1, b % 2 == 1);
    } else {
      assert And(0, 0) == 0;
    }
  }

  lemma {:induction false} DigitsInjective(a: nat, b: nat, n: nat)
    requires n <= 8 && a < Exp2(n) && b < Exp2(n) && Digits(a, n) == Digits(b, n)
    ensures a == b
    decreases n
  {
    hide Xor32, Twice, And, Ones, Unit, Half, Odd, Digits, Exp2;
    Exp2Step(n);
    if n > 0 {
      DigitsCut(a, n);
      DigitsCut(b, n);
      DigitsInjective(a / 2, b / 2, n - 1);
    }
  }

  /** The lowest digit, and the others. */
  lemma DigitsCut(a: nat, n: nat)
    requires 0 < n <= 8
    ensures Half(Digits(a, n)) == Digits(a / 2, n - 1) && (Odd(Digits(a, n)) <==> a % 2 == 1)
  {
    hide Xor32, Twice, And, Ones, Unit, Half, Odd;
    DigitsNarrow(a / 2, n - 1);
    OnesStep(Digits(a / 2, n - 1), n - 1, a % 2 == 1);
  }

  lemma MaskIsByte(w: bv32)
    requires And(w, 0xff) == w
    ensures IsByte(w)
  {
    assert w & 0xffff_ff00 == (w & 0xff) & 0xffff_ff00 == w & (0xff & 0xffff_ff00);
  }

  lemma ByteWidth(d: byte)
    ensures IsByte(Bits(d))
  {
    hide Digits, And, IsByte;
    DigitsNarrow(d, 8);
    MaskIsByte(Bits(d));
  }

  /** Only the low nibble of what is xored in selects the table entry. */
  lemma IndexLow(c: bv32, b: bv32)
    ensures Low(Xor32(c, Low(b))) == Low(Xor32(c, b)) && High(Xor32(c, Low(b))) == High(c)
  {
    hide Xor32, Low, High;
    XorLow4(c, Low(b));
    XorLow4(c, b);
    LowLow(b);
    XorHigh(c, Low(b));
    HighLow(b);
    XorZero32(High(c));
  }

  /** Two table steps, low nibble first, are one byte. */
  lemma TwoNibbles(c: bv32, b: bv32)
    requires IsByte(b)
    ensures Low(Xor32(c, b)) as int < 16
    ensures var c1 := Xor32(High(c), RTABLE[Low(Xor32(c, b)) as int]);
            Low(Xor32(c1, High(b))) as int < 16
            && Xor32(High(c1), RTABLE[Low(Xor32(c1, High(b))) as int]) == Steps8(Xor32(c, b))
  {
    hide Xor32, Steps4, Low, High, Up, Room4, IsByte;
    var v := Xor32(c, Low(b));
    IndexLow(c, b);
    NibbleStep(v);
    var c1 := Steps4(v);
    ByteNibbles(b);
    NibbleStep(Xor32(c1, High(b)));
    XorHigh(c1, High(b));
    XorZero32(High(c1));
    CutNibble(b);
    HighRoom(b);
    LateXor(v, High(b));
    XorAssoc(c, Low(b), Up(High(b)));
  }

  /** One turn of the loop of lfs_crc. */
  method CrcByte(crc0: bv32, d: byte) returns (crc: bv32)
    ensures crc == ByteStep(crc0, d)
  {
    hide Xor32, Steps8, Bits, Low, High, IsByte;
    var b := Bits(d);
    ByteWidth(d);
    TwoNibbles(crc0, b);
    crc := Xor32(High(crc0), RTABLE[Low(Xor32(crc0, b)) as int]);
    crc := Xor32(High(crc), RTABLE[Low(Xor32(crc, High(b))) as int]);
  }

  /** lfs_crc: two table lookups per byte. */
  method LfsCrc(crc0: bv32, data: seq<byte>) returns (crc: bv32)
    ensures crc == Crc(crc0, data)
  {
    hide ByteStep;
    crc := crc0;
    for i := 0 to |data|
      invariant crc == Crc(crc0, data[..i])
    {
      SplitAt(data, i);
      Snoc(data[..i], data[i]);
      crc := CrcByte(crc, data[i]);
    }
    assert data[..|data|] == data;
  }

  // ---------------------------------------------------------------- what the checksum does for a log

  /** Checksums compose: a log can be summed piece by piece. */
  lemma {:induction false} CrcConcat(c: bv32, a: seq<byte>, b: seq<byte>)
    ensures Crc(c, a + b) == Crc(Crc(c, a), b)
    decreases |b|
  {
    hide ByteStep;
    if b == [] {
      Neutral(a);
    } else {
      AppendFront(a, b);
      CrcConcat(c, a, Front(b));
    }
  }

  function Shr8(c: bv32): bv32 { c >> 8 }
  function Up8(c: bv32): bv32 { c << 8 }
  function Low8(c: bv32): bv32 { c & 0xff }

  /** The number the n low bits of a word stand for. */
  function Value(c: bv32, n: nat): (v: nat)
    ensures v < Exp2(n)
    decreases n
  {
    if n == 0 then 0 else 2 * Value(Half(c), n - 1) + (if Odd(c) then 1 else 0)
  }

  /** The low byte of a word. */
  function ByteOf(c: bv32): byte {
    assert Exp2(8) == 0x100;
    Value(c, 8)
  }

  /** lfs_tole32: the checksum as it is stored behind its tag. */
  function LeBytes(c: bv32): (s: seq<byte>)
    ensures |s| == 4
  {
    WordSizes();
    Le32(Value(c, 32))
  }

  /** lfs_fromle32 */
  function FromLeBytes(s: seq<byte>): bv32
    requires |s| == 4
  {
    Load(s)
  }

  /** Up to four bytes as one little-endian word. */
  function Load(x: seq<byte>): bv32 {
    if x == [] then 0 else Xor32(Bits(x[0]), Up8(Load(x[1..])))
  }

  lemma CutOnes(c: bv32, n: nat)
    requires 0 < n <= 8
    ensures And(c, Ones(n)) == Xor32(Twice(And(Half(c), Ones(n - 1))), Unit(Odd(c)))
  {
    hide Ones;
    OnesNext(n - 1);
    CutMask(c, Ones(n - 1));
  }

  lemma CutBit(c: bv32) ensures Xor32(Twice(Half(c)), Unit(Odd(c))) == c {}

  lemma CutMask(c: bv32, m: bv32)
    ensures And(c, Xor32(Twice(m), 1)) == Xor32(Twice(And(Half(c), m)), Unit(Odd(c)))
  {
    hide Xor32, Twice, And, Unit, Half, Odd;
    var all := Xor32(Twice(m), 1);
    CutBit(c);
    AndXor(Twice(Half(c)), Unit(Odd(c)), all);
    AndTwice(Half(c), m);
    UnitOdd(m, Odd(c));
  }

  lemma DigitsStep(h: nat, odd: bool, n: nat)
    requires n > 0
    ensures Digits(2 * h + (if odd then 1 else 0), n) == Xor32(Twice(Digits(h, n - 1)), Unit(odd))
  {
    hide Xor32, Twice, Unit;
    var v := 2 * h + (if odd then 1 else 0);
    assert v / 2 == h && (v % 2 == 1 <==> odd);
  }

  lemma ValueStep(c: bv32, n: nat)
    requires n > 0
    ensures Value(c, n) == 2 * Value(Half(c), n - 1) + (if Odd(c) then 1 else 0)
  {
  }

  lemma NoDigits(c: bv32)
    ensures Digits(Value(c, 0), 0) == And(c, Ones(0))
  {
    AndNothing(c);
  }

  lemma {:induction false} DigitsOfValue(c: bv32, n: nat)
    requires n <= 8
    ensures Digits(Value(c, n), n) == And(c, Ones(n))
    decreases n
  {
    hide Xor32, Twice, And, Ones, Unit, Half, Odd, Exp2, Digits, Value;
    if n == 0 {
      NoDigits(c);
    } else {
      ValueStep(c, n);
      DigitsStep(Value(Half(c), n - 1), Odd(c), n);
      DigitsOfValue(Half(c), n - 1);
      CutOnes(c, n);
    }
  }

  // ---------------------------------------------------------------- bit vectors and numbers stand for the same words

  function Halves(c: bv32, m: nat): bv32 { if m == 0 then c else Halves(Half(c), m - 1) }

  lemma EightHalves(c: bv32)
    ensures Halves(c, 8) == Shr8(c)
  {
    hide Half;
    var c2 := Half(Half(c));
    var c4 := Half(Half(c2));
    var c6 := Half(Half(c4));
    assert Halves(c, 8) == Halves(c2, 6);
    assert Halves(c2, 6) == Halves(c4, 4);
    assert Halves(c4, 4) == Halves(c6, 2);
    assert Halves(c6, 2) == Halves(Half(Half(c6)), 0);
    ShiftsAdd(c);
  }

  lemma ShiftsAdd(c: bv32)
    ensures Half(Half(Half(Half(Half(Half(Half(Half(c)))))))) == Shr8(c)
  {
  }

  lemma {:induction false} ValueSplit(c: bv32, m: nat, k: nat)
    ensures Value(c, m + k) == Value(c, m) + Exp2(m) * Value(Halves(c, m), k)
    decreases m
  {
    hide Half, Odd, Value, Exp2;
    if m == 0 {
      NoValue(c);
    } else {
      ValueSplit(Half(c), m - 1, k);
      ValueStep(c, m + k);
      ValueStep(c, m);
      TwiceProduct(m, Value(Halves(c, m), k));
    }
  }

  lemma NoValue(c: bv32)
    ensures Value(c, 0) == 0 && Exp2(0) == 1
  {
  }

  lemma TwiceProduct(m: nat, v: nat)
    requires m > 0
    ensures Exp2(m) * v == 2 * (Exp2(m - 1) * v)
  {
    var e := Exp2(m - 1);
    assert (2 * e) * v == 2 * (e * v);
  }

  lemma ValueByte(c: bv32, k: nat)
    ensures Value(c, 8 + k) == ByteOf(c) + 0x100 * Value(Shr8(c), k)
  {
    hide Value, Halves, Shr8;
    EightHalves(c);
    ValueSplit(c, 8, k);
    assert Exp2(8) == 0x100;
  }

  /** A stored checksum is the register's bytes, the low one first. */
  lemma LowByteFirst(c: bv32)
    ensures LeBytes(c) == [ByteOf(c), ByteOf(Shr8(c)), ByteOf(Shr8(Shr8(c))), ByteOf(Shr8(Shr8(Shr8(c))))]
  {
    hide Value, Shr8, ByteOf;
    WordSizes();
    var c1, c2, c3 := Shr8(c), Shr8(Shr8(c)), Shr8(Shr8(Shr8(c)));
    ValueByte(c, 24);
    ValueByte(c1, 16);
    ValueByte(c2, 8);
    ValueByte(c3, 0);
    NoValue(Shr8(c3));
    var w, w1, w2 := Value(c, 32), Value(c1, 24), Value(c2, 16);
    ModUnique(w, 0x100, w1, ByteOf(c));
    ModUnique(w1, 0x100, w2, ByteOf(c1));
    ModUnique(w2, 0x100, Value(c3, 8), ByteOf(c2));
  }

  /** Exclusive-or of bit vectors is that of the numbers they stand for. */
  lemma {:induction false} SameXor(a: bv32, b: bv32, n: nat)
    ensures Value(Xor32(a, b), n) == Xor(Value(a, n), Value(b, n))
    decreases n
  {
    hide Xor32, Half, Odd, Value, Xor;
    if n == 0 {
      NoValue(a);
      NoValue(b);
      NoValue(Xor32(a, b));
      XorZero(0);
    } else {
      XorHalf(a, b);
      XorOdd(a, b);
      ValueStep(a, n);
      ValueStep(b, n);
      ValueStep(Xor32(a, b), n);
      SameXor(Half(a), Half(b), n - 1);
      XorStep(Value(a, n), Value(b, n));
    }
  }

  lemma AndNothing(c: bv32) ensures And(c, 0) == 0 {}

  lemma ByteOfBits(c: bv32)
    ensures Bits(ByteOf(c)) == Low8(c)
  {
    hide Digits, Value;
    DigitsOfValue(c, 8);
  }

  lemma CutByte(c: bv32) ensures Xor32(Low8(c), Up8(Shr8(c))) == c {}

  lemma DropByte(c: bv32)
    ensures Xor32(c, Low8(c)) == Up8(Shr8(c))
  {
    hide Xor32, Low8, Up8, Shr8;
    CutByte(c);
    XorComm32(Low8(c), Up8(Shr8(c)));
    XorBack(Up8(Shr8(c)), Low8(c));
  }

  lemma ShiftedOut(c: bv32) ensures Shr8(Shr8(Shr8(Shr8(c)))) == 0 {}

  lemma Up8IsUp(c: bv32) ensures Up8(c) == Up(Up(c)) {}

  predicate Room8(c: bv32) { c & 0xff00_0000 == 0 }

  lemma ShrRoom(c: bv32) ensures Room8(Shr8(c)) {}

  lemma Room8Up(c: bv32)
    requires Room8(c)
    ensures Room4(c) && Room4(Up(c))
  {
  }

  lemma Shift8(w: bv32)
    requires Room8(w)
    ensures Steps8(Up8(w)) == w
  {
    hide Steps4, Up, Up8, Room4, Room8;
    Up8IsUp(w);
    Room8Up(w);
    ShiftNibble(Up(w));
    ShiftNibble(w);
  }

  /** What is written little-endian is read back. */
  lemma LeRoundTrip(c: bv32)
    ensures FromLeBytes(LeBytes(c)) == c
  {
    hide Xor32, Bits, ByteOf, Up8, Shr8, Low8, LeBytes;
    var c1 := Shr8(c);
    var c2 := Shr8(c1);
    var c3 := Shr8(c2);
    var s := LeBytes(c);
    LowByteFirst(c);
    assert s[1..] == [ByteOf(c1), ByteOf(c2), ByteOf(c3)] && s[1..][1..] == [ByteOf(c2), ByteOf(c3)];
    assert s[1..][1..][1..] == [ByteOf(c3)] && s[1..][1..][1..][1..] == [];
    ByteOfBits(c);
    ByteOfBits(c1);
    ByteOfBits(c2);
    ByteOfBits(c3);
    CutByte(c);
    CutByte(c1);
    CutByte(c2);
    CutByte(c3);
    ShiftedOut(c);
    assert Load([ByteOf(c3)]) == c3;
    assert Load([ByteOf(c2), ByteOf(c3)]) == c2;
    assert Load([ByteOf(c1), ByteOf(c2), ByteOf(c3)]) == c1;
  }

  /** Feeding the register its own low byte shifts that byte out. */
  lemma OwnByte(c: bv32)
    ensures ByteStep(c, ByteOf(c)) == Shr8(c)
  {
    hide Xor32, Bits, ByteOf, Up8, Shr8, Low8, Steps8, Room8;
    ByteOfBits(c);
    DropByte(c);
    ShrRoom(c);
    Shift8(Shr8(c));
  }

  lemma CrcOne(c: bv32, a: byte, rest: seq<byte>)
    ensures Crc(c, [a] + rest) == Crc(ByteStep(c, a), rest)
  {
    hide ByteStep;
    Snoc([], a);
    Neutral([a]);
    assert Crc(c, [a]) == ByteStep(Crc(c, []), a);
    CrcConcat(c, [a], rest);
  }

  /** A segment followed by its own little-endian checksum always leaves residue 0. */
  lemma ResidueZero(c: bv32, data: seq<byte>)
    ensures Crc(c, data + LeBytes(Crc(c, data))) == 0
  {
    hide ByteStep, ByteOf, Shr8, LeBytes;
    var k := Crc(c, data);
    LowByteFirst(k);
    var k1 := Shr8(k);
    var k2 := Shr8(k1);
    var k3 := Shr8(k2);
    CrcConcat(c, data, LeBytes(k));
    assert LeBytes(k) == [ByteOf(k)] + ([ByteOf(k1)] + ([ByteOf(k2)] + ([ByteOf(k3)] + [])));
    CrcOne(k, ByteOf(k), [ByteOf(k1)] + ([ByteOf(k2)] + ([ByteOf(k3)] + [])));
    CrcOne(k1, ByteOf(k1), [ByteOf(k2)] + ([ByteOf(k3)] + []));
    CrcOne(k2, ByteOf(k2), [ByteOf(k3)] + []);
    CrcOne(k3, ByteOf(k3), []);
    OwnByte(k);
    OwnByte(k1);
    OwnByte(k2);
    OwnByte(k3);
    ShiftedOut(k);
  }

  // ---------------------------------------------------------------- error detection

  lemma BitStepInjective(a: bv32, b: bv32)
    requires BitStep(a) == BitStep(b)
    ensures a == b
  {
  }

  lemma Steps4Injective(a: bv32, b: bv32)
    requires Steps4(a) == Steps4(b)
    ensures a == b
  {
    hide BitStep;
    BitStepInjective(BitStep(BitStep(BitStep(a))), BitStep(BitStep(BitStep(b))));
    BitStepInjective(BitStep(BitStep(a)), BitStep(BitStep(b)));
    BitStepInjective(BitStep(a), BitStep(b));
    BitStepInjective(a, b);
  }

  lemma Steps8Injective(a: bv32, b: bv32)
    requires Steps8(a) == Steps8(b)
    ensures a == b
  {
    hide Steps4;
    Steps4Injective(Steps4(a), Steps4(b));
    Steps4Injective(a, b);
  }

  /** The same tail never makes two different registers equal. */
  lemma {:induction false} CrcInjective(a: bv32, b: bv32, data: seq<byte>)
    requires Crc(a, data) == Crc(b, data)
    ensures a == b
  {
    if data != [] {
      hide Xor32, Steps8, Bits;
      var x, y, d := Crc(a, Front(data)), Crc(b, Front(data)), Bits(Last(data));
      Steps8Injective(Xor32(x, d), Xor32(y, d));
      XorBack(x, d);
      XorBack(y, d);
      CrcInjective(a, b, Front(data));
    }
  }

  function Advance(c: bv32, n: nat): bv32
    decreases n
  {
    if n == 0 then c else Advance(Steps8(c), n - 1)
  }

  lemma {:induction false} AdvanceInjective(a: bv32, b: bv32, n: nat)
    requires Advance(a, n) == Advance(b, n)
    ensures a == b
    decreases n
  {
    if n > 0 {
      hide Steps8;
      AdvanceInjective(Steps8(a), Steps8(b), n - 1);
      Steps8Injective(a, b);
    }
  }

  /** A word of at most n bytes. */
  predicate Narrow(n: nat, w: bv32)
    requires n <= 4
  {
    if n == 0 then w == 0
    else if n == 1 then w & 0xffff_ff00 == 0
    else if n == 2 then w & 0xffff_0000 == 0
    else n == 3 ==> w & 0xff00_0000 == 0
  }

  lemma WidenLow(b: bv32, w: bv32)
    requires IsByte(b)
    ensures Low8(Xor32(b, Up8(w))) == b
  {
  }

  lemma WidenHigh(b: bv32, w: bv32)
    requires IsByte(b) && Room8(w)
    ensures Shr8(Xor32(b, Up8(w))) == w
  {
  }

  lemma Room8Of1(w: bv32) requires w & 0xffff_ff00 == 0 ensures w & 0xff00_0000 == 0 {}

  lemma Room8Of2(w: bv32) requires w & 0xffff_0000 == 0 ensures w & 0xff00_0000 == 0 {}

  lemma Room8Of0() ensures (0 as bv32) & 0xff00_0000 == 0 {}

  lemma WidenRoom(w: bv32, n: nat)
    requires n < 4 && Narrow(n, w)
    ensures Room8(w)
  {
    if n == 0 {
      Room8Of0();
    } else if n == 1 {
      Room8Of1(w);
    } else if n == 2 {
      Room8Of2(w);
    }
  }

  lemma WidenNarrow(b: bv32, w: bv32, n: nat)
    requires IsByte(b) && n < 4 && Narrow(n, w)
    ensures Narrow(n + 1, Xor32(b, Up8(w)))
  {
    if n == 0 {
      assert Xor32(b, Up8(w)) & 0xffff_ff00 == 0;
    } else if n == 1 {
      assert Xor32(b, Up8(w)) & 0xffff_0000 == 0;
    } else if n == 2 {
      assert Xor32(b, Up8(w)) & 0xff00_0000 == 0;
    }
  }

  /** Putting a byte below a word of n bytes gives a word of n + 1, which still shows both. */
  lemma Widen(b: bv32, w: bv32, n: nat)
    requires IsByte(b) && n < 4 && Narrow(n, w)
    ensures Narrow(n + 1, Xor32(b, Up8(w)))
    ensures Low8(Xor32(b, Up8(w))) == b && Shr8(Xor32(b, Up8(w))) == w
    ensures Room8(w)
  {
    hide IsByte, Narrow, Xor32, Up8, Low8, Shr8, Room8;
    WidenRoom(w, n);
    WidenLow(b, w);
    WidenHigh(b, w);
    WidenNarrow(b, w, n);
  }

  lemma {:induction false} LoadNarrow(x: seq<byte>)
    requires |x| <= 4
    ensures Narrow(|x|, Load(x))
  {
    if x != [] {
      hide Bits, Xor32, Up8, IsByte, Room8;
      LoadNarrow(x[1..]);
      ByteWidth(x[0]);
      Widen(Bits(x[0]), Load(x[1..]), |x| - 1);
    }
  }

  /** Up to four bytes can be xored into the register all at once before its steps. */
  lemma {:induction false} CrcOfWord(c: bv32, x: seq<byte>)
    requires |x| <= 4
    ensures Crc(c, x) == Advance(Xor32(c, Load(x)), |x|)
    decreases |x|
  {
    hide Xor32, Bits, Up8, Steps8, IsByte, Room8, Narrow;
    if x == [] {
      XorZero32(c);
    } else {
      var a, rest := x[0], x[1..];
      var w := Load(rest);
      HeadTail(x);
      CrcOne(c, a, rest);
      CrcOfWord(ByteStep(c, a), rest);
      LoadNarrow(rest);
      ByteWidth(a);
      Widen(Bits(a), w, |rest|);
      LateByte(Xor32(c, Bits(a)), w);
      XorAssoc(c, Bits(a), Up8(w));
    }
  }

  lemma LateByte(v: bv32, w: bv32)
    requires Room8(w)
    ensures Steps8(Xor32(v, Up8(w))) == Xor32(Steps8(v), w)
  {
    hide Xor32, Steps4, Up, Up8, Room4, Room8;
    Up8IsUp(w);
    Room8Up(w);
    LateXor(v, Up(w));
    LateXor(Steps4(v), w);
  }

  lemma SameByte(a: byte, b: byte)
    requires Bits(a) == Bits(b)
    ensures a == b
  {
    hide Digits;
    assert Exp2(8) == 0x100;
    DigitsInjective(a, b, 8);
  }

  lemma {:induction false} LoadInjective(x: seq<byte>, y: seq<byte>)
    requires |x| == |y| <= 4 && Load(x) == Load(y)
    ensures x == y
  {
    if x != [] {
      hide Xor32, Bits, Up8, IsByte, Room8, Narrow, Low8, Shr8;
      var n := |x| - 1;
      LoadNarrow(x[1..]);
      LoadNarrow(y[1..]);
      ByteWidth(x[0]);
      ByteWidth(y[0]);
      Widen(Bits(x[0]), Load(x[1..]), n);
      Widen(Bits(y[0]), Load(y[1..]), n);
      SameByte(x[0], y[0]);
      LoadInjective(x[1..], y[1..]);
      HeadTail(x);
      HeadTail(y);
    }
  }

  /** Two buffers of one length that differ, and only within four consecutive bytes, never have the same checksum. */
  lemma BurstDetected(c: bv32, before: seq<byte>, x: seq<byte>, y: seq<byte>, after: seq<byte>)
    requires |x| == |y| <= 4 && x != y
    ensures Crc(c, (before + x) + after) != Crc(c, (before + y) + after)
  {
    hide ByteStep, Load, Xor32, Advance;
    if Crc(c, (before + x) + after) == Crc(c, (before + y) + after) {
      CrcConcat(c, before + x, after);
      CrcConcat(c, before + y, after);
      CrcInjective(Crc(c, before + x), Crc(c, before + y), after);
      CrcConcat(c, before, x);
      CrcConcat(c, before, y);
      var k := Crc(c, before);
      CrcOfWord(k, x);
      CrcOfWord(k, y);
      AdvanceInjective(Xor32(k, Load(x)), Xor32(k, Load(y)), |x|);
      XorComm32(k, Load(x));
      XorComm32(k, Load(y));
      XorBack(Load(x), k);
      XorBack(Load(y), k);
      LoadInjective(x, y);
    }
  }
}
