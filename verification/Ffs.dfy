/** __rt_ffs: the lowest set bit of a word, by a table over its bytes. */
module Ffs {
  import opened Words
  import opened CtzMath

  /** __lowest_bit_bitmap, row by row. */
  const LOWEST_BIT: seq<seq<nat>> := [
    [0, 0, 1, 0, 2, 0, 1, 0, 3, 0, 1, 0, 2, 0, 1, 0],
    [4, 0, 1, 0, 2, 0, 1, 0, 3, 0, 1, 0, 2, 0, 1, 0],
    [5, 0, 1, 0, 2, 0, 1, 0, 3, 0, 1, 0, 2, 0, 1, 0],
    [4, 0, 1, 0, 2, 0, 1, 0, 3, 0, 1, 0, 2, 0, 1, 0],
    [6, 0, 1, 0, 2, 0, 1, 0, 3, 0, 1, 0, 2, 0, 1, 0],
    [4, 0, 1, 0, 2, 0, 1, 0, 3, 0, 1, 0, 2, 0, 1, 0],
    [5, 0, 1, 0, 2, 0, 1, 0, 3, 0, 1, 0, 2, 0, 1, 0],
    [4, 0, 1, 0, 2, 0, 1, 0, 3, 0, 1, 0, 2, 0, 1, 0],
    [7, 0, 1, 0, 2, 0, 1, 0, 3, 0, 1, 0, 2, 0, 1, 0],
    [4, 0, 1, 0, 2, 0, 1, 0, 3, 0, 1, 0, 2, 0, 1, 0],
    [5, 0, 1, 0, 2, 0, 1, 0, 3, 0, 1, 0, 2, 0, 1, 0],
    [4, 0, 1, 0, 2, 0, 1, 0, 3, 0, 1, 0, 2, 0, 1, 0],
    [6, 0, 1, 0, 2, 0, 1, 0, 3, 0, 1, 0, 2, 0, 1, 0],
    [4, 0, 1, 0, 2, 0, 1, 0, 3, 0, 1, 0, 2, 0, 1, 0],
    [5, 0, 1, 0, 2, 0, 1, 0, 3, 0, 1, 0, 2, 0, 1, 0],
    [4, 0, 1, 0, 2, 0, 1, 0, 3, 0, 1, 0, 2, 0, 1, 0]]

  function LowestBit(b: nat): nat
    requires b < 0x100
  {
    TableSize(b / 16);
    LOWEST_BIT[b / 16][b % 16]
  }

  lemma TableSize(h: nat)
    requires h < 16
    ensures |LOWEST_BIT| == 16 && |LOWEST_BIT[h]| == 16
  {
  }

  lemma SmallCtz()
    ensures Ctz(1) == Ctz(3) == Ctz(5) == Ctz(7) == Ctz(9) == Ctz(11) == Ctz(13) == Ctz(15) == 0
    ensures Ctz(2) == Ctz(6) == Ctz(10) == Ctz(14) == 1 && Ctz(4) == Ctz(12) == 2 && Ctz(8) == 3
  {
  }

  /** In every row the first entry stands for the upper four bits, the others for the lower four. */
  lemma Rows(h: nat, l: nat)
    requires h < 16 && l < 16
    ensures |LOWEST_BIT| == 16 && |LOWEST_BIT[h]| == 16
    ensures l > 0 ==> LOWEST_BIT[h][l] == Ctz(l)
    ensures l == 0 && h > 0 ==> LOWEST_BIT[h][l] == 4 + Ctz(h)
  {
    hide Ctz;
    SmallCtz();
  }

  lemma {:induction false} CtzSplit(h: nat, l: nat, k: nat)
    requires l < Exp2(k) && h * Exp2(k) + l > 0
    ensures l > 0 ==> Ctz(h * Exp2(k) + l) == Ctz(l)
    ensures l == 0 ==> h > 0 && Ctz(h * Exp2(k) + l) == k + Ctz(h)
    decreases k
  {
    hide Exp2, Ctz;
    Exp2Step(k);
    if k > 0 {
      var e, n := Exp2(k - 1), h * Exp2(k) + l;
      TwiceTimes(h, e);
      HalveSum(h * e, l);
      CtzStep(n);
      if l > 0 { CtzStep(l); }
      if l % 2 == 0 { CtzSplit(h, l / 2, k - 1); }
    }
  }

  lemma TwiceTimes(h: nat, e: nat)
    ensures h * (2 * e) == 2 * (h * e)
  {
  }

  lemma CtzStep(n: nat)
    requires n > 0
    ensures n % 2 == 1 ==> Ctz(n) == 0
    ensures n % 2 == 0 ==> n / 2 > 0 && Ctz(n) == 1 + Ctz(n / 2)
  {
  }

  /** The table is right for every byte. */
  lemma TableIsRight(b: nat)
    requires 0 < b < 0x100
    ensures LowestBit(b) == Ctz(b)
  {
    hide Ctz;
    Rows(b / 16, b % 16);
    assert Exp2(4) == 16;
    CtzSplit(b / 16, b % 16, 4);
  }

  /** __rt_ffs */
  function RtFfs(value: nat): nat
    requires value < WORD_LIMIT
  {
    if value == 0 then 0
    else if value % 0x100 != 0 then LowestBit(value % 0x100) + 1
    else if value / 0x100 % 0x100 != 0 then LowestBit(value / 0x100 % 0x100) + 9
    else if value / 0x1_0000 % 0x100 != 0 then LowestBit(value / 0x1_0000 % 0x100) + 17
    else LowestBit(value / 0x100_0000) + 25
  }

  lemma ByteOf(v: nat)
    requires v > 0
    ensures v % 0x100 != 0 ==> Ctz(v) == Ctz(v % 0x100)
    ensures v % 0x100 == 0 ==> v / 0x100 > 0 && Ctz(v) == 8 + Ctz(v / 0x100)
  {
    hide Ctz;
    assert Exp2(8) == 0x100;
    assert v == v / 0x100 * 0x100 + v % 0x100;
    CtzSplit(v / 0x100, v % 0x100, 8);
  }

  lemma Bytes(v: nat)
    ensures v / 0x1_0000 == v / 0x100 / 0x100 && v / 0x100_0000 == v / 0x100 / 0x100 / 0x100
  {
  }

  /** __rt_ffs counts from one: the position of the lowest set bit, and zero for zero. */
  lemma FfsIsRight(value: nat)
    requires value < WORD_LIMIT
    ensures RtFfs(value) == if value == 0 then 0 else Ctz(value) + 1
  {
    hide Ctz, LowestBit;
    if value != 0 {
      Bytes(value);
      var v1 := value / 0x100;
      var v2 := v1 / 0x100;
      ByteOf(value);
      if value % 0x100 != 0 {
        TableIsRight(value % 0x100);
      } else {
        ByteOf(v1);
        if v1 % 0x100 != 0 {
          TableIsRight(v1 % 0x100);
        } else {
          ByteOf(v2);
          if v2 % 0x100 != 0 {
            TableIsRight(v2 % 0x100);
          } else {
            TableIsRight(v2 / 0x100);
          }
        }
      }
    }
  }

  // ---------------------------------------------------------------- single bits

  /** Whether bit p of a word is set. */
  predicate Bit(w: nat, p: nat)
    decreases p
  {
    if p == 0 then w % 2 == 1 else Bit(w / 2, p - 1)
  }

  /** Or-ing a word with 1 << p, and masking that bit away. */
  function SetBit(w: nat, p: nat): nat { if Bit(w, p) then w else w + Exp2(p) }

  function ClearBit(w: nat, p: nat): nat
  {
    BitIsThere(w, p);
    if Bit(w, p) then w - Exp2(p) else w
  }

  lemma {:induction false} BitIsThere(w: nat, p: nat)
    ensures Bit(w, p) ==> Exp2(p) <= w
    decreases p
  {
    hide Exp2, Bit;
    Exp2Step(p);
    BitStep(w, p);
    if p > 0 { BitIsThere(w / 2, p - 1); }
  }

  lemma BitStep(w: nat, p: nat)
    ensures p == 0 ==> (Bit(w, p) <==> w % 2 == 1)
    ensures p > 0 ==> (Bit(w, p) <==> Bit(w / 2, p - 1))
  {
  }

  lemma {:induction false} SetBitBits(w: nat, p: nat, q: nat)
    ensures Bit(SetBit(w, p), q) <==> Bit(w, q) || p == q
    decreases q
  {
    hide Exp2, Bit;
    if !Bit(w, p) {
      Exp2Step(p);
      BitStep(w, p);
      BitStep(w, q);
      BitStep(w + Exp2(p), q);
      if p == 0 {
        HalveSum(w / 2, 1);
      } else {
        HalveSum(Exp2(p - 1), w);
        if q > 0 { SetBitBits(w / 2, p - 1, q - 1); }
      }
    }
  }

  lemma {:induction false} ClearBitBits(w: nat, p: nat, q: nat)
    ensures Bit(ClearBit(w, p), q) <==> Bit(w, q) && p != q
    decreases q
  {
    hide Exp2, Bit;
    BitIsThere(w, p);
    if Bit(w, p) {
      Exp2Step(p);
      BitStep(w, p);
      BitStep(w, q);
      BitStep(w - Exp2(p), q);
      if p == 0 {
        HalveSum(w / 2, 0);
      } else {
        BitIsThere(w / 2, p - 1);
        HalveSum(0 - Exp2(p - 1), w);
        if q > 0 { ClearBitBits(w / 2, p - 1, q - 1); }
      }
    }
  }

  lemma {:induction false} SetBitBound(w: nat, p: nat, n: nat)
    requires w < Exp2(n) && p < n
    ensures SetBit(w, p) < Exp2(n)
    decreases n
  {
    var e := Exp2(n - 1);
    assert Exp2(n) == 2 * e;
    if !Bit(w, p) && p > 0 {
      SetBitBound(w / 2, p - 1, n - 1);
      HalfBound(w, Exp2(p - 1), e);
    }
  }

  lemma HalfBound(w: nat, a: nat, e: nat)
    requires w / 2 + a < e
    ensures w + 2 * a < 2 * e
  {
  }

  /** The lowest set bit is set, and none below it. */
  lemma {:induction false} LowestIsSet(w: nat)
    requires w > 0
    ensures Bit(w, Ctz(w)) && forall q :: 0 <= q < Ctz(w) ==> !Bit(w, q)
  {
    if w % 2 == 0 {
      LowestIsSet(w / 2);
      forall q | 0 <= q < Ctz(w)
        ensures !Bit(w, q)
      {
        if q > 0 { assert !Bit(w / 2, q - 1); }
      }
    }
  }

  lemma {:induction false} NoBits(p: nat)
    ensures !Bit(0, p)
  {
    if p > 0 { NoBits(p - 1); }
  }
}
