/** Shifts, the point transform of successive approximation, and what one more bit of a
    coefficient adds (sections G.1.2 and A.4 of ITU-T T.81). */
module PointTransform {

  function Abs(x: int): nat {
    if x < 0 then -x else x
  }

  function Pow2(n: nat): (p: nat)
    ensures p >= 1
  {
    if n == 0 then 1 else 2 * Pow2(n - 1)
  }

  /** x >> n: the arithmetic right shift. */
  function Shr(x: int, n: nat): int
    decreases n
  {
    if n == 0 then x else Shr(x / 2, n - 1)
  }

  /** The point transform of an AC coefficient: division by 2^al with rounding towards 0. */
  function Trunc(x: int, al: nat): int {
    if x >= 0 then Shr(x, al) else -Shr(-x, al)
  }

  /** Number of the leading bit of w. */
  function Log2(w: nat): nat {
    if w / 2 == 0 then 0 else 1 + Log2(w / 2)
  }

  lemma {:induction false} Log2Bound(w: nat, n: nat)
    requires w < Pow2(n)
    ensures n > 0 ==> Log2(w) < n
    ensures w != 0 ==> Pow2(Log2(w)) <= w < 2 * Pow2(Log2(w))
    decreases w
  {
    if w / 2 != 0 {
      Log2Bound(w / 2, n - 1);
    }
  }

  /** x << n */
  function Shift(x: int, n: nat): int
    decreases n
  {
    if n == 0 then x else Shift(2 * x, n - 1)
  }

  lemma {:induction false} ShrLegal(x: int, al: nat)
    ensures -0x4000 <= x < 0x4000 ==> -0x4000 <= Shr(x, al) < 0x4000
    ensures x >= 0 ==> 0 <= Shr(x, al) <= x
    decreases al
  {
    if al != 0 {
      ShrLegal(x / 2, al - 1);
    }
  }

  lemma TruncShrinks(x: int, al: nat)
    ensures Abs(Trunc(x, al)) <= Abs(x)
  {
    ShrLegal(Abs(x), al);
  }

  lemma {:induction false} ShrSucc(x: int, n: nat)
    ensures Shr(x, n + 1) == Shr(x, n) / 2
    decreases n
  {
    if n != 0 {
      ShrSucc(x / 2, n - 1);
    }
  }

  /** Shr is the division by a power of two. */
  lemma ShrIsDiv(x: int, n: nat)
    ensures Shr(x, n) * Pow2(n) <= x < (Shr(x, n) + 1) * Pow2(n)
    ensures x / Pow2(n) == Shr(x, n)
  {
    ShrBounds(x, n);
    QuotientIs(x, Pow2(n), Shr(x, n));
  }

  lemma {:induction false} ShrBounds(x: int, n: nat)
    ensures Shr(x, n) * Pow2(n) <= x < (Shr(x, n) + 1) * Pow2(n)
    decreases n
  {
    if n != 0 {
      ShrBounds(x / 2, n - 1);
      TimesTwice(Shr(x, n), Pow2(n - 1));
      TimesTwice(Shr(x, n) + 1, Pow2(n - 1));
    }
  }

  lemma TimesTwice(q: int, p: int)
    ensures q * (2 * p) == 2 * (q * p)
  {
  }

  lemma QuotientIs(x: int, d: nat, q: int)
    requires d >= 1 && q * d <= x < (q + 1) * d
    ensures x / d == q
  {
    var e := x / d - q;
    assert x == (q + e) * d + x % d;
    assert (q + e) * d == q * d + e * d;
    assert (q + 1) * d == q * d + d;
    MultipleBound(e, d);
  }

  lemma MultipleBound(k: int, d: nat)
    requires d >= 1
    ensures k >= 1 ==> k * d >= d
    ensures k <= -1 ==> k * d <= 0 - d
  {
    if k >= 1 {
      assert k * d == d + (k - 1) * d;
    } else if k <= -1 {
      assert k * d == (k + 1) * d - d;
    }
  }

  lemma {:induction false} ShiftAdd(x: int, y: int, n: nat)
    ensures Shift(x + y, n) == Shift(x, n) + Shift(y, n)
    decreases n
  {
    if n != 0 {
      ShiftAdd(2 * x, 2 * y, n - 1);
    }
  }

  lemma {:induction false} ShiftFacts(x: int, n: nat)
    ensures Shift(1, n) == Pow2(n)
    ensures Shift(0, n) == 0 && Shift(-x, n) == -Shift(x, n)
    ensures Shift(x, n + 1) == 2 * Shift(x, n)
    ensures Shr(Shift(x, n), n) == x
    ensures x > 0 ==> Shift(x, n) > 0
    decreases n
  {
    if n != 0 {
      ShiftFacts(2 * x, n - 1);
      ShiftAdd(1, 1, n - 1);
      ShiftFacts(1, n - 1);
      ShiftHalf(x, n);
      ShrSucc(Shift(x, n), n - 1);
    }
  }

  lemma {:induction false} ShiftHalf(x: int, n: nat)
    requires n >= 1
    ensures Shift(x, n) == 2 * Shift(x, n - 1)
    decreases n
  {
    if n >= 2 {
      ShiftHalf(2 * x, n - 1);
    }
  }

  /** The value with its al low bits cleared, as the decoder stores it: for a DC coefficient,
      and for an AC coefficient. */
  function DcKept(c: int, al: nat): int {
    Shift(Shr(c, al), al)
  }

  function AcKept(c: int, al: nat): int {
    Shift(Trunc(c, al), al)
  }

  /** One more bit of a DC value. */
  lemma DcNextBit(c: int, al: nat)
    ensures DcKept(c, al) == DcKept(c, al + 1) + (if Shr(c, al) % 2 == 1 then Pow2(al) else 0)
    ensures Shr(DcKept(c, al + 1), al) % 2 == 0
  {
    var h := Shr(c, al);
    ShrSucc(c, al);
    ShiftAdd(2 * (h / 2), h % 2, al);
    ShiftFacts(2 * (h / 2), al);
    ShiftFacts(h / 2, al);
  }

  /** One more bit of an AC value: its magnitude is doubled and the new bit added. */
  lemma AcNextBit(c: int, al: nat)
    ensures var v := Trunc(c, al);
            && Abs(Trunc(c, al + 1)) == Abs(v) / 2
            && (AcKept(c, al + 1) == 0 <==> Abs(v) / 2 == 0)
            && (AcKept(c, al + 1) > 0 ==> v > 0) && (AcKept(c, al + 1) < 0 ==> v < 0)
            && AcKept(c, al) == AcKept(c, al + 1)
                 + (if Abs(v) % 2 == 0 then 0 else if v > 0 then Pow2(al) else 0 - Pow2(al))
  {
    var h := Shr(Abs(c), al);
    ShrSucc(Abs(c), al);
    ShrLegal(Abs(c), al);
    ShrLegal(Abs(c), al + 1);
    ShiftAdd(2 * (h / 2), h % 2, al);
    ShiftFacts(h, al);
    ShiftFacts(2 * (h / 2), al);
    ShiftFacts(h / 2, al);
    ShiftFacts(h / 2, al + 1);
  }

  /** Decoded values stay within the range of the coefficient. */
  lemma {:induction false} KeptSmall(x: int, n: nat, j: nat)
    requires n <= j
    ensures x >= 0 ==> 0 <= DcKept(x, n) <= x
    ensures 0 - Pow2(j) <= x < 0 ==> 0 - Pow2(j) <= DcKept(x, n) < 0
    decreases n
  {
    if n != 0 {
      KeptSmall(x / 2, n - 1, j - 1);
      ShiftHalf(Shr(x, n), n);
    }
  }

  lemma KeptLegal(x: int, n: nat)
    requires n <= 14 && -0x4000 <= x < 0x4000
    ensures -0x4000 <= DcKept(x, n) < 0x4000 && -0x4000 <= AcKept(x, n) <= 0x4000
  {
    assert Pow2(14) == 4 * Pow2(12) == 16 * Pow2(10) == 64 * Pow2(8) == 256 * Pow2(6) == 1024 * Pow2(4)
        == 4096 * Pow2(2) == 0x4000;
    KeptSmall(x, n, 14);
    KeptSmall(Abs(x), n, 14);
    ShiftFacts(Shr(Abs(x), n), n);
  }
}
