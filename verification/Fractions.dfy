/** Byte strings read as binary fractions, with an explicit tail below the last byte.  All the
    arithmetic of the code string goes through these two functions, so that no power of two
    with a variable exponent ever has to be multiplied out. */
module Fractions {
  import opened ArithTable

  function Repeat(n: nat, b: Byte): (s: seq<Byte>)
    ensures |s| == n && forall i :: 0 <= i < n ==> s[i] == b
  {
    seq(n, _ => b)
  }

  /** The number 0.s0 s1 s2 ... in base 256 whose digits after s are worth `tail`. */
  ghost function Frac(s: seq<Byte>, tail: real): real {
    if s == [] then tail else (s[0] as real + Frac(s[1..], tail)) / 256.0
  }

  /** x shifted left by n binary places. */
  ghost function Scale(x: real, n: nat): real
    decreases n
  {
    if n == 0 then x else Scale(2.0 * x, n - 1)
  }

  lemma {:induction false} FracConcat(s: seq<Byte>, t: seq<Byte>, tail: real)
    ensures Frac(s + t, tail) == Frac(s, Frac(t, tail))
  {
    if s == [] {
      assert s + t == t;
    } else {
      assert (s + t)[1..] == s[1..] + t;
      FracConcat(s[1..], t, tail);
    }
  }

  lemma FracAppend(s: seq<Byte>, b: Byte, tail: real)
    ensures Frac(s + [b], tail) == Frac(s, (b as real + tail) / 256.0)
  {
    FracConcat(s, [b], tail);
    assert Frac([b], tail) == (b as real + Frac([b][1..], tail)) / 256.0;
  }

  /** A carry turns the stacked FF bytes into zeros and stops at the byte before them. */
  lemma {:induction false} CarryRipples(k: nat, tail: real)
    ensures Frac(Repeat(k, 0xFF), tail) == 1.0 + Frac(Repeat(k, 0), tail - 1.0)
  {
    if k == 0 {
    } else {
      assert Repeat(k, 0xFF)[1..] == Repeat(k - 1, 0xFF);
      assert Repeat(k, 0)[1..] == Repeat(k - 1, 0);
      CarryRipples(k - 1, tail);
    }
  }

  lemma {:induction false} FracBounds(s: seq<Byte>, tail: real)
    requires 0.0 <= tail <= 1.0
    ensures 0.0 <= Frac(s, tail) <= 1.0
    ensures tail < 1.0 ==> Frac(s, tail) < 1.0
  {
    if s != [] {
      FracBounds(s[1..], tail);
    }
  }

  lemma {:induction false} FracZeros(n: nat)
    ensures Frac(Repeat(n, 0), 0.0) == 0.0
  {
    if n != 0 {
      assert Repeat(n, 0)[1..] == Repeat(n - 1, 0);
      FracZeros(n - 1);
    }
  }

  lemma {:induction false} ScaleAdd(x: real, y: real, n: nat)
    ensures Scale(x + y, n) == Scale(x, n) + Scale(y, n)
    decreases n
  {
    if n != 0 {
      ScaleAdd(2.0 * x, 2.0 * y, n - 1);
      assert 2.0 * (x + y) == 2.0 * x + 2.0 * y;
    }
  }

  lemma {:induction false} ScaleMonotone(x: real, y: real, n: nat)
    ensures x < y <==> Scale(x, n) < Scale(y, n)
    ensures x <= y <==> Scale(x, n) <= Scale(y, n)
    decreases n
  {
    if n != 0 {
      ScaleMonotone(2.0 * x, 2.0 * y, n - 1);
    }
  }

  lemma ScaleByByte(x: real)
    ensures Scale(x, 8) == 256.0 * x
  {
    assert Scale(x, 8) == Scale(2.0 * x, 7) == Scale(4.0 * x, 6) == Scale(8.0 * x, 5) == Scale(16.0 * x, 4)
        == Scale(32.0 * x, 3) == Scale(64.0 * x, 2) == Scale(128.0 * x, 1) == Scale(256.0 * x, 0);
  }
}
