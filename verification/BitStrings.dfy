/** Bit strings: numbers as bits, bytes as bits, and the arithmetic of the bit buffers of jchuff.c
    and jdhuff.c. */
module BitStrings {
  import opened ArithTable
  import opened PointTransform
  import opened HuffmanCodes

  /** The bits of a byte string. */
  function BytesBits(s: seq<Byte>): (r: seq<Bit>)
    ensures |r| == 8 * |s|
  {
    if s == [] then [] else ByteBits(s[0], 8) + BytesBits(s[1..])
  }

  /** The w bits of a byte. */
  function ByteBits(b: Byte, w: nat): (r: seq<Bit>)
    ensures |r| == w
  {
    BitsOf(b, w)
  }

  lemma {:induction false} BytesBitsConcat(s: seq<Byte>, t: seq<Byte>)
    ensures BytesBits(s + t) == BytesBits(s) + BytesBits(t)
  {
    if s == [] {
      assert s + t == t;
    } else {
      assert (s + t)[1..] == s[1..] + t;
      BytesBitsConcat(s[1..], t);
    }
  }

  lemma OneByteBits(b: Byte, w: nat)
    requires w == 8
    ensures BytesBits([b]) == ByteBits(b, w)
  {
    assert [b][1..] == [];
    assert ByteBits(b, w) + [] == ByteBits(b, w);
  }

  lemma BytesBitsSnoc(s: seq<Byte>, b: Byte)
    ensures BytesBits(s + [b]) == BytesBits(s) + ByteBits(b, 8)
  {
    BytesBitsConcat(s, [b]);
    OneByteBits(b, 8);
  }

  /** The higher bits and the lower bits. */
  lemma {:induction false} BitsSplit(x: nat, a: nat, b: nat)
    ensures BitsOf(x, a + b) == BitsOf(ShrNat(x, b), a) + BitsOf(x, b)
    decreases b
  {
    if b != 0 {
      BitsSplit(x / 2, a, b - 1);
    }
  }

  function ShrNat(x: nat, n: nat): (r: nat)
    ensures r == Shr(x, n)
    decreases n
  {
    if n == 0 then x else ShrNat(x / 2, n - 1)
  }

  lemma HalfOfMod(x: nat, m: nat)
    requires m >= 1
    ensures x % (2 * m) / 2 == x / 2 % m && x % (2 * m) % 2 == x % 2
  {
    var q, r := x / 2 / m, x / 2 % m;
    assert x / 2 == q * m + r;
    assert x == (2 * m) * q + (2 * r + x % 2) by {
      assert (2 * m) * q == 2 * (q * m);
    }
    ModIs(x, 2 * m, q, 2 * r + x % 2);
  }

  lemma ModIs(x: nat, m: nat, q: nat, r: nat)
    requires r < m && x == m * q + r
    ensures x % m == r
  {
    assert q * m == m * q;
    assert (q + 1) * m == q * m + m;
    QuotientIs(x, m, q);
  }

  /** Only the low bits matter. */
  lemma {:induction false} BitsOfMod(x: nat, n: nat, k: nat)
    requires n <= k
    ensures BitsOf(x % Pow2(k), n) == BitsOf(x, n)
    decreases n
  {
    if n != 0 {
      HalfOfMod(x, Pow2(k - 1));
      BitsOfMod(x / 2, n - 1, k - 1);
    }
  }

  /** A number shifted left and completed. */
  lemma {:induction false} BitsOfShifted(x: nat, y: nat, a: nat, b: nat)
    requires y < Pow2(b)
    ensures Shift(x, b) >= 0 && BitsOf(Shift(x, b) + y, a + b) == BitsOf(x, a) + BitsOf(y, b)
    decreases b
  {
    if b != 0 {
      ShiftHalf(x, b);
      BitsOfShifted(x, y / 2, a, b - 1);
      assert (Shift(x, b) + y) / 2 == Shift(x, b - 1) + y / 2;
    }
  }

  lemma {:induction false} PrefixIgnoresRest(s: seq<Bit>, t: seq<Bit>, l: nat)
    requires l <= |s|
    ensures Prefix(s + t, l) == Prefix(s, l)
    decreases l
  {
    if l != 0 {
      PrefixIgnoresRest(s, t, l - 1);
    }
  }

  /** The number that GET_BITS takes from the buffer. */
  lemma PrefixOfBuffer(g: nat, left: nat, n: nat, rest: seq<Bit>)
    requires n <= left
    ensures Prefix(BitsOf(g, left) + rest, n) == ShrNat(g, left - n) % Pow2(n)
    ensures (BitsOf(g, left) + rest)[n..] == BitsOf(g, left - n) + rest
  {
    var v := ShrNat(g, left - n);
    BitsSplit(g, n, left - n);
    BitsOfMod(v, n, n);
    assert BitsOf(g, left) + rest == BitsOf(v % Pow2(n), n) + (BitsOf(g, left - n) + rest);
    PrefixOfBits(v % Pow2(n), n, BitsOf(g, left - n) + rest);
  }

  /** A byte shifted into a 32-bit buffer. */
  lemma BufferByte(g: nat, left: nat, c: Byte)
    requires left + 8 <= 32
    ensures BitsOf((g * 256 + c) % 0x1_0000_0000, left + 8) == BitsOf(g, left) + ByteBits(c, 8)
  {
    Pow2Of32();
    BitsOfMod(g * 256 + c, left + 8, 32);
    Shift8(g);
    BitsOfShifted(g, c, left, 8);
  }

  lemma Pow2Of32()
    ensures Pow2(32) == 0x1_0000_0000 && Pow2(8) == 256
  {
    assert Pow2(8) == 256;
    assert Pow2(16) == 0x10000;
    assert Pow2(24) == 0x1000000;
  }

  lemma Shift8(x: int)
    ensures Shift(x, 8) == 256 * x
  {
  }

  // ------------------------------------------------------------------ the output buffer

  lemma {:induction false} ShrShift(x: int, a: nat, b: nat)
    requires a <= b
    ensures Shr(Shift(x, a), b) == Shr(x, b - a)
    decreases a
  {
    if a != 0 {
      ShrShift(2 * x, a - 1, b);
    }
  }

  lemma {:induction false} ShiftShift(x: int, a: nat, b: nat)
    ensures Shift(Shift(x, a), b) == Shift(x, a + b)
    decreases a
  {
    if a != 0 {
      ShiftShift(2 * x, a - 1, b);
    }
  }

  lemma {:induction false} ShiftMod(x: nat, m: nat, k: nat)
    ensures Shift(x, m) >= 0 && Shift(x, m) % Pow2(k + m) == Shift(x % Pow2(k), m)
    decreases m
  {
    if m != 0 {
      ShiftMod(2 * x, m - 1, k + 1);
      DoubleMod(x, Pow2(k));
    }
  }

  lemma DoubleMod(x: nat, m: nat)
    requires m >= 1
    ensures 2 * x % (2 * m) == 2 * (x % m)
  {
    var q, r := x / m, x % m;
    assert (2 * m) * q == 2 * (m * q);
    ModIs(2 * x, 2 * m, q, 2 * r);
  }

  /** The byte that leaves the left-justified buffer, and what stays: n bits wait in it. */
  lemma TakeByte(x: nat, n: nat, buf: nat)
    requires 8 <= n <= 23 && buf == Shift(x, 24 - n)
    ensures BitsOf(x, n) == ByteBits(buf / 0x10000 % 256, 8) + BitsOf(x % Pow2(n), n - 8)
    ensures buf * 256 % 0x1_0000_0000 == Shift(x % Pow2(n), 24 - (n - 8))
  {
    TopByte(x, n, buf);
    BitsSplit(x, 8, n - 8);
    BitsOfMod(ShrNat(x, n - 8), 8, 8);
    BitsOfMod(x, n - 8, n);
    LowerBits(x, n, buf);
  }

  lemma TopByte(x: nat, n: nat, buf: nat)
    requires 8 <= n <= 23 && buf == Shift(x, 24 - n)
    ensures buf / 0x10000 == ShrNat(x, n - 8)
  {
    Pow2Of32();
    ShrIsDiv(buf, 16);
    ShrShift(x, 24 - n, 16);
  }

  lemma LowerBits(x: nat, n: nat, buf: nat)
    requires 8 <= n <= 23 && buf == Shift(x, 24 - n)
    ensures buf * 256 % 0x1_0000_0000 == Shift(x % Pow2(n), 24 - (n - 8))
  {
    Pow2Of32();
    Shift8(buf);
    ShiftShift(x, 24 - n, 8);
    ShiftMod(x, 32 - n, n);
  }

  /** Aligning new bits behind the p bits in the buffer. */
  lemma AddBits(x: nat, p: nat, code: nat, size: nat)
    requires p + size <= 23 && code < Pow2(size)
    ensures var x1 := Shift(x, size) + code;
            && x1 >= 0 && Shift(x, 24 - p) + Shift(code, 24 - (p + size)) == Shift(x1, 24 - (p + size))
            && BitsOf(x1, p + size) == BitsOf(x, p) + BitsOf(code, size)
  {
    ShiftShift(x, size, 24 - (p + size));
    BitsOfShifted(x, code, p, size);
    ShiftAdd(Shift(x, size), code, 24 - (p + size));
  }

  // ------------------------------------------------------------------ the input buffer

  function Zeros(n: nat): (r: seq<Bit>)
    ensures |r| == n && forall i :: 0 <= i < n ==> r[i] == 0
  {
    seq(n, _ => 0)
  }

  /** Zeros behind the end make no difference. */
  lemma {:induction false} PrefixPadded(s: seq<Bit>, z: nat, l: nat)
    ensures Prefix(s + Zeros(z), l) == Prefix(s, l)
    decreases l
  {
    if l != 0 {
      PrefixPadded(s, z, l - 1);
    }
  }

  lemma {:induction false} SearchPadded(b: Lengths, s: seq<Bit>, z: nat, l: nat)
    requires 1 <= l <= 17 && Prefix(s, l) >= MinCode(b, l)
    ensures Prefix(s + Zeros(z), l) >= MinCode(b, l) && Search(b, s + Zeros(z), l) == Search(b, s, l)
    decreases 17 - l
  {
    PrefixPadded(s, z, l);
    if l < 17 && Prefix(s, l) >= MinCode(b, l) + b[l] {
      SearchPadded(b, s, z, l + 1);
    }
  }

  lemma {:induction false} BitsOfZero(n: nat)
    ensures BitsOf(0, n) == Zeros(n)
  {
    if n != 0 {
      BitsOfZero(n - 1);
    }
  }

  /** get_buffer <<= m */
  lemma PadBuffer(g: nat, left: nat, m: nat)
    requires left + m <= 32
    ensures Shift(g, m) >= 0 && BitsOf(Shift(g, m) % 0x1_0000_0000, left + m) == BitsOf(g, left) + Zeros(m)
  {
    Pow2Of32();
    BitsOfShifted(g, 0, left, m);
    BitsOfZero(m);
    BitsOfMod(Shift(g, m), left + m, 32);
  }
}
