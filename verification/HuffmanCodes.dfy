/** Canonical Huffman codes: the code lengths of annex C of ITU-T T.81, the codes they stand for,
    and bit-serial decoding (figures C.1, C.2 and F.16). */
module HuffmanCodes {
  import opened ArithTable
  import opened PointTransform

  /** The BITS and HUFFVAL lists of a table; bits[0] is not used. */
  datatype TableInfo = TableInfo(bits: seq<Byte>, vals: seq<Byte>)

  type HuffTbl = t: TableInfo | |t.bits| == 17 && |t.vals| == 256
    witness TableInfo(seq(17, _ => 0), seq(256, _ => 0))

  type Lengths = b: seq<Byte> | |b| == 17 witness seq(17, _ => 0)

  /** The index of the first code of length l. */
  function First(b: Lengths, l: nat): nat
    requires l <= 17
  {
    if l <= 1 then 0 else First(b, l - 1) + b[l - 1]
  }

  /** The first code of length l. */
  function MinCode(b: Lengths, l: nat): nat
    requires l <= 17
  {
    if l <= 1 then 0 else 2 * (MinCode(b, l - 1) + b[l - 1])
  }

  function Total(b: Lengths): nat {
    First(b, 17)
  }

  /** The counts stand for a code in which no code word is all ones. */
  ghost predicate Legal(b: Lengths) {
    Total(b) <= 256 && LegalUpTo(b, 17)
  }

  /** The codes of fewer than m bits fit their lengths, and none of them is all ones. */
  ghost predicate LegalUpTo(b: Lengths, m: nat)
    requires m <= 17
  {
    m <= 1 || (LegalUpTo(b, m - 1) && MinCode(b, m - 1) + b[m - 1] < Pow2(m - 1))
  }

  lemma {:induction false} LegalAt(b: Lengths, m: nat, l: nat)
    requires 1 <= l < m <= 17 && LegalUpTo(b, m)
    ensures MinCode(b, l) + b[l] < Pow2(l)
    decreases m
  {
    if l + 1 < m {
      LegalAt(b, m - 1, l);
    }
  }

  lemma {:induction false} FirstGrows(b: Lengths, l: nat, m: nat)
    requires 1 <= l < m <= 17
    ensures First(b, l) + b[l] <= First(b, m)
    decreases m
  {
    if l + 1 < m {
      FirstGrows(b, l, m - 1);
    }
  }

  /** Code number p has length n. */
  predicate HasLength(b: Lengths, p: nat, n: nat) {
    1 <= n <= 16 && First(b, n) <= p < First(b, n) + b[n]
  }

  lemma {:induction false} SomeLength(b: Lengths, p: nat, m: nat)
    requires m <= 17 && p < First(b, m)
    ensures exists n: nat :: HasLength(b, p, n)
  {
    if First(b, m - 1) <= p {
      assert HasLength(b, p, m - 1);
    } else {
      SomeLength(b, p, m - 1);
    }
  }

  /** The length of code number p. */
  ghost function Size(b: Lengths, p: nat): (n: nat)
    requires p < Total(b)
    ensures HasLength(b, p, n)
  {
    SomeLength(b, p, 17);
    var n: nat :| HasLength(b, p, n);
    n
  }

  ghost function Code(b: Lengths, p: nat): nat
    requires p < Total(b)
  {
    MinCode(b, Size(b, p)) + p - First(b, Size(b, p))
  }

  /** The length of a code is the only one whose index range holds it. */
  lemma SizeIs(b: Lengths, p: nat, l: nat)
    requires HasLength(b, p, l)
    ensures p < Total(b) && Size(b, p) == l && Code(b, p) == MinCode(b, l) + p - First(b, l)
  {
    FirstGrows(b, l, 17);
    var n := Size(b, p);
    if n < l {
      FirstGrows(b, n, l);
    } else if l < n {
      FirstGrows(b, l, n);
    }
  }

  // ------------------------------------------------------------------ bit strings

  /** The n low bits of x, highest first. */
  function BitsOf(x: nat, n: nat): (s: seq<Bit>)
    ensures |s| == n
    decreases n
  {
    if n == 0 then [] else BitsOf(x / 2, n - 1) + [x % 2]
  }

  /** The first l bits of s as a number; behind the end of s come zeros. */
  function Prefix(s: seq<Bit>, l: nat): nat {
    if l == 0 then 0 else 2 * Prefix(s, l - 1) + (if l - 1 < |s| then s[l - 1] else 0)
  }

  lemma {:induction false} PrefixOfBits(x: nat, n: nat, rest: seq<Bit>)
    requires x < Pow2(n)
    ensures Prefix(BitsOf(x, n) + rest, n) == x
    decreases n
  {
    if n != 0 {
      assert BitsOf(x, n) + rest == BitsOf(x / 2, n - 1) + ([x % 2] + rest);
      PrefixOfBits(x / 2, n - 1, [x % 2] + rest);
    }
  }

  /** The first l of more bits are the higher bits. */
  lemma {:induction false} PrefixShr(s: seq<Bit>, l: nat, n: nat)
    requires l <= n
    ensures Shr(Prefix(s, n), n - l) == Prefix(s, l)
    decreases n
  {
    if l < n {
      PrefixShr(s, l, n - 1);
    }
  }

  lemma {:induction false} PrefixBound(s: seq<Bit>, l: nat)
    ensures Prefix(s, l) < Pow2(l)
  {
    if l != 0 {
      PrefixBound(s, l - 1);
    }
  }

  // ------------------------------------------------------------------ decoding

  datatype Found = Index(p: nat, n: nat) | Bad

  /** Figure F.16: the first length from l on at which the bits are no greater than the greatest
      code of that length. */
  function Search(b: Lengths, s: seq<Bit>, l: nat): Found
    requires 1 <= l <= 17 && Prefix(s, l) >= MinCode(b, l)
    decreases 17 - l
  {
    if l == 17 then Bad
    else if Prefix(s, l) < MinCode(b, l) + b[l] then Index(First(b, l) + Prefix(s, l) - MinCode(b, l), l)
    else Search(b, s, l + 1)
  }

  /** What bit-serial decoding makes of s. */
  function Decode(b: Lengths, s: seq<Bit>): Found {
    Search(b, s, 1)
  }

  /** All codes of length k, continued in every way, come before those of length n. */
  lemma {:induction false} CodesAscend(b: Lengths, k: nat, n: nat)
    requires 1 <= k < n <= 17
    ensures MinCode(b, n) >= Shift(MinCode(b, k) + b[k], n - k)
    decreases n
  {
    ShiftHalf(MinCode(b, k) + b[k], n - k);
    if k + 1 < n {
      CodesAscend(b, k, n - 1);
    }
  }

  lemma {:induction false} ShrAtLeast(x: nat, y: nat, m: nat)
    requires x >= Shift(y, m)
    ensures Shr(x, m) >= y
    decreases m
  {
    if m != 0 {
      ShiftHalf(y, m);
      ShrAtLeast(x / 2, y, m - 1);
    }
  }

  lemma {:induction false} SearchFinds(b: Lengths, s: seq<Bit>, p: nat, l: nat)
    requires p < Total(b) && 1 <= l <= Size(b, p) && Prefix(s, Size(b, p)) == Code(b, p)
    requires Prefix(s, l) >= MinCode(b, l)
    ensures Search(b, s, l) == Index(p, Size(b, p))
    decreases 17 - l
  {
    var n := Size(b, p);
    if l < n {
      CodesAscend(b, l, n);
      ShrAtLeast(Prefix(s, n), MinCode(b, l) + b[l], n - l);
      PrefixShr(s, l, n);
      SearchFinds(b, s, p, l + 1);
    }
  }

  lemma {:induction false} SearchSound(b: Lengths, s: seq<Bit>, l: nat)
    requires 1 <= l <= 17 && Prefix(s, l) >= MinCode(b, l)
    ensures var f := Search(b, s, l);
            f.Index? ==> f.p < Total(b) && f.n == Size(b, f.p) && l <= f.n && Prefix(s, f.n) == Code(b, f.p)
    decreases 17 - l
  {
    if l < 17 {
      if Prefix(s, l) < MinCode(b, l) + b[l] {
        SizeIs(b, First(b, l) + Prefix(s, l) - MinCode(b, l), l);
      } else {
        SearchSound(b, s, l + 1);
      }
    }
  }

  /** A bit string decodes to symbol p exactly when it begins with the code of p; the code is
      then consumed, and the index lies inside the list of symbols. */
  lemma DecodeIff(b: Lengths, s: seq<Bit>, p: nat)
    ensures Decode(b, s).Index? ==> Decode(b, s).p < Total(b) && Decode(b, s).n == Size(b, Decode(b, s).p)
    ensures p < Total(b) ==> (Decode(b, s) == Index(p, Size(b, p)) <==> Prefix(s, Size(b, p)) == Code(b, p))
  {
    SearchSound(b, s, 1);
    if p < Total(b) && Prefix(s, Size(b, p)) == Code(b, p) {
      SearchFinds(b, s, p, 1);
    }
  }

  /** The codes of different symbols differ, and none begins another. */
  lemma PrefixFree(b: Lengths, p: nat, q: nat, s: seq<Bit>)
    requires p < Total(b) && q < Total(b) && p != q
    requires Prefix(s, Size(b, p)) == Code(b, p)
    ensures Prefix(s, Size(b, q)) != Code(b, q)
  {
    DecodeIff(b, s, p);
    DecodeIff(b, s, q);
  }

  /** Codes fit their lengths, and none of them is all ones. */
  lemma CodeFits(b: Lengths, p: nat)
    requires Legal(b) && p < Total(b)
    ensures Code(b, p) < Pow2(Size(b, p)) - 1
  {
    LegalAt(b, 17, Size(b, p));
  }

  // ------------------------------------------------------------------ lookahead

  const HUFF_LOOKAHEAD := 8

  /** Decoding of s that starts at length 9 finds what decoding from length 1 finds, if no code of
      up to 8 bits begins s. */
  lemma {:induction false} SearchSkips(b: Lengths, s: seq<Bit>, l: nat, m: nat)
    requires 1 <= l <= m <= 17 && Prefix(s, l) >= MinCode(b, l)
    requires forall k :: l <= k < m ==> Prefix(s, k) >= MinCode(b, k) + b[k]
    ensures Prefix(s, m) >= MinCode(b, m) && Search(b, s, l) == Search(b, s, m)
    decreases m - l
  {
    if l < m {
      SearchSkips(b, s, l + 1, m);
    }
  }

  /** Only the first bits matter. */
  lemma {:induction false} PrefixLocal(s: seq<Bit>, t: seq<Bit>, l: nat)
    requires forall i :: 0 <= i < l ==> (if i < |s| then s[i] else 0) == (if i < |t| then t[i] else 0)
    ensures Prefix(s, l) == Prefix(t, l)
  {
    if l != 0 {
      PrefixLocal(s, t, l - 1);
    }
  }

  lemma {:induction false} ShrBetween(x: nat, y: nat, m: nat)
    requires Shift(y, m) <= x < Shift(y + 1, m)
    ensures Shr(x, m) == y
    decreases m
  {
    if m != 0 {
      ShiftHalf(y, m);
      ShiftHalf(y + 1, m);
      ShrBetween(x / 2, y, m - 1);
    }
  }

  /** The w-bit strings that begin with code p of up to w bits. */
  lemma LookEntry(b: Lengths, p: nat, x: nat, w: nat)
    requires Legal(b) && p < Total(b) && Size(b, p) <= w
    requires var m := w - Size(b, p); Shift(Code(b, p), m) <= x < Shift(Code(b, p) + 1, m)
    ensures x < Pow2(w) && Decode(b, BitsOf(x, w)) == Index(p, Size(b, p))
  {
    var l := Size(b, p);
    ShrBetween(x, Code(b, p), w - l);
    CodeFits(b, p);
    ShrSmall(x, w - l, l);
    PrefixOfWindow(x, w, l);
    DecodeIff(b, BitsOf(x, w), p);
  }

  lemma PrefixOfWindow(x: nat, w: nat, l: nat)
    requires l <= w && x < Pow2(w)
    ensures Prefix(BitsOf(x, w), l) == Shr(x, w - l)
  {
    PrefixOfBits(x, w, []);
    assert BitsOf(x, w) + [] == BitsOf(x, w);
    PrefixShr(BitsOf(x, w), l, w);
  }

  lemma {:induction false} ShrSmall(x: nat, m: nat, l: nat)
    requires Shr(x, m) < Pow2(l)
    ensures x < Pow2(l + m)
    decreases m
  {
    if m != 0 {
      ShrSmall(x / 2, m - 1, l);
    }
  }

  lemma {:induction false} StaysBeyond(b: Lengths, x: nat, k: nat, w: nat)
    requires 1 <= k <= w <= 16 && MinCode(b, w) + b[w] <= x
    ensures Shr(x, w - k) >= MinCode(b, k) + b[k]
    decreases w
  {
    if k < w {
      StaysBeyond(b, x / 2, k, w - 1);
    }
  }

  /** The w-bit strings behind all codes of up to w bits. */
  lemma LookNone(b: Lengths, x: nat, w: nat)
    requires 1 <= w <= 16 && MinCode(b, w) + b[w] <= x < Pow2(w)
    ensures var f := Decode(b, BitsOf(x, w)); f.Index? ==> f.n > w
  {
    var f := Decode(b, BitsOf(x, w));
    DecodeIff(b, BitsOf(x, w), if f.Index? then f.p else 0);
    if f.Index? && f.n <= w {
      StaysBeyond(b, x, f.n, w);
      PrefixOfWindow(x, w, f.n);
    }
  }

  /** Decoding of the first w bits alone finds what decoding of all bits finds, or nothing. */
  lemma {:induction false} SearchLocal(b: Lengths, s: seq<Bit>, x: seq<Bit>, l: nat, w: nat)
    requires 1 <= l <= w + 1 <= 17 && Prefix(s, l) >= MinCode(b, l) && Prefix(x, l) >= MinCode(b, l)
    requires forall k :: 0 <= k <= w ==> Prefix(x, k) == Prefix(s, k)
    ensures var f := Search(b, x, l);
            if f.Index? && f.n <= w then Search(b, s, l) == f
            else Prefix(s, w + 1) >= MinCode(b, w + 1) && Search(b, s, l) == Search(b, s, w + 1)
    decreases w + 1 - l
  {
    SearchSound(b, x, l);
    if l <= w && Prefix(s, l) >= MinCode(b, l) + b[l] {
      SearchLocal(b, s, x, l + 1, w);
    }
  }

  /** The lookahead entry for the next w bits tells the code, if it is that short; otherwise the
      search goes on at length w + 1. */
  lemma LookAgrees(b: Lengths, s: seq<Bit>, look: nat, w: nat)
    requires w <= 16 && look == Prefix(s, w)
    ensures var f := Decode(b, BitsOf(look, w));
            if f.Index? && f.n <= w then Decode(b, s) == f
            else Prefix(s, w + 1) >= MinCode(b, w + 1) && Decode(b, s) == Search(b, s, w + 1)
  {
    PrefixBound(s, w);
    forall k | 0 <= k <= w
      ensures Prefix(BitsOf(look, w), k) == Prefix(s, k)
    {
      PrefixOfWindow(look, w, k);
      PrefixShr(s, k, w);
    }
    SearchLocal(b, s, BitsOf(look, w), 1, w);
  }
}
