/** Counting the code lengths and limiting them to 16 bits: the second half of
    jpeg_gen_optimal_table (jchuff.c), the adjustment of section K.2 of ITU-T T.81. */
module HuffmanLimit {
  import opened ArithTable
  import opened PointTransform
  import opened HuffmanOptimal
  import opened HuffmanMerge

  /** The Kraft sum of the counts of lengths 1..l, in units of 2^-l. */
  function Horner(b: seq<nat>, l: nat): nat
    requires l < |b|
  {
    if l == 0 then 0 else 2 * Horner(b, l - 1) + b[l]
  }

  function PowDiff(l: nat, k: nat): nat {
    if 1 <= k <= l then Pow2(l - k) else 0
  }

  lemma {:induction false} HornerAdd(b: seq<nat>, k: nat, d: int, l: nat)
    requires k < |b| && l < |b| && b[k] + d >= 0
    ensures Horner(b[k := b[k] + d], l) == Horner(b, l) + d * PowDiff(l, k)
    decreases l
  {
    if l != 0 {
      HornerAdd(b, k, d, l - 1);
      TwiceTimes(d, PowDiff(l - 1, k));
    }
  }

  lemma TwiceTimes(d: int, p: nat)
    ensures d * (2 * p) == 2 * (d * p)
  {
  }

  lemma {:induction false} SumAdd(b: seq<nat>, k: nat, d: int, n: nat)
    requires k < |b| && n <= |b| && b[k] + d >= 0
    ensures Sum(b[k := b[k] + d], n) == Sum(b, n) + if k < n then d else 0
    decreases n
  {
    if n != 0 {
      SumAdd(b, k, d, n - 1);
    }
  }

  // ------------------------------------------------------------------ counting

  /** The Kraft sum of an optimal code in other units. */
  lemma {:induction false} KraftRescale(f: seq<nat>, ls: seq<nat>, a: nat, b: nat)
    requires |f| == |ls| && Within(f, ls, a) && Within(f, ls, b) && a <= b
    ensures Kraft(f, ls, a, |f|) == Pow2(a) <==> Kraft(f, ls, b, |f|) == Pow2(b)
    decreases b
  {
    if a < b {
      KraftDoubles(f, ls, b - 1, |f|);
      KraftRescale(f, ls, a, b - 1);
    }
  }

  lemma {:induction false} KraftOfTwo(f: seq<nat>, ls: seq<nat>, top: nat, s: nat, t: nat, n: nat)
    requires |f| == |ls| && s < |f| && t < |f| && s != t && f[s] != 0 && f[t] != 0 && n <= |f|
    ensures Kraft(f, ls, top, n)
         >= (if s < n then Share(top, ls[s]) else 0) + (if t < n then Share(top, ls[t]) else 0)
    decreases n
  {
    if n != 0 {
      KraftOfTwo(f, ls, top, s, t, n - 1);
    }
  }

  /** With two symbols or more, every symbol in use has a code of at least one bit. */
  lemma UsedHaveBits(orig: seq<nat>, cs: seq<nat>, top: nat, s: nat, t: nat)
    requires OptimalLengths(orig, cs, top) && s < |orig| && t < |orig| && s != t && orig[s] != 0 && orig[t] != 0
    ensures cs[s] != 0
  {
    KraftOfTwo(orig, cs, top, s, t, |orig|);
  }

  /** Exactly the symbols in use have code lengths. */
  ghost predicate SameUse(orig: seq<nat>, cs: seq<nat>) {
    |orig| == |cs| && forall s :: 0 <= s < |cs| ==> (cs[s] != 0 <==> orig[s] != 0)
  }

  /** The counts b describe the first n symbols. */
  ghost predicate Counts(b: seq<nat>, orig: seq<nat>, cs: seq<nat>, n: nat) {
    && |b| >= 1 && |orig| == |cs| && n <= |cs| && b[0] == 0
    && Horner(b, |b| - 1) == Kraft(orig, cs, |b| - 1, n) && Sum(b, |b|) == Active(orig, n)
  }

  lemma CountsMore(b: seq<nat>, orig: seq<nat>, cs: seq<nat>, n: nat)
    requires Counts(b, orig, cs, n) && n < |cs| && SameUse(orig, cs) && Active(orig, |orig|) <= 255
    ensures cs[n] == 0 ==> Counts(b, orig, cs, n + 1)
    ensures 0 < cs[n] < |b| ==> b[cs[n]] < 255 && Counts(b[cs[n] := b[cs[n]] + 1], orig, cs, n + 1)
  {
    var l := cs[n];
    if 0 < l < |b| {
      ActiveGrows(orig, n + 1, |orig|);
      SumAtLeast(b, l, |b|);
      HornerAdd(b, l, 1, |b| - 1);
      SumAdd(b, l, 1, |b|);
    }
  }

  /** How many of the first n symbols have codes of l bits. */
  function Tally(cs: seq<nat>, l: nat, n: nat): nat
    requires n <= |cs|
  {
    if n == 0 then 0 else Tally(cs, l, n - 1) + if cs[n - 1] == l then 1 else 0
  }

  lemma {:induction false} TallyFound(cs: seq<nat>, l: nat, n: nat)
    requires n <= |cs|
    ensures Tally(cs, l, n) != 0 <==> exists s :: 0 <= s < n && cs[s] == l
    decreases n
  {
    if n != 0 {
      TallyFound(cs, l, n - 1);
      assert cs[n - 1] == l ==> exists s :: 0 <= s < n && cs[s] == l;
    }
  }

  /** b holds the number of codes of each length from 1 bit on. */
  ghost predicate Tallies(b: seq<nat>, cs: seq<nat>, n: nat)
    requires n <= |cs|
  {
    forall l :: 1 <= l < |b| ==> b[l] == Tally(cs, l, n)
  }

  lemma TalliesMore(b: seq<nat>, cs: seq<nat>, n: nat)
    requires n < |cs| && Tallies(b, cs, n)
    ensures cs[n] == 0 ==> Tallies(b, cs, n + 1)
    ensures 0 < cs[n] < |b| ==> Tallies(b[cs[n] := b[cs[n]] + 1], cs, n + 1)
  {
  }

  /** bits[codesize[i]]++ for every symbol, in 8-bit counters; fails on a length over `max`. */
  method CountLengths(codesize: array<nat>, max: nat, ghost orig: seq<nat>) returns (ok: bool, bits: array<Byte>)
    requires SameUse(orig, codesize[..]) && Active(orig, |orig|) <= 255
    ensures fresh(bits) && (ok <==> forall s :: 0 <= s < codesize.Length ==> codesize[s] <= max)
    ensures ok ==> bits.Length == max + 1 && Counts(bits[..], orig, codesize[..], codesize.Length)
    ensures ok ==> Tallies(bits[..], codesize[..], codesize.Length)
  {
    ok := true;
    bits := new Byte[max + 1](_ => 0);
    AllZero(bits[..], max);
    for i := 0 to codesize.Length
      invariant forall s :: 0 <= s < i ==> codesize[s] <= max
      invariant Counts(bits[..], orig, codesize[..], i) && Tallies(bits[..], codesize[..], i)
    {
      TalliesMore(bits[..], codesize[..], i);
      CountsMore(bits[..], orig, codesize[..], i);
      if codesize[i] != 0 {
        if codesize[i] > max {
          ok := false;
          return;
        }
        bits[codesize[i]] := (bits[codesize[i]] + 1) % 256;
      }
    }
  }

  lemma {:induction false} ActiveGrows(f: seq<nat>, m: nat, n: nat)
    requires m <= n <= |f|
    ensures Active(f, m) <= Active(f, n)
    decreases n
  {
    if m < n {
      ActiveGrows(f, m, n - 1);
    }
  }

  lemma {:induction false} AllZero(b: seq<nat>, l: nat)
    requires l < |b| && forall k :: 0 <= k <= l ==> b[k] == 0
    ensures Horner(b, l) == 0 && Sum(b, l + 1) == 0
    decreases l
  {
    if l != 0 {
      AllZero(b, l - 1);
    }
  }

  // ------------------------------------------------------------------ limiting

  lemma HornerTwo(b: seq<nat>, i: nat)
    requires 2 <= i < |b|
    ensures Horner(b, i) == 4 * Horner(b, i - 2) + 2 * b[i - 1] + b[i]
  {
    assert Horner(b, i) == 2 * Horner(b, i - 1) + b[i];
  }

  lemma {:induction false} HornerZero(b: seq<nat>, l: nat)
    requires l < |b| && forall k :: 1 <= k <= l ==> b[k] == 0
    ensures Horner(b, l) == 0
    decreases l
  {
    if l != 0 {
      HornerZero(b, l - 1);
    }
  }

  lemma {:induction false} PowBig(i: nat)
    requires i >= 10
    ensures Pow2(i) >= 1024
    decreases i
  {
    if i > 10 {
      PowBig(i - 1);
    }
  }

  /** While the code is complete, a longest length of 10 bits or more leaves a shorter code to
      split. */
  lemma ShorterExists(b: seq<nat>, i: nat)
    requires 10 <= i < |b| && Horner(b, i) == Pow2(i) && b[i] <= 255 && b[i - 1] <= 255
    ensures exists j :: 1 <= j <= i - 2 && b[j] != 0
  {
    PowBig(i);
    HornerTwo(b, i);
    if forall j :: 1 <= j <= i - 2 ==> b[j] == 0 {
      HornerZero(b, i - 2);
    }
  }

  /** The number of codes of the greatest length is even. */
  lemma LongestEven(b: seq<nat>, i: nat)
    requires 1 <= i < |b| && Horner(b, i) == Pow2(i)
    ensures b[i] % 2 == 0
  {
    assert Pow2(i) == 2 * Pow2(i - 1);
  }

  /** Two codes of length i go: one to length i - 1, and the other one with a code of length j to
      length j + 1. */
  function Shortened(b: seq<nat>, i: nat, j: nat): (r: seq<nat>)
    requires 1 <= j <= i - 2 && i < |b| && b[i] >= 2 && b[j] >= 1
    ensures |r| == |b| && r[i] == b[i] - 2
  {
    var b1 := b[i := b[i] - 2];
    var b2 := b1[i - 1 := b1[i - 1] + 1];
    var b3 := b2[j + 1 := b2[j + 1] + 2];
    b3[j := b3[j] - 1]
  }

  /** That preserves the Kraft sum and the number of codes. */
  lemma ShortenedKeeps(b: seq<nat>, i: nat, j: nat)
    requires 1 <= j <= i - 2 && i < |b| && b[i] >= 2 && b[j] >= 1
    ensures Horner(Shortened(b, i, j), i) == Horner(b, i) && Sum(Shortened(b, i, j), |b|) == Sum(b, |b|)
  {
    ShortenedHorner(b, i, j);
    ShortenedSum(b, i, j);
  }

  lemma ShortenedSum(b: seq<nat>, i: nat, j: nat)
    requires 1 <= j <= i - 2 && i < |b| && b[i] >= 2 && b[j] >= 1
    ensures Sum(Shortened(b, i, j), |b|) == Sum(b, |b|)
  {
    var b1 := b[i := b[i] - 2];
    var b2 := b1[i - 1 := b1[i - 1] + 1];
    var b3 := b2[j + 1 := b2[j + 1] + 2];
    assert Sum(b1, |b|) == Sum(b, |b|) - 2 by {
      SumAdd(b, i, -2, |b|);
    }
    assert Sum(b2, |b|) == Sum(b1, |b|) + 1 by {
      SumAdd(b1, i - 1, 1, |b|);
    }
    assert Sum(b3, |b|) == Sum(b2, |b|) + 2 by {
      SumAdd(b2, j + 1, 2, |b|);
    }
    assert Sum(Shortened(b, i, j), |b|) == Sum(b3, |b|) - 1 by {
      SumAdd(b3, j, -1, |b|);
      assert Shortened(b, i, j) == b3[j := b3[j] + -1];
    }
  }

  lemma NegTimes(n: nat, p: nat)
    ensures (0 - n) * p == 0 - n * p
  {
  }

  lemma OneLess(b: seq<nat>, k: nat, n: nat, l: nat)
    requires k < |b| && l < |b| && n <= b[k]
    ensures Horner(b[k := b[k] - n], l) == Horner(b, l) - n * PowDiff(l, k)
  {
    HornerAdd(b, k, 0 - n, l);
    NegTimes(n, PowDiff(l, k));
  }

  /** Two codes of length i against one that is a bit shorter ... */
  lemma PairTaken(b: seq<nat>, i: nat)
    requires 2 <= i < |b| && b[i] >= 2
    ensures Horner(b[i := b[i] - 2][i - 1 := b[i - 1] + 1], i) == Horner(b, i)
  {
    OneLess(b, i, 2, i);
    HornerAdd(b[i := b[i] - 2], i - 1, 1, i);
    assert Pow2(1) == 2 * Pow2(0);
  }

  /** ... and one of length j against two that are a bit longer. */
  lemma PrefixSplit(b: seq<nat>, i: nat, j: nat)
    requires 1 <= j <= i - 2 && i < |b| && b[j] >= 1
    ensures Horner(b[j + 1 := b[j + 1] + 2][j := b[j] - 1], i) == Horner(b, i)
  {
    HornerAdd(b, j + 1, 2, i);
    OneLess(b[j + 1 := b[j + 1] + 2], j, 1, i);
    assert Pow2(i - j) == 2 * Pow2(i - (j + 1));
  }

  lemma ShortenedHorner(b: seq<nat>, i: nat, j: nat)
    requires 1 <= j <= i - 2 && i < |b| && b[i] >= 2 && b[j] >= 1
    ensures Horner(Shortened(b, i, j), i) == Horner(b, i)
  {
    PairTaken(b, i);
    PrefixSplit(b[i := b[i] - 2][i - 1 := b[i - 1] + 1], i, j);
  }

  lemma {:induction false} SumOfTwo(b: seq<nat>, j: nat, k: nat, n: nat)
    requires j < k < n <= |b|
    ensures b[j] + b[k] <= Sum(b, n)
  {
    if k < n - 1 {
      SumOfTwo(b, j, k, n - 1);
    } else {
      SumAtLeast(b, j, n - 1);
    }
  }

  /** The 8-bit counters do not overflow on the way. */
  lemma NoOverflow(b: seq<nat>, i: nat, j: nat)
    requires 1 <= j <= i - 2 && i < |b| && b[i] >= 2 && b[j] >= 1 && Sum(b, |b|) <= 255
    ensures b[i - 1] + 1 <= 255
    ensures (if j + 1 == i - 1 then b[j + 1] + 1 else b[j + 1]) + 2 <= 255
  {
    SumOfTwo(b, i - 1, i, |b|);
    var b1 := b[i := b[i] - 2];
    var b2 := b1[i - 1 := b1[i - 1] + 1];
    SumAdd(b, i, -2, |b|);
    SumAdd(b1, i - 1, 1, |b|);
    SumOfTwo(b2, j, j + 1, |b|);
  }

  /** The counts of a complete code with lengths up to i. */
  ghost predicate Complete(b: seq<nat>, i: nat, count: nat) {
    && i < |b| && b[0] == 0 && Horner(b, i) == Pow2(i) && Sum(b, |b|) == count <= 255
    && forall l :: i < l < |b| ==> b[l] == 0
  }

  /** The greatest length up to i with a code, or 0. */
  function LastUsed(b: seq<nat>, i: nat): (l: nat)
    requires i < |b|
    ensures l <= i && (l != 0 ==> b[l] != 0) && forall k :: l < k <= i ==> b[k] == 0
  {
    if i == 0 || b[i] != 0 then i else LastUsed(b, i - 1)
  }

  /** Figure K.3: pairs of codes of length i are taken apart, the other half of each going to the
      greatest length that is shorter by two bits or more, until no code is longer than lim. */
  function Limited(b: seq<nat>, i: nat, lim: nat): (r: seq<nat>)
    requires i < |b|
    ensures |r| == |b|
    decreases i, b[i]
  {
    if i <= lim || i < 2 then b
    else if b[i] == 0 then Limited(b, i - 1, lim)
    else
      var j := LastUsed(b, i - 2);
      if j == 0 || b[i] == 1 then b else Limited(Shortened(b, i, j), i, lim)
  }

  /** Codes that are short enough stay as they are. */
  lemma {:induction false} LimitedKeeps(b: seq<nat>, i: nat, lim: nat)
    requires i < |b| && forall l :: lim < l <= i ==> b[l] == 0
    ensures Limited(b, i, lim) == b
    decreases i
  {
    if lim < i && i >= 2 {
      LimitedKeeps(b, i - 1, lim);
    }
  }

  /** One turn of the inner loop. */
  method Shorten(bits: array<Byte>, i: nat, ghost count: nat)
    requires 10 <= i && Complete(bits[..], i, count) && bits[i] > 0
    modifies bits
    ensures Complete(bits[..], i, count) && bits[i] < old(bits[i])
    ensures forall lim :: 9 <= lim < i ==> Limited(bits[..], i, lim) == Limited(old(bits[..]), i, lim)
  {
    ghost var b: seq<nat> := bits[..];
    LongestEven(b, i);
    ShorterExists(b, i);
    ghost var w :| 1 <= w <= i - 2 && b[w] != 0;
    var j: nat := i - 2;
    while bits[j] == 0
      invariant w <= j <= i - 2 && LastUsed(b, j) == LastUsed(b, i - 2)
      decreases j
    {
      j := j - 1;
    }
    NoOverflow(b, i, j);
    ShortenedKeeps(b, i, j);
    MovePair(bits, i, j);
  }

  /** Two symbols of length i become one of length i - 1, and one of length j two of length j + 1. */
  method MovePair(bits: array<Byte>, i: nat, j: nat)
    requires 1 <= j <= i - 2 && i < bits.Length && bits[i] >= 2 && bits[j] >= 1
    requires bits[i - 1] <= 254 && bits[j + 1] <= if j + 1 == i - 1 then 252 else 253
    modifies bits
    ensures bits[..] == Shortened(old(bits[..]), i, j)
  {
    ghost var b := bits[..];
    bits[i] := (bits[i] - 2) % 256;
    bits[i - 1] := (bits[i - 1] + 1) % 256;
    bits[j + 1] := (bits[j + 1] + 2) % 256;
    bits[j] := (bits[j] - 1) % 256;
    assert bits[..] == Shortened(b, i, j);
  }

  /** The adjustment of section K.2: it ends with no length over `lim`, and changes nothing if no
      length was. */
  method LimitLengths(bits: array<Byte>, lim: nat, ghost count: nat)
    requires 9 <= lim < bits.Length && Complete(bits[..], bits.Length - 1, count)
    modifies bits
    ensures Complete(bits[..], lim, count) && bits[..] == Limited(old(bits[..]), bits.Length - 1, lim)
    ensures (forall l :: lim < l < bits.Length ==> old(bits[l]) == 0) ==> bits[..] == old(bits[..])
  {
    if forall l :: lim < l < bits.Length ==> bits[l] == 0 {
      LimitedKeeps(bits[..], bits.Length - 1, lim);
    }
    ghost var goal := Limited(bits[..], bits.Length - 1, lim);
    var i: nat := bits.Length - 1;
    while i > lim
      invariant lim <= i < bits.Length && Complete(bits[..], i, count) && Limited(bits[..], i, lim) == goal
    {
      while bits[i] > 0
        invariant Complete(bits[..], i, count) && Limited(bits[..], i, lim) == goal
        decreases bits[i]
      {
        Shorten(bits, i, count);
      }
      i := i - 1;
    }
  }

  /** Counts with one slot of the greatest length left free. */
  ghost predicate OneFree(b: seq<nat>, lim: nat, count: nat) {
    && lim < |b| && b[0] == 0 && Sum(b, |b|) == count
    && (forall l :: lim < l < |b| ==> b[l] == 0)
    && exists longest :: FreeAt(b, lim, longest)
  }

  /** The counts leave one code of the greatest length free, which is that of all ones. */
  ghost predicate FreeAt(b: seq<nat>, lim: nat, longest: nat)
    requires lim < |b|
  {
    && 1 <= longest <= lim && Horner(b, lim) + Pow2(lim - longest) == Pow2(lim)
    && forall l :: longest < l <= lim ==> b[l] == 0
  }

  /** Remove the count for the pseudo-symbol from the largest code length. */
  method RemovePseudo(bits: array<Byte>, lim: nat, ghost count: nat)
    requires lim >= 1 && Complete(bits[..], lim, count + 1)
    modifies bits
    ensures OneFree(bits[..], lim, count)
    ensures var b, l := old(bits[..]), LastUsed(old(bits[..]), lim); l >= 1 && b[l] >= 1 && bits[..] == b[l := b[l] - 1]
  {
    ghost var b: seq<nat> := bits[..];
    var i := lim;
    SomeCode(b, lim);
    ghost var w :| 1 <= w <= lim && b[w] != 0;
    while bits[i] == 0
      invariant w <= i <= lim
      invariant forall l :: i < l <= lim ==> b[l] == 0
      decreases i
    {
      i := i - 1;
    }
    HornerAdd(b, i, -1, lim);
    SumAdd(b, i, -1, |b|);
    bits[i] := (bits[i] - 1) % 256;
    assert bits[..] == b[i := b[i] - 1];
    assert FreeAt(bits[..], lim, i);
  }

  lemma SomeCode(b: seq<nat>, lim: nat)
    requires lim < |b| && Horner(b, lim) == Pow2(lim)
    ensures lim >= 1 ==> exists w :: 1 <= w <= lim && b[w] != 0
  {
    if forall w :: 1 <= w <= lim ==> b[w] == 0 {
      HornerZero(b, lim);
    }
  }
}
