/** Weighted code lengths, the Kraft sum, and why merging the two least weights is optimal
    (section K.2 of ITU-T T.81).  A symbol with weight 0 takes no part in the code. */
module HuffmanOptimal {
  import opened ArithTable
  import opened PointTransform

  /** The sum of weight times length over the first n symbols. */
  function Cost(f: seq<nat>, ls: seq<nat>, n: nat): nat
    requires n <= |f| && n <= |ls|
  {
    if n == 0 then 0 else Cost(f, ls, n - 1) + f[n - 1] * ls[n - 1]
  }

  /** The share of a code of l bits, in units of 2^-top. */
  function Share(top: nat, l: nat): nat {
    if l <= top then Pow2(top - l) else 0
  }

  /** The Kraft sum of the first n symbols, in units of 2^-top. */
  function Kraft(f: seq<nat>, ls: seq<nat>, top: nat, n: nat): nat
    requires n <= |f| && n <= |ls|
  {
    if n == 0 then 0 else Kraft(f, ls, top, n - 1) + (if f[n - 1] == 0 then 0 else Share(top, ls[n - 1]))
  }

  ghost predicate Within(f: seq<nat>, ls: seq<nat>, top: nat)
    requires |f| == |ls|
  {
    forall i :: 0 <= i < |f| && f[i] != 0 ==> ls[i] <= top
  }

  /** Code lengths up to `top` that meet the Kraft inequality, as those of every prefix code do. */
  ghost predicate Feasible(f: seq<nat>, ls: seq<nat>, top: nat) {
    |f| == |ls| && Within(f, ls, top) && Kraft(f, ls, top, |f|) <= Pow2(top)
  }

  /** No prefix code for these weights costs less than m. */
  ghost predicate Lower(f: seq<nat>, m: nat) {
    forall ls, top :: Feasible(f, ls, top) ==> Cost(f, ls, |f|) >= m
  }

  // ------------------------------------------------------------------ changing one length

  lemma {:induction false} CostUpdate(f: seq<nat>, ls: seq<nat>, i: nat, l: nat, n: nat)
    requires |f| == |ls| && i < |f| && n <= |f|
    ensures Cost(f, ls[i := l], n) == Cost(f, ls, n) + (if i < n then f[i] * l - f[i] * ls[i] else 0)
    decreases n
  {
    if n != 0 {
      CostUpdate(f, ls, i, l, n - 1);
    }
  }

  lemma {:induction false} KraftUpdate(f: seq<nat>, ls: seq<nat>, top: nat, i: nat, l: nat, n: nat)
    requires |f| == |ls| && i < |f| && n <= |f| && f[i] != 0
    ensures Kraft(f, ls[i := l], top, n)
         == Kraft(f, ls, top, n) + (if i < n then Share(top, l) - Share(top, ls[i]) else 0)
    decreases n
  {
    if n != 0 {
      KraftUpdate(f, ls, top, i, l, n - 1);
    }
  }

  lemma {:induction false} KraftDoubles(f: seq<nat>, ls: seq<nat>, top: nat, n: nat)
    requires |f| == |ls| && n <= |f| && Within(f, ls, top)
    ensures Kraft(f, ls, top + 1, n) == 2 * Kraft(f, ls, top, n)
    decreases n
  {
    if n != 0 {
      KraftDoubles(f, ls, top, n - 1);
    }
  }

  lemma TimesMore(w: nat, a: nat, b: nat)
    requires a <= b
    ensures w * b - w * a == w * (b - a) >= 0
  {
  }

  lemma HeavierTimes(v: nat, w: nat, d: nat)
    requires v <= w
    ensures v * d <= w * d
  {
  }

  function Swap(ls: seq<nat>, i: nat, j: nat): seq<nat>
    requires i < |ls| && j < |ls|
  {
    ls[i := ls[j]][j := ls[i]]
  }

  /** Giving the longer of two lengths to the lighter symbol costs nothing. */
  lemma SwapCheaper(f: seq<nat>, ls: seq<nat>, top: nat, c: nat, x: nat)
    requires Feasible(f, ls, top) && c < |f| && x < |f| && 0 < f[c] <= f[x] && ls[c] <= ls[x]
    ensures Feasible(f, Swap(ls, c, x), top) && Cost(f, Swap(ls, c, x), |f|) <= Cost(f, ls, |f|)
  {
    if c == x {
      assert Swap(ls, c, x) == ls;
    } else {
      var ls1 := ls[c := ls[x]];
      CostUpdate(f, ls, c, ls[x], |f|);
      CostUpdate(f, ls1, x, ls[c], |f|);
      TimesMore(f[c], ls[c], ls[x]);
      TimesMore(f[x], ls[c], ls[x]);
      HeavierTimes(f[c], f[x], ls[x] - ls[c]);
      KraftUpdate(f, ls, top, c, ls[x], |f|);
      KraftUpdate(f, ls1, top, x, ls[c], |f|);
    }
  }

  // ------------------------------------------------------------------ merging

  /** c1 has the least weight, and c2 the least of the others. */
  ghost predicate TwoLeast(f: seq<nat>, c1: nat, c2: nat) {
    && c1 < |f| && c2 < |f| && c1 != c2 && f[c1] != 0 && f[c2] != 0
    && (forall i :: 0 <= i < |f| && f[i] != 0 ==> f[c1] <= f[i])
    && forall i :: 0 <= i < |f| && f[i] != 0 && i != c1 ==> f[c2] <= f[i]
  }

  function Merged(f: seq<nat>, c1: nat, c2: nat): seq<nat>
    requires c1 < |f| && c2 < |f|
  {
    f[c1 := f[c1] + f[c2]][c2 := 0]
  }

  lemma {:induction false} CostMerged(f: seq<nat>, ls: seq<nat>, c1: nat, c2: nat, l: nat, n: nat)
    requires |f| == |ls| && c1 < |f| && c2 < |f| && c1 != c2 && ls[c1] == ls[c2] == l + 1 && n <= |f|
    ensures Cost(Merged(f, c1, c2), ls[c1 := l], n)
         == Cost(f, ls, n) + (if c1 < n then (f[c1] + f[c2]) * l - f[c1] * (l + 1) else 0)
            - (if c2 < n then f[c2] * (l + 1) else 0)
    decreases n
  {
    if n != 0 {
      CostMerged(f, ls, c1, c2, l, n - 1);
    }
  }

  lemma {:induction false} KraftMerged(f: seq<nat>, ls: seq<nat>, c1: nat, c2: nat, l: nat, n: nat)
    requires |f| == |ls| && c1 < |f| && c2 < |f| && c1 != c2 && ls[c1] == ls[c2] == l + 1 && n <= |f|
    requires f[c1] != 0 && f[c2] != 0
    ensures Kraft(Merged(f, c1, c2), ls[c1 := l], l + 1, n)
         == Kraft(f, ls, l + 1, n) + (if c1 < n then 1 else 0) - (if c2 < n then 1 else 0)
    decreases n
  {
    if n != 0 {
      KraftMerged(f, ls, c1, c2, l, n - 1);
    }
  }

  /** Two codes of the greatest length can be merged. */
  lemma MergeBoth(f: seq<nat>, ls: seq<nat>, top: nat, c1: nat, c2: nat, m: nat)
    requires Feasible(f, ls, top) && TwoLeast(f, c1, c2) && Lower(Merged(f, c1, c2), m)
    requires top >= 1 && ls[c1] == ls[c2] == top
    ensures Cost(f, ls, |f|) >= m + f[c1] + f[c2]
  {
    var f1, ls1 := Merged(f, c1, c2), ls[c1 := top - 1];
    CostMerged(f, ls, c1, c2, top - 1, |f|);
    KraftMerged(f, ls, c1, c2, top - 1, |f|);
    assert (f[c1] + f[c2]) * (top - 1) == f[c1] * top + f[c2] * top - f[c1] - f[c2];
    assert Feasible(f1, ls1, top);
  }

  /** If only one code has the greatest length, it can be made shorter. */
  lemma ShortenLast(f: seq<nat>, ls: seq<nat>, top: nat, c: nat)
    requires Feasible(f, ls, top) && top >= 1 && c < |f| && f[c] != 0 && ls[c] == top
    requires forall i :: 0 <= i < |f| && f[i] != 0 && i != c ==> ls[i] < top
    ensures Feasible(f, ls[c := top - 1], top - 1) && Cost(f, ls[c := top - 1], |f|) <= Cost(f, ls, |f|)
  {
    var ls1 := ls[c := top - 1];
    CostUpdate(f, ls, c, top - 1, |f|);
    TimesMore(f[c], top - 1, top);
    KraftUpdate(f, ls, top, c, top - 1, |f|);
    assert Share(top, top - 1) == 2 * Pow2(0) == 2;
    KraftDoubles(f, ls1, top - 1, |f|);
  }

  /** Whatever the code, it costs no less than the best code for the merged weights and one more
      bit for the two least. */
  lemma {:induction false} MergeLower(f: seq<nat>, ls: seq<nat>, top: nat, c1: nat, c2: nat, m: nat)
    requires Feasible(f, ls, top) && TwoLeast(f, c1, c2) && Lower(Merged(f, c1, c2), m)
    ensures Cost(f, ls, |f|) >= m + f[c1] + f[c2]
    decreases top
  {
    if top == 0 {
      TwoTooMany(f, ls, c1, c2, |f|);
    } else if x: nat :| x < |f| && f[x] != 0 && ls[x] == top {
      MergeLongest(f, ls, top, c1, c2, m, x);
    } else {
      assert Within(f, ls, top - 1);
      KraftDoubles(f, ls, top - 1, |f|);
      MergeLower(f, ls, top - 1, c1, c2, m);
    }
  }

  /** Two empty codes exceed the Kraft inequality. */
  lemma {:induction false} TwoTooMany(f: seq<nat>, ls: seq<nat>, c1: nat, c2: nat, n: nat)
    requires |f| == |ls| && c1 < |f| && c2 < |f| && c1 != c2 && f[c1] != 0 && f[c2] != 0 && n <= |f|
    requires ls[c1] == ls[c2] == 0
    ensures Kraft(f, ls, 0, n) >= (if c1 < n then 1 else 0) + (if c2 < n then 1 else 0)
    decreases n
  {
    if n != 0 {
      TwoTooMany(f, ls, c1, c2, n - 1);
    }
  }

  lemma {:induction false} MergeLongest(f: seq<nat>, ls: seq<nat>, top: nat, c1: nat, c2: nat, m: nat, x: nat)
    requires Feasible(f, ls, top) && TwoLeast(f, c1, c2) && Lower(Merged(f, c1, c2), m) && top >= 1
    requires x < |f| && f[x] != 0 && ls[x] == top
    ensures Cost(f, ls, |f|) >= m + f[c1] + f[c2]
    decreases top, 0
  {
    // the least weight gets the greatest length
    SwapCheaper(f, ls, top, c1, x);
    var ls1 := Swap(ls, c1, x);
    assert ls1[c1] == top;
    if y: nat :| y < |f| && f[y] != 0 && y != c1 && ls1[y] == top {
      SwapCheaper(f, ls1, top, c2, y);
      MergeBoth(f, Swap(ls1, c2, y), top, c1, c2, m);
    } else {
      ShortenLast(f, ls1, top, c1);
      MergeLower(f, ls1[c1 := top - 1], top - 1, c1, c2, m);
    }
  }

  // ------------------------------------------------------------------ prefix codes

  /** No code word of a symbol in use begins that of another. */
  ghost predicate PrefixCode(f: seq<nat>, words: seq<seq<Bit>>) {
    && |f| == |words|
    && forall i, j :: 0 <= i < |f| && 0 <= j < |f| && i != j && f[i] != 0 && f[j] != 0 ==> !(words[i] <= words[j])
  }

  function WordLengths(words: seq<seq<Bit>>): (ls: seq<nat>)
    ensures |ls| == |words|
  {
    seq(|words|, i requires 0 <= i < |words| => |words[i]|)
  }

  /** The symbols whose code word starts with a given bit. */
  function Starting(f: seq<nat>, words: seq<seq<Bit>>, bit: Bit): (r: seq<nat>)
    requires |f| == |words|
    ensures |r| == |f|
  {
    seq(|f|, i requires 0 <= i < |f| => if words[i] != [] && words[i][0] == bit then f[i] else 0)
  }

  function Tails(words: seq<seq<Bit>>): (r: seq<seq<Bit>>)
    ensures |r| == |words|
  {
    seq(|words|, i requires 0 <= i < |words| => if words[i] == [] then [] else words[i][1..])
  }

  lemma TailsPrefixCode(f: seq<nat>, words: seq<seq<Bit>>, bit: Bit)
    requires PrefixCode(f, words)
    ensures PrefixCode(Starting(f, words, bit), Tails(words))
  {
    var g, t := Starting(f, words, bit), Tails(words);
    forall i, j | 0 <= i < |g| && 0 <= j < |g| && i != j && g[i] != 0 && g[j] != 0
      ensures !(t[i] <= t[j])
    {
      assert words[i] == [bit] + t[i] && words[j] == [bit] + t[j];
    }
  }

  lemma {:induction false} KraftSplits(f: seq<nat>, words: seq<seq<Bit>>, top: nat, n: nat)
    requires |f| == |words| && n <= |f| && top >= 1
    requires forall i :: 0 <= i < |f| && f[i] != 0 ==> words[i] != []
    ensures Kraft(f, WordLengths(words), top, n)
         == Kraft(Starting(f, words, 0), WordLengths(Tails(words)), top - 1, n)
            + Kraft(Starting(f, words, 1), WordLengths(Tails(words)), top - 1, n)
    decreases n
  {
    if n != 0 {
      KraftSplits(f, words, top, n - 1);
    }
  }

  lemma {:induction false} KraftOfOne(f: seq<nat>, ls: seq<nat>, top: nat, i: nat, n: nat)
    requires |f| == |ls| && n <= |f| && forall j :: 0 <= j < |f| && f[j] != 0 ==> j == i
    ensures Kraft(f, ls, top, n) <= Pow2(top)
    decreases n
  {
    if n != 0 {
      KraftOfOne(f, ls, top, i, n - 1);
      if i == n - 1 {
        KraftOfNone(f, ls, top, n - 1);
        PowAtMost(top, ls[i]);
      }
    }
  }

  lemma {:induction false} KraftOfNone(f: seq<nat>, ls: seq<nat>, top: nat, n: nat)
    requires |f| == |ls| && n <= |f| && forall j :: 0 <= j < n ==> f[j] == 0
    ensures Kraft(f, ls, top, n) == 0
    decreases n
  {
    if n != 0 {
      KraftOfNone(f, ls, top, n - 1);
    }
  }

  lemma {:induction false} PowAtMost(top: nat, l: nat)
    ensures Share(top, l) <= Pow2(top)
    decreases l
  {
    if l != 0 && l <= top {
      PowAtMost(top, l - 1);
    }
  }

  /** The lengths of every prefix code meet the Kraft inequality. */
  lemma {:induction false} PrefixCodeFeasible(f: seq<nat>, words: seq<seq<Bit>>, top: nat)
    requires PrefixCode(f, words) && Within(f, WordLengths(words), top)
    ensures Feasible(f, WordLengths(words), top)
    decreases top
  {
    if i: nat :| i < |f| && f[i] != 0 && words[i] == [] {
      forall j | 0 <= j < |f| && f[j] != 0
        ensures j == i
      {
        assert words[i] <= words[j];
      }
      KraftOfOne(f, WordLengths(words), top, i, |f|);
    } else if top == 0 {
      KraftOfNone(f, WordLengths(words), top, |f|);
    } else {
      TailsPrefixCode(f, words, 0);
      TailsPrefixCode(f, words, 1);
      PrefixCodeFeasible(Starting(f, words, 0), Tails(words), top - 1);
      PrefixCodeFeasible(Starting(f, words, 1), Tails(words), top - 1);
      KraftSplits(f, words, top, |f|);
    }
  }
}
