/** jpeg_gen_optimal_table as a whole (jchuff.c): from symbol counts to a table that both
    jpeg_make_c_derived_tbl and jpeg_make_d_derived_tbl accept. */
module HuffmanGenerate {
  import opened ArithTable
  import opened PointTransform
  import opened HuffmanCodes
  import opened HuffmanDerived
  import opened HuffmanMerge
  import opened HuffmanLimit

  const MAX_CLEN := 32
  const PSEUDO := 256

  // ------------------------------------------------------------------ the list of symbols

  /** The symbols below n with codes of i bits. */
  function Pick(cs: seq<nat>, i: nat, n: nat): seq<nat>
    requires n <= |cs|
  {
    if n == 0 then [] else Pick(cs, i, n - 1) + if cs[n - 1] == i then [n - 1] else []
  }

  /** The symbols below n with codes of up to i bits, by code length. */
  function Listed(cs: seq<nat>, i: nat, n: nat): seq<nat>
    requires n <= |cs|
  {
    if i == 0 then [] else Listed(cs, i - 1, n) + Pick(cs, i, n)
  }

  function Used(cs: seq<nat>, i: nat, n: nat): (u: nat)
    requires n <= |cs|
    ensures u <= n
  {
    if n == 0 then 0 else Used(cs, i, n - 1) + if 1 <= cs[n - 1] <= i then 1 else 0
  }

  lemma {:induction false} PickedSymbols(cs: seq<nat>, i: nat, n: nat)
    requires n <= |cs| && i >= 1
    ensures |Pick(cs, i, n)| + Used(cs, i - 1, n) == Used(cs, i, n)
    ensures forall k :: 0 <= k < |Pick(cs, i, n)| ==> Pick(cs, i, n)[k] < n && cs[Pick(cs, i, n)[k]] == i
    ensures forall j, k :: 0 <= j < k < |Pick(cs, i, n)| ==> Pick(cs, i, n)[j] != Pick(cs, i, n)[k]
    ensures forall s :: 0 <= s < n && cs[s] == i ==> s in Pick(cs, i, n)
    decreases n
  {
    if n != 0 {
      PickedSymbols(cs, i, n - 1);
    }
  }

  /** A list of the symbols below n with codes of up to i bits, each once, by code length. */
  ghost predicate SymbolList(list: seq<nat>, cs: seq<nat>, i: nat, n: nat)
    requires n <= |cs|
  {
    && |list| == Used(cs, i, n)
    && (forall k :: 0 <= k < |list| ==> list[k] < n && 1 <= cs[list[k]] <= i)
    && (forall j, k :: 0 <= j < k < |list| ==> list[j] != list[k] && cs[list[j]] <= cs[list[k]])
    && forall s :: 0 <= s < n && 1 <= cs[s] <= i ==> s in list
  }

  lemma ListGrows(list: seq<nat>, more: seq<nat>, cs: seq<nat>, i: nat, n: nat)
    requires n <= |cs| && i >= 1 && SymbolList(list, cs, i - 1, n)
    requires |more| + Used(cs, i - 1, n) == Used(cs, i, n)
    requires forall k :: 0 <= k < |more| ==> more[k] < n && cs[more[k]] == i
    requires forall j, k :: 0 <= j < k < |more| ==> more[j] != more[k]
    requires forall s :: 0 <= s < n && cs[s] == i ==> s in more
    ensures SymbolList(list + more, cs, i, n)
  {
  }

  lemma {:induction false} ListedSymbols(cs: seq<nat>, i: nat, n: nat)
    requires n <= |cs|
    ensures SymbolList(Listed(cs, i, n), cs, i, n)
    decreases i
  {
    if i == 0 {
      NoneUsed(cs, n);
    } else {
      ListedSymbols(cs, i - 1, n);
      PickedSymbols(cs, i, n);
      ListGrows(Listed(cs, i - 1, n), Pick(cs, i, n), cs, i, n);
    }
  }

  lemma {:induction false} NoneUsed(cs: seq<nat>, n: nat)
    requires n <= |cs|
    ensures Used(cs, 0, n) == 0
  {
    if n != 0 {
      NoneUsed(cs, n - 1);
    }
  }

  /** The list of the symbols sorted by code length; the last symbol, the pseudo-symbol, is left
      out. */
  method ListSymbols(codesize: array<nat>, max: nat) returns (vals: seq<Byte>, p: nat)
    requires 1 <= codesize.Length <= 257
    ensures |vals| == 256 && p < codesize.Length && vals[..p] == Listed(codesize[..], max, codesize.Length - 1)
  {
    var huffval := new Byte[256](_ => 0);
    ghost var cs: seq<nat> := codesize[..];
    p := 0;
    var i: nat := 1;
    while i <= max
      invariant 1 <= i <= max + 1 && p < codesize.Length && huffval[..p] == Listed(cs, i - 1, codesize.Length - 1)
    {
      p := ListLength(codesize, huffval, i, p);
      i := i + 1;
    }
    vals := huffval[..];
  }

  method ListLength(codesize: array<nat>, huffval: array<Byte>, i: nat, p0: nat) returns (p: nat)
    requires 1 <= codesize.Length <= 257 && huffval.Length == 256 && i >= 1
    requires p0 < codesize.Length && huffval[..p0] == Listed(codesize[..], i - 1, codesize.Length - 1)
    modifies huffval
    ensures p < codesize.Length && huffval[..p] == Listed(codesize[..], i, codesize.Length - 1)
  {
    ghost var cs: seq<nat> := codesize[..];
    ghost var before := Listed(cs, i - 1, codesize.Length - 1);
    RoomLeft(cs, i, codesize.Length - 1);
    p := p0;
    for j := 0 to codesize.Length - 1
      invariant p == p0 + |Pick(cs, i, j)| && p < codesize.Length
      invariant huffval[..p] == before + Pick(cs, i, j)
    {
      if codesize[j] == i {
        PickGrows(cs, i, j + 1, codesize.Length - 1);
        Snoc(huffval[..p], before, Pick(cs, i, j), j);
        huffval[p] := j;
        p := p + 1;
        assert huffval[..p] == huffval[..p - 1] + [j];
      }
    }
  }

  lemma RoomLeft(cs: seq<nat>, i: nat, n: nat)
    requires n <= |cs| && i >= 1
    ensures |Listed(cs, i - 1, n)| + |Pick(cs, i, n)| <= n
  {
    ListedSymbols(cs, i, n);
  }

  lemma Snoc(s: seq<nat>, a: seq<nat>, b: seq<nat>, x: nat)
    requires s == a + b
    ensures s + [x] == a + (b + [x])
  {
  }

  lemma {:induction false} PickGrows(cs: seq<nat>, i: nat, m: nat, n: nat)
    requires m <= n <= |cs|
    ensures |Pick(cs, i, m)| <= |Pick(cs, i, n)|
    decreases n
  {
    if m < n {
      PickGrows(cs, i, m, n - 1);
    }
  }

  // ------------------------------------------------------------------ the table

  lemma {:induction false} SumOfSlice(b: seq<nat>, m: nat, n: nat)
    requires n <= m <= |b|
    ensures Sum(b[..m], n) == Sum(b, n)
    decreases n
  {
    if n != 0 {
      SumOfSlice(b, m, n - 1);
    }
  }

  lemma {:induction false} SumOfRest(b: seq<nat>, m: nat, n: nat)
    requires m <= n <= |b| && forall l :: m <= l < |b| ==> b[l] == 0
    ensures Sum(b, n) == Sum(b, m)
    decreases n
  {
    if m < n {
      SumOfRest(b, m, n - 1);
    }
  }

  lemma {:induction false} FirstIsSum(b: Lengths, l: nat)
    requires 1 <= l <= 17 && b[0] == 0
    ensures First(b, l) == Sum(b, l)
  {
    if l > 1 {
      FirstIsSum(b, l - 1);
    }
  }

  lemma {:induction false} HornerOfSlice(b: seq<nat>, c: Lengths, l: nat)
    requires |b| >= 17 && c == b[..17] && 1 <= l <= 16 && b[0] == 0
    ensures Horner(b, l) == MinCode(c, l) + c[l]
  {
    if l > 1 {
      HornerOfSlice(b, c, l - 1);
    }
  }

  lemma {:induction false} HornerLegal(b: seq<nat>, c: Lengths, l: nat)
    requires |b| >= 17 && c == b[..17] && l <= 16 && b[0] == 0 && Horner(b, l) < Pow2(l)
    ensures LegalUpTo(c, l + 1)
  {
    if l != 0 {
      HornerOfSlice(b, c, l);
      HornerLegal(b, c, l - 1);
    }
  }

  /** The counts that remain are those of a legal table. */
  lemma CountsAreLegal(b: seq<nat>, c: Lengths, lim: nat, count: nat)
    requires |b| >= 17 && c == b[..17] && lim == 16 && OneFree(b, lim, count) && count <= 255
    ensures Legal(c) && Total(c) == count
  {
    var longest :| FreeAt(b, lim, longest);
    HornerLegal(b, c, lim);
    FirstIsSum(c, lim + 1);
    SumOfSlice(b, lim + 1, lim + 1);
    SumOfRest(b, lim + 1, |b|);
  }

  /** The table lists exactly the symbols with nonzero counts, each once, by the length of their
      optimal codes, and it leaves one code of the greatest length free. */
  ghost predicate TableOf(t: HuffTbl, f: seq<nat>, cs: seq<nat>)
    requires |f| == |cs| == PSEUDO + 1
  {
    && Legal(t.bits)
    && (exists longest :: FreeAt(t.bits, 16, longest))
    && (forall p :: 0 <= p < Total(t.bits) ==> f[t.vals[p]] != 0)
    && (forall p, q :: 0 <= p < q < Total(t.bits) ==> t.vals[p] != t.vals[q] && cs[t.vals[p]] <= cs[t.vals[q]])
    && forall s: Byte :: f[s] != 0 ==> s in t.vals[..Total(t.bits)]
  }

  lemma {:induction false} ActiveIsUsed(orig: seq<nat>, cs: seq<nat>, max: nat, n: nat)
    requires SameUse(orig, cs) && n <= |cs| && forall s :: 0 <= s < |cs| ==> cs[s] <= max
    ensures Active(orig, n) == Used(cs, max, n)
    decreases n
  {
    if n != 0 {
      ActiveIsUsed(orig, cs, max, n - 1);
    }
  }

  lemma {:induction false} ActiveSame(f: seq<nat>, g: seq<nat>, n: nat)
    requires n <= |f| && n <= |g| && forall i :: 0 <= i < n ==> f[i] == g[i]
    ensures Active(f, n) == Active(g, n) && Sum(f, n) == Sum(g, n)
  {
    if n != 0 {
      ActiveSame(f, g, n - 1);
    }
  }

  lemma {:induction false} SomeActive(f: seq<nat>, n: nat)
    requires n <= |f| && Active(f, n) >= 1
    ensures exists s :: 0 <= s < n && f[s] != 0
  {
    if f[n - 1] == 0 {
      SomeActive(f, n - 1);
    }
  }

  /** With the pseudo-symbol there are at least two symbols, so that all of them have codes. */
  lemma AllHaveCodes(f: seq<nat>, cs: seq<nat>, top: nat)
    requires |f| >= 1 && f[|f| - 1] != 0 && Active(f, |f| - 1) >= 1 && OptimalLengths(f, cs, top)
    ensures SameUse(f, cs)
  {
    SomeActive(f, |f| - 1);
    var t :| 0 <= t < |f| - 1 && f[t] != 0;
    forall s | 0 <= s < |f| && f[s] != 0
      ensures cs[s] != 0
    {
      UsedHaveBits(f, cs, top, s, if s == t then |f| - 1 else t);
    }
  }

  /** The counts of an optimal code within `max` bits are complete. */
  lemma CountsComplete(b: seq<nat>, f: seq<nat>, cs: seq<nat>, top: nat)
    requires Counts(b, f, cs, |cs|) && OptimalLengths(f, cs, top) && Active(f, |f|) <= 255
    requires forall s :: 0 <= s < |cs| ==> cs[s] <= |b| - 1
    ensures Complete(b, |b| - 1, Active(f, |f|))
  {
    if top <= |b| - 1 {
      KraftRescale(f, cs, top, |b| - 1);
    } else {
      KraftRescale(f, cs, |b| - 1, top);
    }
  }

  lemma TableIsRight(t: HuffTbl, b: seq<nat>, f: seq<nat>, cs: seq<nat>, max: nat, p: nat, lim: nat)
    requires |f| == PSEUDO + 1 && SameUse(f, cs) && Active(f, |f| - 1) <= 255
    requires forall s :: 0 <= s < |cs| ==> cs[s] <= max
    requires |b| >= 17 && t.bits == b[..17] && lim == 16 && OneFree(b, lim, Active(f, |f| - 1))
    requires p <= 256 && t.vals[..p] == Listed(cs, max, |cs| - 1)
    ensures TableOf(t, f, cs) && Total(t.bits) == Active(f, |f| - 1)
  {
    CountsAreLegal(b, t.bits, lim, Active(f, |f| - 1));
    ListedSymbols(cs, max, |cs| - 1);
    ActiveIsUsed(f, cs, max, |cs| - 1);
    ListIsRight(t, f, cs, max, p);
    var longest :| FreeAt(b, lim, longest);
    HornerOfSlice2(b, t.bits, lim);
    assert FreeAt(t.bits, lim, longest);
  }

  lemma ListIsRight(t: HuffTbl, f: seq<nat>, cs: seq<nat>, max: nat, p: nat)
    requires |f| == PSEUDO + 1 && SameUse(f, cs) && p <= 256
    requires forall s :: 0 <= s < |cs| ==> cs[s] <= max
    requires t.vals[..p] == Listed(cs, max, PSEUDO) && SymbolList(t.vals[..p], cs, max, PSEUDO)
    ensures forall k :: 0 <= k < p ==> f[t.vals[k]] != 0
    ensures forall j, k :: 0 <= j < k < p ==> t.vals[j] != t.vals[k] && cs[t.vals[j]] <= cs[t.vals[k]]
    ensures forall s: Byte :: f[s] != 0 ==> s in t.vals[..p]
  {
    var list := t.vals[..p];
    assert forall k :: 0 <= k < p ==> t.vals[k] == list[k];
    forall s: Byte | f[s] != 0
      ensures s in list
    {
      assert cs[s] != 0;
    }
  }

  lemma {:induction false} HornerOfSlice2(b: seq<nat>, c: Lengths, l: nat)
    requires |b| >= 17 && c == b[..17] && l <= 16
    ensures Horner(b, l) == Horner(c, l)
  {
    if l != 0 {
      HornerOfSlice2(b, c, l - 1);
    }
  }

  // ------------------------------------------------------------------ the code lengths

  /** Every symbol has a code of exactly the length that cs gives it. */
  ghost predicate LengthsKept(t: HuffTbl, cs: seq<nat>)
    requires |cs| == PSEUDO + 1
  {
    Total(t.bits) <= 256 && forall p: nat {:trigger t.vals[p]} :: p < Total(t.bits) ==> HasLength(t.bits, p, cs[t.vals[p]])
  }

  /** The number of symbols with codes of l bits, for each l up to max. */
  function Histogram(cs: seq<nat>, max: nat): (b: seq<nat>)
    ensures |b| == max + 1
  {
    seq(max + 1, l requires 0 <= l <= max => if l == 0 then 0 else Tally(cs, l, |cs|))
  }

  /** The BITS list made from these numbers: no length over 16, and one code of the greatest length
      taken back. */
  function FinalBits(b: seq<nat>): (r: seq<nat>)
    requires |b| >= 17
    ensures |r| == 17
  {
    var m := Limited(b, |b| - 1, 16);
    var l := LastUsed(m, 16);
    (if l == 0 then m else m[l := m[l] - 1])[..17]
  }

  lemma {:induction false} PickTally(cs: seq<nat>, l: nat, n: nat)
    requires n <= |cs|
    ensures |Pick(cs, l, n)| == Tally(cs, l, n)
  {
    if n != 0 {
      PickTally(cs, l, n - 1);
    }
  }

  /** The list gives the codes of each length their index range. */
  lemma {:induction false} ListedRange(cs: seq<nat>, m: nat, n: nat, p: nat)
    requires n <= |cs| && p < |Listed(cs, m, n)|
    ensures Listed(cs, m, n)[p] < n
    ensures var l := cs[Listed(cs, m, n)[p]]; 1 <= l <= m && |Listed(cs, l - 1, n)| <= p < |Listed(cs, l, n)|
    decreases m
  {
    if p < |Listed(cs, m - 1, n)| {
      ListedRange(cs, m - 1, n, p);
    } else {
      PickedSymbols(cs, m, n);
    }
  }

  lemma {:induction false} FirstOfList(b: Lengths, cs: seq<nat>, l: nat, n: nat)
    requires n <= |cs| && 1 <= l <= 17 && forall k :: 1 <= k <= 16 ==> b[k] == Tally(cs, k, n)
    ensures First(b, l) == |Listed(cs, l - 1, n)|
    decreases l
  {
    if l > 1 {
      FirstOfList(b, cs, l - 1, n);
      PickTally(cs, l - 1, n);
    }
  }

  /** The counts of the real symbols: the pseudo-symbol's code is one of the longest. */
  lemma RealCounts(b: seq<nat>, f: seq<nat>, cs: seq<nat>, k: nat)
    requires |b| >= 17 && |f| >= 1 && f[|f| - 1] != 0 && SameUse(f, cs) && LastIsDeepest(f, cs)
    requires Tallies(b, cs, |cs|) && 1 <= k <= 16 && forall s :: 0 <= s < |cs| ==> cs[s] <= 16
    ensures var l := LastUsed(b, 16); l == cs[|cs| - 1] >= 1 && b[l] >= 1
    ensures b[k] - (if k == cs[|cs| - 1] then 1 else 0) == Tally(cs, k, |cs| - 1)
  {
    var l, x := LastUsed(b, 16), cs[|cs| - 1];
    assert x != 0;
    TallyFound(cs, x, |cs|);
    TallyFound(cs, l, |cs|);
    assert b[x] == Tally(cs, x, |cs|);
  }

  lemma {:induction false} NothingOver(b: seq<nat>, cs: seq<nat>, l: nat)
    requires Tallies(b, cs, |cs|) && 16 < l < |b| && forall s :: 0 <= s < |cs| ==> cs[s] <= 16
    ensures b[l] == 0
  {
    TallyFound(cs, l, |cs|);
  }

  /** With no length over 16, the table keeps all lengths. */
  lemma {:induction false} ShortLengthsKept(t: HuffTbl, b: seq<nat>, f: seq<nat>, cs: seq<nat>, max: nat, p: nat)
    requires |f| == PSEUDO + 1 && f[PSEUDO] != 0 && SameUse(f, cs) && LastIsDeepest(f, cs)
    requires |b| >= 17 && Tallies(b, cs, |cs|) && t.bits == FinalBits(b)
    requires p <= 256 && t.vals[..p] == Listed(cs, max, PSEUDO) && Total(t.bits) == p
    requires forall s :: 0 <= s < |cs| ==> cs[s] <= 16
    ensures LengthsKept(t, cs)
  {
    forall l | 16 < l < |b|
      ensures b[l] == 0
    {
      NothingOver(b, cs, l);
    }
    LimitedKeeps(b, |b| - 1, 16);
    forall k | 1 <= k <= 16
      ensures t.bits[k] == Tally(cs, k, PSEUDO)
    {
      RealCounts(b, f, cs, k);
    }
    forall q: nat | q < Total(t.bits)
      ensures HasLength(t.bits, q, cs[t.vals[q]])
    {
      assert t.vals[q] == t.vals[..p][q];
      ListedLength(t.bits, cs, max, PSEUDO, q);
    }
  }

  /** Place q of the list lies among the codes of its symbol's length. */
  lemma {:induction false} ListedLength(b: Lengths, cs: seq<nat>, max: nat, n: nat, q: nat)
    requires n <= |cs| && q < |Listed(cs, max, n)| && forall k :: 1 <= k <= 16 ==> b[k] == Tally(cs, k, n)
    requires forall s :: 0 <= s < |cs| ==> cs[s] <= 16
    ensures Listed(cs, max, n)[q] < n && HasLength(b, q, cs[Listed(cs, max, n)[q]])
  {
    ListedRange(cs, max, n, q);
    var l := cs[Listed(cs, max, n)[q]];
    FirstOfList(b, cs, l, n);
    FirstOfList(b, cs, l + 1, n);
    assert First(b, l) <= q < First(b, l + 1) == First(b, l) + b[l];
  }

  /** What the second half makes of the counts b of the lengths cs. */
  ghost predicate Made(t: HuffTbl, f: seq<nat>, cs: seq<nat>, b: seq<nat>)
    requires |f| == |cs| == PSEUDO + 1 && |b| >= 17
  {
    && TableOf(t, f, cs) && Total(t.bits) == Active(f, |f| - 1)
    && t.bits == FinalBits(b)
    && ((forall s :: 0 <= s < |cs| ==> cs[s] <= 16) ==> LengthsKept(t, cs))
  }

  lemma TableIsMade(t: HuffTbl, after: seq<nat>, f: seq<nat>, cs: seq<nat>, b: seq<nat>, max: nat, p: nat)
    requires |f| == PSEUDO + 1 && f[PSEUDO] != 0 && SameUse(f, cs) && Active(f, |f| - 1) <= 254
    requires forall s :: 0 <= s < |cs| ==> cs[s] <= max
    requires |after| >= 17 && t.bits == after[..17] && OneFree(after, 16, Active(f, |f| - 1))
    requires p <= 256 && t.vals[..p] == Listed(cs, max, |cs| - 1)
    requires |b| >= 17 && Tallies(b, cs, |cs|) && LastIsDeepest(f, cs) && t.bits == FinalBits(b)
    ensures Made(t, f, cs, b)
  {
    TableIsRight(t, after, f, cs, max, p, 16);
    if forall s :: 0 <= s < |cs| ==> cs[s] <= 16 {
      ListedSymbols(cs, max, PSEUDO);
      ActiveIsUsed(f, cs, max, PSEUDO);
      ShortLengthsKept(t, b, f, cs, max, p);
    }
  }

  // ------------------------------------------------------------------ the procedure

  datatype Generated = LengthOverflow | Generated(table: HuffTbl)

  /** The table comes from the lengths cs of an optimal code for the counts f: they are the lengths of its
      codes if none of them is over 16, and otherwise they are limited as figure K.3 says. */
  ghost predicate MadeBy(t: HuffTbl, f: seq<nat>, cs: seq<nat>, top: nat)
    requires |f| == PSEUDO + 1
  {
    && OptimalLengths(f, cs, top) && TableOf(t, f, cs)
    && t.bits == FinalBits(Histogram(cs, MAX_CLEN))
    && ((forall s :: 0 <= s < |cs| ==> cs[s] <= 16) ==> LengthsKept(t, cs))
  }

  ghost predicate OptimalFor(t: HuffTbl, f: seq<nat>)
    requires |f| == PSEUDO + 1
  {
    exists cs: seq<nat>, top: nat :: MadeBy(t, f, cs, top)
  }

  lemma OverflowIsHeavy(given: seq<nat>, f: seq<nat>, cs: seq<nat>)
    requires |given| == PSEUDO + 1 && f == given[PSEUDO := 1] && Shallow(f, cs)
    requires exists s :: 0 <= s < |cs| && cs[s] > MAX_CLEN && f[s] != 0
    ensures Sum(given, PSEUDO) + 1 >= Fib(MAX_CLEN + 3)
  {
    var s :| 0 <= s < |cs| && cs[s] > MAX_CLEN && f[s] != 0;
    FibGrows(MAX_CLEN + 3, cs[s] + 2);
    SumSame(f, given, PSEUDO);
  }

  lemma {:induction false} SumSame(f: seq<nat>, g: seq<nat>, n: nat)
    requires n <= |f| == |g| && forall i :: 0 <= i < n ==> f[i] == g[i]
    ensures Sum(f, n) == Sum(g, n)
  {
    if n != 0 {
      SumSame(f, g, n - 1);
    }
  }

  /** jpeg_gen_optimal_table, for 1 to 254 symbols in use and less than 10^9 counts: an optimal code
      for the counts and the pseudo-symbol, unless one of its lengths is over 32, then made to fit.
      If none is over 16, every symbol keeps its optimal length. */
  method GenOptimalTable(freq: array<nat>) returns (r: Generated, ghost cs: seq<nat>, ghost top: nat)
    requires freq.Length == PSEUDO + 1
    requires 1 <= Active(freq[..], freq.Length - 1) <= 254 && Sum(freq[..], freq.Length - 1) < MAX_WEIGHT
    modifies freq
    ensures OptimalLengths(old(freq[..])[PSEUDO := 1], cs, top)
    ensures r.LengthOverflow? <==> exists s :: 0 <= s < |cs| && cs[s] > MAX_CLEN
    ensures r.LengthOverflow? ==> Sum(old(freq[..]), freq.Length - 1) + 1 >= Fib(MAX_CLEN + 3)
    ensures r.Generated? ==> MadeBy(r.table, old(freq[..])[PSEUDO := 1], cs, top)
    ensures r.Generated? ==> Total(r.table.bits) == Active(old(freq[..]), freq.Length - 1)
  {
    ghost var given := freq[..];
    freq[PSEUDO] := 1;
    ghost var f := freq[..];
    assert f == given[PSEUDO := 1];
    ActiveSame(f, given, |f| - 1);
    var codesize;
    codesize, top := CodeLengths(freq);
    cs := codesize[..];
    AllHaveCodes(f, cs, top);
    var max: nat := MAX_CLEN;
    var ok, bits := CountLengths(codesize, max, f);
    if !ok {
      OverflowIsHeavy(given, f, cs);
      return LengthOverflow, cs, top;
    }
    assert LastIsLeast(f) && LastIsDeepest(f, cs);
    TalliesAre(bits[..], cs, MAX_CLEN);
    r := Finish(codesize, bits, f, cs, top);
  }

  lemma TalliesAre(b: seq<nat>, cs: seq<nat>, max: nat)
    requires |b| == max + 1 && b[0] == 0 && Tallies(b, cs, |cs|)
    ensures b == Histogram(cs, max)
  {
  }

  /** The second half: limiting, the pseudo-symbol, and the list of symbols. */
  method Finish(codesize: array<nat>, bits: array<Byte>, ghost f: seq<nat>, ghost cs: seq<nat>, ghost top: nat)
    returns (r: Generated)
    requires cs == codesize[..] && |f| == PSEUDO + 1 && f[PSEUDO] != 0 && SameUse(f, cs) && OptimalLengths(f, cs, top)
    requires bits.Length == MAX_CLEN + 1 && Counts(bits[..], f, cs, |cs|) && Active(f, |f| - 1) <= 254
    requires forall s :: 0 <= s < |cs| ==> cs[s] <= MAX_CLEN
    requires Tallies(bits[..], cs, |cs|) && LastIsDeepest(f, cs)
    modifies bits
    ensures r.Generated? && Made(r.table, f, cs, old(bits[..]))
  {
    ghost var b: seq<nat> := bits[..];
    CountsComplete(b, f, cs, top);
    FinishBits(bits, Active(f, |f| - 1));
    r := MakeTable(codesize, bits, f, cs, b);
  }

  /** Limiting, and the pseudo-symbol. */
  method FinishBits(bits: array<Byte>, ghost count: nat)
    requires bits.Length == MAX_CLEN + 1 && Complete(bits[..], MAX_CLEN, count + 1)
    modifies bits
    ensures OneFree(bits[..], 16, count) && bits[..17] == FinalBits(old(bits[..]))
  {
    LimitLengths(bits, 16, count + 1);
    RemovePseudo(bits, 16, count);
  }

  /** The bits and huffval arrays of the table. */
  method MakeTable(codesize: array<nat>, bits: array<Byte>, ghost f: seq<nat>, ghost cs: seq<nat>, ghost b: seq<nat>)
    returns (r: Generated)
    requires cs == codesize[..] && |f| == PSEUDO + 1 && f[PSEUDO] != 0 && SameUse(f, cs)
    requires bits.Length == MAX_CLEN + 1 && OneFree(bits[..], 16, Active(f, |f| - 1)) && Active(f, |f| - 1) <= 254
    requires forall s :: 0 <= s < |cs| ==> cs[s] <= MAX_CLEN
    requires |b| >= 17 && Tallies(b, cs, |cs|) && LastIsDeepest(f, cs) && bits[..17] == FinalBits(b)
    ensures r.Generated? && Made(r.table, f, cs, b)
  {
    var max: nat := bits.Length - 1;
    var vals, p := ListSymbols(codesize, max);
    r := Generated(TableInfo(bits[..17], vals));
    TableIsMade(r.table, bits[..], f, cs, b, max, p);
  }

  /** Both sides accept the table; for DC, if only categories up to 15 have been counted. */
  lemma TableAccepted(t: HuffTbl, f: seq<nat>, cs: seq<nat>, isDC: bool)
    requires |f| == |cs| == PSEUDO + 1 && TableOf(t, f, cs)
    requires isDC ==> forall s: Byte :: f[s] != 0 ==> s <= 15
    ensures Legal(t.bits) && GoodSymbols(t, Total(t.bits), isDC)
  {
  }
}
