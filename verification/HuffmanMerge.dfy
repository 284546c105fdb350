/** The merge loop of jpeg_gen_optimal_table (jchuff.c): Huffman's procedure on the arrays freq,
    codesize and others, and the optimality of the code lengths it computes. */
module HuffmanMerge {
  import opened ArithTable
  import opened PointTransform
  import opened HuffmanOptimal

  function Sum(f: seq<nat>, n: nat): nat
    requires n <= |f|
  {
    if n == 0 then 0 else Sum(f, n - 1) + f[n - 1]
  }

  lemma {:induction false} SumAtLeast(f: seq<nat>, i: nat, n: nat)
    requires i < n <= |f|
    ensures f[i] <= Sum(f, n)
  {
    if i < n - 1 {
      SumAtLeast(f, i, n - 1);
    }
  }

  /** The weights of the symbols in the tree of c. */
  function Mask(orig: seq<nat>, root: seq<nat>, c: nat): (g: seq<nat>)
    requires |orig| == |root|
    ensures |g| == |orig| && forall i :: 0 <= i < |g| ==> g[i] == if root[i] == c then orig[i] else 0
  {
    seq(|orig|, i requires 0 <= i < |orig| => if root[i] == c then orig[i] else 0)
  }

  /** The tree of c2 joins that of c1. */
  function Joined(root: seq<nat>, c1: nat, c2: nat): (r: seq<nat>)
    ensures |r| == |root| && forall i :: 0 <= i < |r| ==> r[i] == if root[i] == c2 then c1 else root[i]
  {
    seq(|root|, i requires 0 <= i < |root| => if root[i] == c2 then c1 else root[i])
  }

  /** One bit more for the symbols of c1 and c2. */
  function Deeper(orig: seq<nat>, root: seq<nat>, cs: seq<nat>, c1: nat, c2: nat): (r: seq<nat>)
    requires |orig| == |root| == |cs|
    ensures |r| == |cs|
    ensures forall i :: 0 <= i < |r| ==> r[i] == cs[i] + if orig[i] != 0 && (root[i] == c1 || root[i] == c2) then 1 else 0
  {
    seq(|cs|, i requires 0 <= i < |cs| => cs[i] + if orig[i] != 0 && (root[i] == c1 || root[i] == c2) then 1 else 0)
  }

  /** The forest: `root` gives the tree of each symbol in use, by the symbol whose freq entry holds
      the tree's weight; in units of 2^-top, each tree has the Kraft sum 1. */
  ghost predicate Forest(orig: seq<nat>, f: seq<nat>, root: seq<nat>, cs: seq<nat>, top: nat) {
    && |orig| == |f| == |root| == |cs|
    && (forall s :: 0 <= s < |orig| && orig[s] != 0 ==> root[s] < |f| && f[root[s]] != 0)
    && (forall c :: 0 <= c < |f| && f[c] != 0 ==> orig[c] != 0 && root[c] == c)
    && (forall s :: 0 <= s < |orig| && orig[s] == 0 ==> cs[s] == 0)
    && Within(orig, cs, top)
    && forall c :: 0 <= c < |f| && f[c] != 0 ==> Tree(orig, f[c], root, cs, top, c)
  }

  ghost predicate Tree(orig: seq<nat>, weight: nat, root: seq<nat>, cs: seq<nat>, top: nat, c: nat)
    requires |orig| == |root| == |cs|
  {
    weight == Sum(Mask(orig, root, c), |orig|) && Kraft(Mask(orig, root, c), cs, top, |orig|) == Pow2(top)
  }

  lemma {:induction false} SumJoined(orig: seq<nat>, root: seq<nat>, c1: nat, c2: nat, n: nat)
    requires |orig| == |root| && c1 != c2 && n <= |orig|
    ensures Sum(Mask(orig, Joined(root, c1, c2), c1), n) == Sum(Mask(orig, root, c1), n) + Sum(Mask(orig, root, c2), n)
    decreases n
  {
    if n != 0 {
      SumJoined(orig, root, c1, c2, n - 1);
    }
  }

  lemma {:induction false} KraftJoined(orig: seq<nat>, root: seq<nat>, cs: seq<nat>, top: nat, c1: nat, c2: nat, n: nat)
    requires |orig| == |root| == |cs| && c1 != c2 && n <= |orig|
    ensures Kraft(Mask(orig, Joined(root, c1, c2), c1), Deeper(orig, root, cs, c1, c2), top + 1, n)
         == Kraft(Mask(orig, root, c1), cs, top, n) + Kraft(Mask(orig, root, c2), cs, top, n)
    decreases n
  {
    if n != 0 {
      KraftJoined(orig, root, cs, top, c1, c2, n - 1);
    }
  }

  lemma {:induction false} KraftSame(f: seq<nat>, ls: seq<nat>, ms: seq<nat>, top: nat, n: nat)
    requires |f| == |ls| == |ms| && n <= |f| && forall i :: 0 <= i < |f| && f[i] != 0 ==> ls[i] == ms[i]
    ensures Kraft(f, ls, top, n) == Kraft(f, ms, top, n)
    decreases n
  {
    if n != 0 {
      KraftSame(f, ls, ms, top, n - 1);
    }
  }

  lemma {:induction false} CostDeeper(orig: seq<nat>, root: seq<nat>, cs: seq<nat>, c1: nat, c2: nat, n: nat)
    requires |orig| == |root| == |cs| && c1 != c2 && n <= |orig|
    ensures Cost(orig, Deeper(orig, root, cs, c1, c2), n)
         == Cost(orig, cs, n) + Sum(Mask(orig, root, c1), n) + Sum(Mask(orig, root, c2), n)
    decreases n
  {
    if n != 0 {
      CostDeeper(orig, root, cs, c1, c2, n - 1);
      assert orig[n - 1] * (cs[n - 1] + 1) == orig[n - 1] * cs[n - 1] + orig[n - 1];
    }
  }

  /** A merge costs the weight of the new tree. */
  lemma MergeCosts(orig: seq<nat>, f: seq<nat>, root: seq<nat>, cs: seq<nat>, top: nat, c1: nat, c2: nat)
    requires Forest(orig, f, root, cs, top)
    requires c1 < |f| && c2 < |f| && c1 != c2 && f[c1] != 0 && f[c2] != 0
    ensures Cost(orig, Deeper(orig, root, cs, c1, c2), |orig|) == Cost(orig, cs, |orig|) + f[c1] + f[c2]
  {
    CostDeeper(orig, root, cs, c1, c2, |orig|);
    assert Tree(orig, f[c1], root, cs, top, c1) && Tree(orig, f[c2], root, cs, top, c2);
  }

  /** It keeps the forest. */
  lemma MergeKeepsForest(orig: seq<nat>, f: seq<nat>, root: seq<nat>, cs: seq<nat>, top: nat, c1: nat, c2: nat)
    requires Forest(orig, f, root, cs, top)
    requires c1 < |f| && c2 < |f| && c1 != c2 && f[c1] != 0 && f[c2] != 0
    ensures Forest(orig, Merged(f, c1, c2), Joined(root, c1, c2), Deeper(orig, root, cs, c1, c2), top + 1)
  {
    var f1, root1, cs1 := Merged(f, c1, c2), Joined(root, c1, c2), Deeper(orig, root, cs, c1, c2);
    forall c | 0 <= c < |f1| && f1[c] != 0
      ensures Tree(orig, f1[c], root1, cs1, top + 1, c)
    {
      if c == c1 {
        assert Tree(orig, f[c1], root, cs, top, c1) && Tree(orig, f[c2], root, cs, top, c2);
        JoinedTree(orig, f, root, cs, top, c1, c2);
      } else {
        OtherTree(orig, f, root, cs, top, c1, c2, c);
      }
    }
  }

  lemma JoinedTree(orig: seq<nat>, f: seq<nat>, root: seq<nat>, cs: seq<nat>, top: nat, c1: nat, c2: nat)
    requires |orig| == |f| == |root| == |cs| && c1 < |f| && c2 < |f| && c1 != c2
    requires Tree(orig, f[c1], root, cs, top, c1) && Tree(orig, f[c2], root, cs, top, c2)
    ensures Tree(orig, f[c1] + f[c2], Joined(root, c1, c2), Deeper(orig, root, cs, c1, c2), top + 1, c1)
  {
    SumJoined(orig, root, c1, c2, |orig|);
    KraftJoined(orig, root, cs, top, c1, c2, |orig|);
  }

  lemma OtherTree(orig: seq<nat>, f: seq<nat>, root: seq<nat>, cs: seq<nat>, top: nat, c1: nat, c2: nat, c: nat)
    requires Forest(orig, f, root, cs, top) && c < |f| && f[c] != 0 && c != c1 && c != c2
    ensures Tree(orig, f[c], Joined(root, c1, c2), Deeper(orig, root, cs, c1, c2), top + 1, c)
  {
    assert Tree(orig, f[c], root, cs, top, c);
    assert Mask(orig, Joined(root, c1, c2), c) == Mask(orig, root, c);
    KraftSame(Mask(orig, root, c), cs, Deeper(orig, root, cs, c1, c2), top + 1, |orig|);
    KraftDoubles(Mask(orig, root, c), cs, top, |orig|);
  }

  // ------------------------------------------------------------------ the chains of symbols

  /** ch lists the symbols of the tree of c, in the order in which `others` links them. */
  ghost predicate Chain(ch: seq<nat>, others: seq<int>, orig: seq<nat>, root: seq<nat>, c: nat) {
    && |orig| == |root| == |others|
    && ch != [] && ch[0] == c
    && (forall k :: 0 <= k < |ch| ==> ch[k] < |orig| && orig[ch[k]] != 0 && root[ch[k]] == c)
    && (forall k :: 0 <= k < |ch| ==> others[ch[k]] == Next(ch, k))
    && (forall j, k :: 0 <= j < k < |ch| ==> ch[j] != ch[k])
    && forall s :: 0 <= s < |orig| && orig[s] != 0 && root[s] == c ==> s in ch
  }

  function Next(ch: seq<nat>, k: nat): int
    requires k < |ch|
  {
    if k + 1 < |ch| then ch[k + 1] else -1
  }

  ghost predicate Chains(chains: seq<seq<nat>>, others: seq<int>, orig: seq<nat>, f: seq<nat>, root: seq<nat>) {
    |chains| == |f| && forall c :: 0 <= c < |f| && f[c] != 0 ==> Chain(chains[c], others, orig, root, c)
  }

  lemma ChainJoined(a: seq<nat>, b: seq<nat>, others: seq<int>, orig: seq<nat>, root: seq<nat>, c1: nat, c2: nat)
    requires Chain(a, others, orig, root, c1) && Chain(b, others, orig, root, c2) && c1 != c2
    ensures Chain(a + b, others[a[|a| - 1] := c2], orig, Joined(root, c1, c2), c1)
  {
    var ch, root1 := a + b, Joined(root, c1, c2);
    forall s | 0 <= s < |orig| && orig[s] != 0 && root1[s] == c1
      ensures s in ch
    {
      assert root[s] == c1 || root[s] == c2;
      assert s in a || s in b;
    }
  }

  lemma ChainApart(ch: seq<nat>, others: seq<int>, orig: seq<nat>, root: seq<nat>, c: nat, c1: nat, c2: nat, last: nat)
    requires Chain(ch, others, orig, root, c) && c != c1 && c != c2
    requires last < |orig| && root[last] == c1
    ensures Chain(ch, others[last := c2], orig, Joined(root, c1, c2), c)
  {
  }

  lemma ChainsJoined(chains: seq<seq<nat>>, others: seq<int>, orig: seq<nat>, f: seq<nat>, root: seq<nat>,
                     c1: nat, c2: nat, last: nat)
    requires Chains(chains, others, orig, f, root) && c1 < |f| && c2 < |f| && c1 != c2 && f[c1] != 0 && f[c2] != 0
    requires chains[c1] != [] && last == chains[c1][|chains[c1]| - 1] < |others|
    ensures Chains(chains[c1 := chains[c1] + chains[c2]], others[last := c2], orig, Merged(f, c1, c2), Joined(root, c1, c2))
  {
    var f1 := Merged(f, c1, c2);
    assert Chain(chains[c1], others, orig, root, c1) && Chain(chains[c2], others, orig, root, c2);
    ChainJoined(chains[c1], chains[c2], others, orig, root, c1, c2);
    forall c | 0 <= c < |f1| && f1[c] != 0 && c != c1
      ensures Chain(chains[c], others[last := c2], orig, Joined(root, c1, c2), c)
    {
      assert Chain(chains[c], others, orig, root, c);
      ChainApart(chains[c], others, orig, root, c, c1, c2, last);
    }
  }

  /** One more bit for each of the first k symbols of ch. */
  function Bumped(cs: seq<nat>, ch: seq<nat>, k: nat): (r: seq<nat>)
    requires k <= |ch| && forall j :: 0 <= j < |ch| ==> ch[j] < |cs|
    ensures |r| == |cs|
  {
    if k == 0 then cs else
      var r := Bumped(cs, ch, k - 1);
      r[ch[k - 1] := r[ch[k - 1]] + 1]
  }

  lemma {:induction false} BumpedAt(cs: seq<nat>, ch: seq<nat>, k: nat, i: nat)
    requires k <= |ch| && i < |cs| && forall j :: 0 <= j < |ch| ==> ch[j] < |cs|
    requires forall j, m :: 0 <= j < m < |ch| ==> ch[j] != ch[m]
    ensures Bumped(cs, ch, k)[i] == cs[i] + if i in ch[..k] then 1 else 0
  {
    if k != 0 {
      BumpedAt(cs, ch, k - 1, i);
      assert ch[..k] == ch[..k - 1] + [ch[k - 1]];
    }
  }

  lemma BumpedTree(cs: seq<nat>, ch: seq<nat>, others: seq<int>, orig: seq<nat>, root: seq<nat>, c: nat)
    requires Chain(ch, others, orig, root, c) && |cs| == |orig|
    ensures Bumped(cs, ch, |ch|) == Deeper(orig, root, cs, c, c)
  {
    forall i | 0 <= i < |cs|
      ensures Bumped(cs, ch, |ch|)[i] == Deeper(orig, root, cs, c, c)[i]
    {
      BumpedAt(cs, ch, |ch|, i);
      assert ch[..|ch|] == ch;
    }
  }

  /** The symbols of ch are linked by `others`. */
  ghost predicate Linked(ch: seq<nat>, others: seq<int>) {
    ch != [] && forall k :: 0 <= k < |ch| ==> ch[k] < |others| && others[ch[k]] == Next(ch, k)
  }

  /** codesize[c]++; while (others[c] >= 0) { c = others[c]; codesize[c]++; } */
  method DeepenBranch(others: array<int>, codesize: array<nat>, c0: nat, ghost ch: seq<nat>) returns (c: nat)
    requires codesize.Length == others.Length && Linked(ch, others[..]) && ch[0] == c0
    modifies codesize
    ensures codesize[..] == Bumped(old(codesize[..]), ch, |ch|)
    ensures c == ch[|ch| - 1]
  {
    ghost var cs := codesize[..];
    c := c0;
    ghost var k: nat := 1;
    codesize[c] := codesize[c] + 1;
    while others[c] >= 0
      invariant 1 <= k <= |ch| && c == ch[k - 1]
      invariant codesize[..] == Bumped(cs, ch, k)
      decreases |ch| - k
    {
      c := others[c];
      codesize[c] := codesize[c] + 1;
      k := k + 1;
    }
  }

  // ------------------------------------------------------------------ the search

  const MAX_WEIGHT := 1000000000

  /** The least nonzero weight apart from that of `skip`, the larger symbol in case of ties; -1 if
      there is none up to 10^9. */
  method FindLeast(freq: array<nat>, skip: int) returns (c: int)
    ensures c >= 0 ==> c < freq.Length && c != skip && freq[c] != 0
    ensures c >= 0 ==> forall i :: 0 <= i < freq.Length && freq[i] != 0 && i != skip ==>
              freq[c] < freq[i] || (freq[c] == freq[i] && i <= c)
    ensures c < 0 ==> forall i :: 0 <= i < freq.Length && freq[i] != 0 && i != skip ==> freq[i] > MAX_WEIGHT
  {
    c := -1;
    var v: nat := MAX_WEIGHT;
    for i := 0 to freq.Length
      invariant c < i && (c >= 0 ==> c != skip && freq[c] != 0 && v == freq[c]) && (c < 0 ==> v == MAX_WEIGHT)
      invariant c >= 0 ==> forall j :: 0 <= j < i && freq[j] != 0 && j != skip ==>
                  freq[c] < freq[j] || (freq[c] == freq[j] && j <= c)
      invariant c < 0 ==> forall j :: 0 <= j < i && freq[j] != 0 && j != skip ==> freq[j] > MAX_WEIGHT
    {
      if freq[i] != 0 && freq[i] <= v && i != skip {
        v := freq[i];
        c := i;
      }
    }
  }

  // ------------------------------------------------------------------ the procedure

  function Active(f: seq<nat>, n: nat): nat
    requires n <= |f|
  {
    if n == 0 then 0 else Active(f, n - 1) + if f[n - 1] != 0 then 1 else 0
  }

  lemma {:induction false} ActiveMerged(f: seq<nat>, c1: nat, c2: nat, n: nat)
    requires c1 < |f| && c2 < |f| && c1 != c2 && f[c1] != 0 && f[c2] != 0 && n <= |f|
    ensures Active(Merged(f, c1, c2), n) == Active(f, n) - if c2 < n then 1 else 0
    decreases n
  {
    if n != 0 {
      ActiveMerged(f, c1, c2, n - 1);
    }
  }

  /** What is known of the best code for the merged weights carries over to the original ones. */
  ghost predicate Transfers(f: seq<nat>, orig: seq<nat>, cost: nat) {
    forall m: nat :: Lower(f, m) ==> Lower(orig, m + cost)
  }

  lemma TransferMerge(f: seq<nat>, orig: seq<nat>, cost: nat, c1: nat, c2: nat)
    requires Transfers(f, orig, cost) && TwoLeast(f, c1, c2)
    ensures Transfers(Merged(f, c1, c2), orig, cost + f[c1] + f[c2])
  {
    forall m: nat | Lower(Merged(f, c1, c2), m)
      ensures Lower(orig, m + (cost + f[c1] + f[c2]))
    {
      forall ls, top | Feasible(f, ls, top)
        ensures Cost(f, ls, |f|) >= m + f[c1] + f[c2]
      {
        MergeLower(f, ls, top, c1, c2, m);
      }
      assert Lower(f, m + f[c1] + f[c2]);
    }
  }

  lemma {:induction false} SumPart(f: seq<nat>, g: seq<nat>, n: nat)
    requires |f| == |g| && n <= |f| && forall i :: 0 <= i < |f| ==> g[i] <= f[i]
    ensures Sum(g, n) <= Sum(f, n)
    decreases n
  {
    if n != 0 {
      SumPart(f, g, n - 1);
    }
  }

  /** All weights stay below the limit of the search. */
  lemma WeightBound(orig: seq<nat>, f: seq<nat>, root: seq<nat>, cs: seq<nat>, top: nat, c: nat)
    requires Forest(orig, f, root, cs, top) && c < |f| && f[c] != 0 && Sum(orig, |orig|) <= MAX_WEIGHT
    ensures f[c] <= MAX_WEIGHT
  {
    assert Tree(orig, f[c], root, cs, top, c);
    SumPart(orig, Mask(orig, root, c), |orig|);
  }

  // ------------------------------------------------------------------ how long the codes can get

  function Fib(n: nat): nat {
    if n < 2 then n else Fib(n - 2) + Fib(n - 1)
  }

  lemma {:induction false} FibGrows(m: nat, n: nat)
    requires m <= n
    ensures Fib(m) <= Fib(n)
    decreases n
  {
    if m == n {
    } else if n >= 2 {
      if m < n - 1 {
        FibGrows(m, n - 1);
      }
    }
  }

  /** A tree in which a symbol lies deep is heavy, and so is then every other tree. */
  ghost predicate Heavy(orig: seq<nat>, f: seq<nat>, root: seq<nat>, cs: seq<nat>) {
    && |orig| == |f| == |root| == |cs|
    && (forall s :: 0 <= s < |orig| && orig[s] != 0 ==> root[s] < |f| && f[root[s]] >= Fib(cs[s] + 2))
    && (forall s, c :: 0 <= s < |orig| && orig[s] != 0 && 0 <= c < |f| && f[c] != 0 ==> f[c] >= Fib(cs[s] + 1))
  }

  lemma MergeKeepsHeavy(orig: seq<nat>, f: seq<nat>, root: seq<nat>, cs: seq<nat>, top: nat, c1: nat, c2: nat)
    requires Forest(orig, f, root, cs, top) && Heavy(orig, f, root, cs) && TwoLeast(f, c1, c2)
    ensures Heavy(orig, Merged(f, c1, c2), Joined(root, c1, c2), Deeper(orig, root, cs, c1, c2))
  {
    var f1, root1, cs1 := Merged(f, c1, c2), Joined(root, c1, c2), Deeper(orig, root, cs, c1, c2);
    forall s | 0 <= s < |orig| && orig[s] != 0
      ensures root1[s] < |f1| && f1[root1[s]] >= Fib(cs1[s] + 2)
    {
      OwnHeavy(orig, f, root, cs, c1, c2, s);
    }
    forall s, c | 0 <= s < |orig| && orig[s] != 0 && 0 <= c < |f1| && f1[c] != 0
      ensures f1[c] >= Fib(cs1[s] + 1)
    {
      OtherHeavy(orig, f, root, cs, c1, c2, s, c);
    }
  }

  lemma OwnHeavy(orig: seq<nat>, f: seq<nat>, root: seq<nat>, cs: seq<nat>, c1: nat, c2: nat, s: nat)
    requires Heavy(orig, f, root, cs) && TwoLeast(f, c1, c2) && s < |orig| && orig[s] != 0
    ensures var c := Joined(root, c1, c2)[s];
            c < |f| && Merged(f, c1, c2)[c] >= Fib(Deeper(orig, root, cs, c1, c2)[s] + 2)
  {
    assert f[root[s]] >= Fib(cs[s] + 2) && f[c1] >= Fib(cs[s] + 1) && f[c2] >= Fib(cs[s] + 1);
    assert Fib(cs[s] + 3) == Fib(cs[s] + 1) + Fib(cs[s] + 2);
  }

  lemma OtherHeavy(orig: seq<nat>, f: seq<nat>, root: seq<nat>, cs: seq<nat>, c1: nat, c2: nat, s: nat, c: nat)
    requires Heavy(orig, f, root, cs) && TwoLeast(f, c1, c2) && s < |orig| && orig[s] != 0
    requires c < |f| && Merged(f, c1, c2)[c] != 0
    ensures Merged(f, c1, c2)[c] >= Fib(Deeper(orig, root, cs, c1, c2)[s] + 1)
  {
    assert f[root[s]] >= Fib(cs[s] + 2);
    assert c == c1 || (f[c] != 0 && f[c] >= f[c1] && f[c] >= f[c2] && f[c] >= Fib(cs[s] + 1));
    assert f[c1] >= Fib(cs[s] + 1);
  }

  lemma HeavyAtFirst(orig: seq<nat>, cs: seq<nat>)
    requires |orig| == |cs| && forall i :: 0 <= i < |cs| ==> cs[i] == 0
    ensures Heavy(orig, orig, Single(|orig|), cs)
  {
    assert Fib(1) == Fib(2) == 1;
  }

  // ------------------------------------------------------------------ the last symbol lies deepest

  /** The two least weights, the larger symbol in case of ties. */
  ghost predicate LeastPair(f: seq<nat>, c1: nat, c2: nat) {
    && TwoLeast(f, c1, c2)
    && (forall i :: 0 <= i < |f| && f[i] != 0 && f[i] == f[c1] ==> i <= c1)
    && forall i :: 0 <= i < |f| && f[i] != 0 && f[i] == f[c2] && i != c1 ==> i <= c2
  }

  /** The last symbol is in use, and no other is used less. */
  ghost predicate LastIsLeast(orig: seq<nat>) {
    |orig| > 0 && orig[|orig| - 1] != 0 && forall s :: 0 <= s < |orig| && orig[s] != 0 ==> orig[|orig| - 1] <= orig[s]
  }

  /** No symbol has a longer code than the last one. */
  ghost predicate LastIsDeepest(orig: seq<nat>, cs: seq<nat>) {
    |orig| == |cs| && forall s :: 0 <= s < |orig| && orig[s] != 0 ==> cs[s] <= cs[|cs| - 1]
  }

  /** A tree other than r, which is that of the last symbol x, can be merged before it ... */
  ghost predicate GoesFirst(f: seq<nat>, c: nat, r: nat, x: nat)
    requires c < |f| && r < |f|
  {
    c != r && (f[c] < f[r] || (f[c] == f[r] && r != x))
  }

  /** ... and two others that together weigh as little as r. */
  ghost predicate SameWeight(f: seq<nat>, p: nat, q: nat, r: nat)
    requires p < |f| && q < |f| && r < |f|
  {
    p != q && p != r && q != r && f[p] != 0 && f[q] != 0 && f[p] + f[q] == f[r]
  }

  /** What the merges keep of the depth of the last symbol: nothing lies deeper; what is merged before
      its tree lies higher; and what could come to weigh as little as its tree lies higher by two. */
  ghost predicate Deepest(orig: seq<nat>, f: seq<nat>, root: seq<nat>, cs: seq<nat>) {
    && |orig| == |f| == |root| == |cs| && |orig| > 0 && orig[|orig| - 1] != 0 && root[|orig| - 1] < |f|
    && (forall s :: 0 <= s < |orig| && orig[s] != 0 ==> root[s] < |f|)
    && var x := |orig| - 1;
       var r := root[x];
       && f[r] != 0
       && LastIsDeepest(orig, cs)
       && (forall s :: 0 <= s < |orig| && orig[s] != 0 && GoesFirst(f, root[s], r, x) ==> cs[s] + 1 <= cs[x])
       && (forall p, q :: 0 <= p < |f| && 0 <= q < |f| && p != q && p != r && q != r && f[p] != 0 && f[q] != 0 ==>
             f[p] + f[q] >= f[r])
       && forall s, q :: 0 <= s < |orig| && orig[s] != 0 && 0 <= q < |f| && SameWeight(f, root[s], q, r) && r != x ==>
             cs[s] + 2 <= cs[x]
  }

  lemma DeepestAtFirst(orig: seq<nat>, cs: seq<nat>)
    requires LastIsLeast(orig) && |orig| == |cs| && forall i :: 0 <= i < |cs| ==> cs[i] == 0
    ensures Deepest(orig, orig, Single(|orig|), cs)
  {
  }

  /** The tree of the last symbol takes part in the merge: everything else stays behind by a bit. */
  lemma DeepestMerged(orig: seq<nat>, f: seq<nat>, root: seq<nat>, cs: seq<nat>, c1: nat, c2: nat)
    requires Deepest(orig, f, root, cs) && LeastPair(f, c1, c2)
    requires root[|orig| - 1] == c1 || root[|orig| - 1] == c2
    ensures Deepest(orig, Merged(f, c1, c2), Joined(root, c1, c2), Deeper(orig, root, cs, c1, c2))
  {
    var f1, root1, cs1 := Merged(f, c1, c2), Joined(root, c1, c2), Deeper(orig, root, cs, c1, c2);
    var x, r := |orig| - 1, root[|orig| - 1];
    forall s, q | 0 <= s < |orig| && orig[s] != 0 && 0 <= q < |f1| && SameWeight(f1, root1[s], q, c1) && c1 != x
      ensures cs1[s] + 2 <= cs1[x]
    {
      assert f[root[s]] == f[q] == f[c1] == f[c2];
      assert GoesFirst(f, root[s], r, x);
    }
  }

  /** It does not take part: both trees of the merge go first. */
  lemma DeepestApart(orig: seq<nat>, f: seq<nat>, root: seq<nat>, cs: seq<nat>, c1: nat, c2: nat)
    requires Deepest(orig, f, root, cs) && LeastPair(f, c1, c2)
    requires root[|orig| - 1] != c1 && root[|orig| - 1] != c2
    ensures Deepest(orig, Merged(f, c1, c2), Joined(root, c1, c2), Deeper(orig, root, cs, c1, c2))
  {
    var f1, root1, cs1 := Merged(f, c1, c2), Joined(root, c1, c2), Deeper(orig, root, cs, c1, c2);
    var x, r := |orig| - 1, root[|orig| - 1];
    assert GoesFirst(f, c1, r, x) && GoesFirst(f, c2, r, x);
    assert f[c1] + f[c2] >= f[r];
    forall s | 0 <= s < |orig| && orig[s] != 0 && GoesFirst(f1, root1[s], r, x)
      ensures cs1[s] + 1 <= cs1[x]
    {
      if root[s] == c1 {
        assert SameWeight(f, root[s], c2, r);
      } else if root[s] == c2 {
        assert SameWeight(f, root[s], c1, r);
      } else {
        assert GoesFirst(f, root[s], r, x);
      }
    }
    forall s, q | 0 <= s < |orig| && orig[s] != 0 && 0 <= q < |f1| && SameWeight(f1, root1[s], q, r) && r != x
      ensures cs1[s] + 2 <= cs1[x]
    {
      assert root1[s] != c1 && q != c1;
      assert SameWeight(f, root[s], q, r);
    }
  }

  lemma MergeKeepsDeepest(orig: seq<nat>, f: seq<nat>, root: seq<nat>, cs: seq<nat>, c1: nat, c2: nat)
    requires Deepest(orig, f, root, cs) && LeastPair(f, c1, c2)
    ensures Deepest(orig, Merged(f, c1, c2), Joined(root, c1, c2), Deeper(orig, root, cs, c1, c2))
  {
    if root[|orig| - 1] == c1 || root[|orig| - 1] == c2 {
      DeepestMerged(orig, f, root, cs, c1, c2);
    } else {
      DeepestApart(orig, f, root, cs, c1, c2);
    }
  }

  // ------------------------------------------------------------------ the loop

  /** No symbol's code is longer than the sum of the weights allows. */
  ghost predicate Shallow(orig: seq<nat>, cs: seq<nat>) {
    |orig| == |cs| && forall s :: 0 <= s < |orig| && orig[s] != 0 ==> Fib(cs[s] + 2) <= Sum(orig, |orig|)
  }

  /** The lengths of an optimal code for these weights, with the Kraft sum 1. */
  ghost predicate OptimalLengths(orig: seq<nat>, cs: seq<nat>, top: nat) {
    && |cs| == |orig| && Feasible(orig, cs, top) && Kraft(orig, cs, top, |orig|) == Pow2(top)
    && Lower(orig, Cost(orig, cs, |orig|))
    && forall s :: 0 <= s < |orig| && orig[s] == 0 ==> cs[s] == 0
  }

  /** A single tree holds all symbols, and its lengths are optimal. */
  lemma SingleTree(orig: seq<nat>, f: seq<nat>, root: seq<nat>, cs: seq<nat>, top: nat, c: nat)
    requires Forest(orig, f, root, cs, top) && Transfers(f, orig, Cost(orig, cs, |orig|))
    requires c < |f| && f[c] != 0 && forall i :: 0 <= i < |f| && f[i] != 0 ==> i == c
    ensures OptimalLengths(orig, cs, top) && f[c] == Sum(orig, |orig|)
  {
    assert Tree(orig, f[c], root, cs, top, c);
    assert Mask(orig, root, c) == orig;
    assert Lower(f, 0);
    assert Lower(orig, 0 + Cost(orig, cs, |orig|));
  }

  /** What the loop keeps: `root` and `chains` describe the trees in the arrays. */
  ghost predicate MergingNow(orig: seq<nat>, f: seq<nat>, others: seq<int>, cs: seq<nat>, root: seq<nat>,
                          chains: seq<seq<nat>>, top: nat)
  {
    && Forest(orig, f, root, cs, top) && Chains(chains, others, orig, f, root)
    && Transfers(f, orig, Cost(orig, cs, |orig|)) && Heavy(orig, f, root, cs)
    && (LastIsLeast(orig) ==> Deepest(orig, f, root, cs))
  }

  /** The same, unfolded only by the lemmas below. */
  ghost predicate Merging(orig: seq<nat>, f: seq<nat>, others: seq<int>, cs: seq<nat>, root: seq<nat>,
                          chains: seq<seq<nat>>, top: nat)
  {
    && |orig| == |f| == |others| == |cs| == |root| == |chains|
    && forall t {:trigger MergingNow(orig, f, others, cs, root, chains, t)} ::
         t == top ==> MergingNow(orig, f, others, cs, root, chains, t)
  }

  function Single(n: nat): (r: seq<nat>)
    ensures |r| == n && forall i :: 0 <= i < n ==> r[i] == i
  {
    seq(n, i => i)
  }

  function Alone(n: nat): (r: seq<seq<nat>>)
    ensures |r| == n && forall i :: 0 <= i < n ==> r[i] == [i]
  {
    seq(n, i => [i])
  }

  lemma {:induction false} SumSingle(orig: seq<nat>, c: nat, n: nat)
    requires n <= |orig|
    ensures Sum(Mask(orig, Single(|orig|), c), n) == if c < n then orig[c] else 0
    decreases n
  {
    if n != 0 {
      SumSingle(orig, c, n - 1);
    }
  }

  lemma {:induction false} KraftSingle(orig: seq<nat>, cs: seq<nat>, c: nat, n: nat)
    requires n <= |orig| == |cs| && forall i :: 0 <= i < |cs| ==> cs[i] == 0
    ensures Kraft(Mask(orig, Single(|orig|), c), cs, 0, n) == if c < n && orig[c] != 0 then 1 else 0
    decreases n
  {
    if n != 0 {
      KraftSingle(orig, cs, c, n - 1);
    }
  }

  lemma {:induction false} CostOfZeros(f: seq<nat>, cs: seq<nat>, n: nat)
    requires n <= |f| == |cs| && forall i :: 0 <= i < |cs| ==> cs[i] == 0
    ensures Cost(f, cs, n) == 0
    decreases n
  {
    if n != 0 {
      CostOfZeros(f, cs, n - 1);
    }
  }

  lemma ForestAtFirst(orig: seq<nat>, cs: seq<nat>)
    requires |orig| == |cs| && forall i :: 0 <= i < |cs| ==> cs[i] == 0
    ensures Forest(orig, orig, Single(|orig|), cs, 0)
  {
    forall c | 0 <= c < |orig| && orig[c] != 0
      ensures Tree(orig, orig[c], Single(|orig|), cs, 0, c)
    {
      SumSingle(orig, c, |orig|);
      KraftSingle(orig, cs, c, |orig|);
    }
  }

  lemma ChainsAtFirst(orig: seq<nat>, others: seq<int>)
    requires |orig| == |others| && forall i :: 0 <= i < |orig| ==> others[i] == -1
    ensures Chains(Alone(|orig|), others, orig, orig, Single(|orig|))
  {
    forall c | 0 <= c < |orig| && orig[c] != 0
      ensures Chain([c], others, orig, Single(|orig|), c)
    {
    }
  }

  lemma StartMerging(orig: seq<nat>, others: seq<int>, cs: seq<nat>)
    requires |orig| == |others| == |cs|
    requires forall i :: 0 <= i < |orig| ==> others[i] == -1 && cs[i] == 0
    ensures Merging(orig, orig, others, cs, Single(|orig|), Alone(|orig|), 0)
  {
    CostOfZeros(orig, cs, |orig|);
    HeavyAtFirst(orig, cs);
    ForestAtFirst(orig, cs);
    ChainsAtFirst(orig, others);
    if LastIsLeast(orig) {
      DeepestAtFirst(orig, cs);
    }
    assert MergingNow(orig, orig, others, cs, Single(|orig|), Alone(|orig|), 0);
  }

  /** The two branches of a merge, as they are walked. */
  lemma Branches(orig: seq<nat>, f: seq<nat>, others: seq<int>, cs: seq<nat>, root: seq<nat>, chains: seq<seq<nat>>,
                 top: nat, c1: nat, c2: nat)
    requires Merging(orig, f, others, cs, root, chains, top)
    requires c1 < |f| && c2 < |f| && c1 != c2 && f[c1] != 0 && f[c2] != 0
    ensures Linked(chains[c1], others) && chains[c1][0] == c1
    ensures var last := chains[c1][|chains[c1]| - 1];
            last < |others| && Linked(chains[c2], others[last := c2]) && chains[c2][0] == c2
    ensures var cs1 := Bumped(cs, chains[c1], |chains[c1]|);
            Bumped(cs1, chains[c2], |chains[c2]|) == Deeper(orig, root, cs, c1, c2)
  {
    assert MergingNow(orig, f, others, cs, root, chains, top);
    var a, b := chains[c1], chains[c2];
    assert Chain(a, others, orig, root, c1) && Chain(b, others, orig, root, c2);
    BumpedTree(cs, a, others, orig, root, c1);
    BumpedTree(Bumped(cs, a, |a|), b, others, orig, root, c2);
    DeeperTwice(orig, root, cs, c1, c2);
  }

  lemma KeepMerging(orig: seq<nat>, f: seq<nat>, others: seq<int>, cs: seq<nat>, root: seq<nat>, chains: seq<seq<nat>>,
                    top: nat, c1: nat, c2: nat)
    requires Merging(orig, f, others, cs, root, chains, top) && LeastPair(f, c1, c2)
    requires chains[c1] != [] && chains[c1][|chains[c1]| - 1] < |others|
    ensures var last := chains[c1][|chains[c1]| - 1];
            Merging(orig, Merged(f, c1, c2), others[last := c2], Deeper(orig, root, cs, c1, c2), Joined(root, c1, c2),
                    chains[c1 := chains[c1] + chains[c2]], top + 1)
  {
    assert MergingNow(orig, f, others, cs, root, chains, top);
    var last := chains[c1][|chains[c1]| - 1];
    MergeKeepsForest(orig, f, root, cs, top, c1, c2);
    MergeCosts(orig, f, root, cs, top, c1, c2);
    ChainsJoined(chains, others, orig, f, root, c1, c2, last);
    TransferMerge(f, orig, Cost(orig, cs, |orig|), c1, c2);
    MergeKeepsHeavy(orig, f, root, cs, top, c1, c2);
    if LastIsLeast(orig) {
      MergeKeepsDeepest(orig, f, root, cs, c1, c2);
    }
    assert MergingNow(orig, Merged(f, c1, c2), others[last := c2], Deeper(orig, root, cs, c1, c2), Joined(root, c1, c2),
                      chains[c1 := chains[c1] + chains[c2]], top + 1);
  }

  lemma WeightsBound(orig: seq<nat>, f: seq<nat>, others: seq<int>, cs: seq<nat>, root: seq<nat>, chains: seq<seq<nat>>,
                     top: nat)
    requires Merging(orig, f, others, cs, root, chains, top) && Sum(orig, |orig|) <= MAX_WEIGHT
    ensures forall c :: 0 <= c < |f| && f[c] != 0 ==> f[c] <= MAX_WEIGHT
  {
    assert MergingNow(orig, f, others, cs, root, chains, top);
    forall c | 0 <= c < |f| && f[c] != 0
      ensures f[c] <= MAX_WEIGHT
    {
      WeightBound(orig, f, root, cs, top, c);
    }
  }

  lemma LastTree(orig: seq<nat>, f: seq<nat>, others: seq<int>, cs: seq<nat>, root: seq<nat>, chains: seq<seq<nat>>,
                 top: nat, c: nat)
    requires Merging(orig, f, others, cs, root, chains, top)
    requires c < |f| && f[c] != 0 && forall i :: 0 <= i < |f| && f[i] != 0 ==> i == c
    ensures OptimalLengths(orig, cs, top) && Shallow(orig, cs)
    ensures LastIsLeast(orig) ==> LastIsDeepest(orig, cs)
  {
    assert MergingNow(orig, f, others, cs, root, chains, top);
    SingleTree(orig, f, root, cs, top, c);
  }

  lemma DeeperTwice(orig: seq<nat>, root: seq<nat>, cs: seq<nat>, c1: nat, c2: nat)
    requires |orig| == |root| == |cs| && c1 != c2
    ensures Deeper(orig, root, Deeper(orig, root, cs, c1, c1), c2, c2) == Deeper(orig, root, cs, c1, c2)
  {
  }

  /** The merge step: the frequencies, the code sizes in both branches, and the link. */
  method Merge(freq: array<nat>, others: array<int>, codesize: array<nat>, c1: nat, c2: nat,
               ghost ch1: seq<nat>, ghost ch2: seq<nat>)
    requires freq.Length == others.Length == codesize.Length && freq != codesize
    requires c1 < freq.Length && c2 < freq.Length
    requires Linked(ch1, others[..]) && ch1[0] == c1
    requires Linked(ch2, others[..][ch1[|ch1| - 1] := c2]) && ch2[0] == c2
    modifies freq, others, codesize
    ensures freq[..] == Merged(old(freq[..]), c1, c2)
    ensures others[..] == old(others[..])[ch1[|ch1| - 1] := c2]
    ensures codesize[..] == Bumped(Bumped(old(codesize[..]), ch1, |ch1|), ch2, |ch2|)
  {
    freq[c1] := freq[c1] + freq[c2];
    freq[c2] := 0;
    var last := DeepenBranch(others, codesize, c1, ch1);
    others[last] := c2;
    var last2 := DeepenBranch(others, codesize, c2, ch2);
  }

  /** The same in terms of the trees. */
  method MergeTrees(freq: array<nat>, others: array<int>, codesize: array<nat>, c1: nat, c2: nat,
                    ghost orig: seq<nat>, ghost root: seq<nat>, ghost chains: seq<seq<nat>>, ghost top: nat)
    requires freq.Length == others.Length == codesize.Length && freq != codesize && LeastPair(freq[..], c1, c2)
    requires Merging(orig, freq[..], others[..], codesize[..], root, chains, top)
    modifies freq, others, codesize
    ensures freq[..] == Merged(old(freq[..]), c1, c2)
    ensures Merging(orig, freq[..], others[..], codesize[..], Joined(root, c1, c2),
                    chains[c1 := chains[c1] + chains[c2]], top + 1)
  {
    Branches(orig, freq[..], others[..], codesize[..], root, chains, top, c1, c2);
    KeepMerging(orig, freq[..], others[..], codesize[..], root, chains, top, c1, c2);
    Merge(freq, others, codesize, c1, c2, chains[c1], chains[c2]);
  }

  /** Huffman's basic algorithm: for weights of at most 10^9 in all it computes the lengths of an
      optimal code, none of them longer than a Fibonacci tree of that weight is deep.  If the last
      symbol is used least, it gets a code of the greatest length. */
  method CodeLengths(freq: array<nat>) returns (codesize: array<nat>, ghost top: nat)
    requires Sum(freq[..], freq.Length) <= MAX_WEIGHT && exists s :: 0 <= s < freq.Length && freq[s] != 0
    modifies freq
    ensures fresh(codesize) && OptimalLengths(old(freq[..]), codesize[..], top) && Shallow(old(freq[..]), codesize[..])
    ensures LastIsLeast(old(freq[..])) ==> LastIsDeepest(old(freq[..]), codesize[..])
  {
    ghost var orig := freq[..];
    ghost var root, chains := Single(|orig|), Alone(|orig|);
    top := 0;
    codesize := new nat[freq.Length](_ => 0);
    var others := new int[freq.Length](_ => -1);
    StartMerging(orig, others[..], codesize[..]);
    while true
      invariant fresh(codesize) && fresh(others) && freq.Length == others.Length == codesize.Length
      invariant exists s :: 0 <= s < freq.Length && freq[s] != 0
      invariant Merging(orig, freq[..], others[..], codesize[..], root, chains, top)
      decreases Active(freq[..], freq.Length)
    {
      ghost var f := freq[..];
      WeightsBound(orig, f, others[..], codesize[..], root, chains, top);
      var c1 := FindLeast(freq, -1);
      var c2 := FindLeast(freq, c1);
      if c2 < 0 {
        LastTree(orig, f, others[..], codesize[..], root, chains, top, c1);
        return;
      }
      ActiveMerged(f, c1, c2, |f|);
      MergeTrees(freq, others, codesize, c1, c2, orig, root, chains, top);
      assert freq[..][c1] == f[c1] + f[c2];
      root, chains, top := Joined(root, c1, c2), chains[c1 := chains[c1] + chains[c2]], top + 1;
    }
  }

  function Longest(ls: seq<nat>, n: nat): (m: nat)
    requires n <= |ls|
    ensures forall i :: 0 <= i < n ==> ls[i] <= m
  {
    if n == 0 then 0 else
      var m := Longest(ls, n - 1);
      if ls[n - 1] > m then ls[n - 1] else m
  }

  /** No prefix code for the counts needs fewer bits than the lengths that CodeLengths computes. */
  lemma OptimalAmongPrefixCodes(orig: seq<nat>, cs: seq<nat>, top: nat, words: seq<seq<Bit>>)
    requires OptimalLengths(orig, cs, top) && PrefixCode(orig, words)
    ensures Cost(orig, WordLengths(words), |orig|) >= Cost(orig, cs, |orig|)
  {
    PrefixCodeFeasible(orig, words, Longest(WordLengths(words), |words|));
  }
}
