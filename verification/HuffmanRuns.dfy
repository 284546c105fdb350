/** The decoder's view of the items of a band: what comes next at each coefficient. */
module HuffmanRuns {
  import opened ArithTable
  import opened ArithModel
  import opened ArithBlocks
  import opened PointTransform
  import opened HuffmanCodes
  import opened HuffmanDerived
  import opened HuffmanItems

  /** The coefficients from k up to m vanish under the point transform. */
  ghost predicate Vanish(z: ZBlock, al: nat, k: nat, m: nat)
    requires m <= 64
  {
    forall i :: k <= i < m ==> Trunc(z[i], al) == 0
  }

  lemma {:induction false} FirstSkips(tbl: HuffNo, z: ZBlock, al: nat, k: nat, m: nat, se: Index, r: nat)
    requires k <= m <= se + 1 && Vanish(z, al, k, m)
    ensures FirstItems(tbl, z, al, k, se, r) == FirstItems(tbl, z, al, m, se, r + (m - k))
    decreases m - k
  {
    if k < m {
      FirstSkips(tbl, z, al, k + 1, m, se, r + 1);
    }
  }

  /** What the next symbol of a first scan stands for: the end of the band, 16 zeros, or n zeros and a
      coefficient. */
  datatype Run = End | Zeros16 | Coefficient(n: nat)

  function NextRun(z: ZBlock, al: nat, k: nat, se: Index, n: nat): Run
    decreases se + 1 - k
  {
    if k > se then End
    else if Trunc(z[k], al) == 0 then NextRun(z, al, k + 1, se, n + 1)
    else if n < 16 then Coefficient(n)
    else Zeros16
  }

  /** The case of NextRun describes the items from k on. */
  ghost predicate Describes(run: Run, tbl: HuffNo, z: ZBlock, al: nat, k: nat, se: Index) {
    match run
    case End => k <= se + 1 && Vanish(z, al, k, se + 1)
                && FirstItems(tbl, z, al, k, se, 0) == BandItems([], if k <= se then Some([]) else None)
    case Zeros16 => k + 16 <= se && Vanish(z, al, k, k + 16)
                    && FirstItems(tbl, z, al, k, se, 0)
                         == Before([AcSym(tbl, 0xF0)], FirstItems(tbl, z, al, k + 16, se, 0))
    case Coefficient(n) =>
      n <= 15 && k + n <= se && Vanish(z, al, k, k + n) && Trunc(z[k + n], al) != 0
      && FirstItems(tbl, z, al, k, se, 0)
           == CoefficientFirst(tbl, n, z[k + n], al, FirstItems(tbl, z, al, k + n + 1, se, 0))
  }

  lemma {:induction false} NextRunFinds(tbl: HuffNo, z: ZBlock, al: nat, k: nat, i: nat, se: Index)
    requires k <= i <= se + 1 && Vanish(z, al, k, i)
    ensures Describes(NextRun(z, al, i, se, i - k), tbl, z, al, k, se)
    decreases se + 1 - i
  {
    if i > se {
      FirstSkips(tbl, z, al, k, i, se, 0);
    } else if Trunc(z[i], al) == 0 {
      NextRunFinds(tbl, z, al, k, i + 1, se);
    } else if i - k < 16 {
      CoefficientFinds(tbl, z, al, k, i, se);
    } else {
      ZerosFind(tbl, z, al, k, i, se);
    }
  }

  lemma CoefficientFinds(tbl: HuffNo, z: ZBlock, al: nat, k: nat, i: nat, se: Index)
    requires k <= i <= se && Vanish(z, al, k, i) && Trunc(z[i], al) != 0 && i - k < 16
    ensures Describes(Coefficient(i - k), tbl, z, al, k, se)
  {
    FirstSkips(tbl, z, al, k, i, se, 0);
    CoefLen(z[i], al);
    OneRun(tbl, i - k, Trunc(z[i], al), FirstItems(tbl, z, al, i + 1, se, 0));
  }

  lemma OneRun(tbl: HuffNo, n: nat, v: int, b: BandItems)
    requires n <= 15 && v != 0 && BitLen(Abs(v)) <= 15
    ensures var len := BitLen(Abs(v));
            len >= 1 && Complement(v, len) >= 0
            && Before(RunItems(tbl, n, v), b) == Before([AcSym(tbl, n * 16 + len), Extra(Complement(v, len), len)], b)
  {
    ShortRun(tbl, n, v);
  }

  lemma ShortRun(tbl: HuffNo, n: nat, v: int)
    requires n <= 15 && v != 0 && BitLen(Abs(v)) <= 15
    ensures var len := BitLen(Abs(v));
            len >= 1 && Complement(v, len) >= 0
            && RunItems(tbl, n, v) == [AcSym(tbl, n * 16 + len), Extra(Complement(v, len), len)]
  {
    ExtendInverts(v);
    assert n % 16 == n && Zrls(tbl, n) == [];
  }

  lemma ZerosFind(tbl: HuffNo, z: ZBlock, al: nat, k: nat, i: nat, se: Index)
    requires k <= i <= se && Vanish(z, al, k, i) && Trunc(z[i], al) != 0 && i - k >= 16
    ensures Describes(Zeros16, tbl, z, al, k, se)
  {
    FirstSkips(tbl, z, al, k, i, se, 0);
    FirstSkips(tbl, z, al, k + 16, i, se, 0);
    CoefLen(z[i], al);
    ZrlFirst(tbl, i - k, Trunc(z[i], al), FirstItems(tbl, z, al, i + 1, se, 0));
  }

  /** A coefficient after n < 16 zeros, and then b. */
  function CoefficientFirst(tbl: HuffNo, n: nat, c: Coef, al: nat, b: BandItems): BandItems
    requires n <= 15 && Trunc(c, al) != 0
  {
    var v := Trunc(c, al);
    CoefLen(c, al);
    var len := BitLen(Abs(v));
    ExtendInverts(v);
    Before([AcSym(tbl, n * 16 + len), Extra(Complement(v, len), len)], b)
  }

  lemma ZrlFirst(tbl: HuffNo, n: nat, v: int, b: BandItems)
    requires n >= 16 && v != 0 && BitLen(Abs(v)) <= 15
    ensures Before(RunItems(tbl, n, v), b) == Before([AcSym(tbl, 0xF0)], Before(RunItems(tbl, n - 16, v), b))
  {
    RunOfZrl(tbl, n, v);
    ItemsAssoc([AcSym(tbl, 0xF0)], RunItems(tbl, n - 16, v), b.body);
  }

  lemma RunOfZrl(tbl: HuffNo, n: nat, v: int)
    requires n >= 16 && v != 0 && BitLen(Abs(v)) <= 15
    ensures RunItems(tbl, n, v) == [AcSym(tbl, 0xF0)] + RunItems(tbl, n - 16, v)
  {
    assert (n - 16) % 16 == n % 16;
    var all, rest := RunItems(tbl, n, v), RunItems(tbl, n - 16, v);
    assert Zrls(tbl, n) == [AcSym(tbl, 0xF0)] + Zrls(tbl, n - 16);
    assert all[|all| - 2..] == rest[|rest| - 2..];
  }

  // ------------------------------------------------------------------ the bits of a band

  lemma OneItem(t: Tables, it: Item, its: seq<Item>, rest: seq<Bit>)
    ensures ItemsBits(t, [it] + its) + rest == ItemBits(t, it) + (ItemsBits(t, its) + rest)
    ensures HaveCodes(t, [it] + its) <==> HasCode(t, it) && HaveCodes(t, its)
  {
    assert ([it] + its)[1..] == its;
  }

  lemma TwoItems(t: Tables, a: Item, b: Item, its: seq<Item>, rest: seq<Bit>)
    ensures ItemsBits(t, [a, b] + its) + rest == ItemBits(t, a) + (ItemBits(t, b) + (ItemsBits(t, its) + rest))
    ensures HaveCodes(t, [a, b] + its) <==> HasCode(t, a) && HasCode(t, b) && HaveCodes(t, its)
  {
    assert [a, b] + its == [a] + ([b] + its);
    OneItem(t, a, [b] + its, rest);
    OneItem(t, b, its, rest);
  }

  /** 16 zeros, and then b: the next symbol is ZRL. */
  lemma ZerosFirstBits(t: Tables, tbl: HuffNo, b: BandItems, rest: seq<Bit>)
    ensures ItemsBits(t, Before([AcSym(tbl, 0xF0)], b).body) + rest
         == CodeBits(t.ac[tbl], 0xF0) + (ItemsBits(t, b.body) + rest)
    ensures HaveCodes(t, Before([AcSym(tbl, 0xF0)], b).body) <==> t.ac[tbl].ehufsi[0xF0] != 0 && HaveCodes(t, b.body)
  {
    OneItem(t, AcSym(tbl, 0xF0), b.body, rest);
  }

  /** A coefficient, and then b: its symbol and its extra bits. */
  lemma CoefficientFirstBits(t: Tables, tbl: HuffNo, n: nat, c: Coef, al: nat, b: BandItems, rest: seq<Bit>)
    requires n <= 15 && Trunc(c, al) != 0
    ensures var v := Trunc(c, al);
            var len := BitLen(Abs(v));
            && 1 <= len <= 15 && 0 <= Complement(v, len) < Pow2(len) && Extend(Complement(v, len), len) == v
            && ItemsBits(t, CoefficientFirst(tbl, n, c, al, b).body) + rest
                 == CodeBits(t.ac[tbl], n * 16 + len)
                    + (BitsOf(Complement(v, len), len) + (ItemsBits(t, b.body) + rest))
            && (HaveCodes(t, CoefficientFirst(tbl, n, c, al, b).body)
                <==> t.ac[tbl].ehufsi[n * 16 + len] != 0 && HaveCodes(t, b.body))
  {
    var v := Trunc(c, al);
    var len := BitLen(Abs(v));
    CoefLen(c, al);
    ExtendInverts(v);
    TwoItems(t, AcSym(tbl, n * 16 + len), Extra(Complement(v, len), len), b.body, rest);
  }

  // ------------------------------------------------------------------ the progress of a band

  /** A band to be decoded: its items come in the order of z with the tables t; `rest` are the bits
      behind its body; if the body does not reach the end of the band (`hasEob`), they begin with the
      symbol eobSym; `was` is what the block held before. */
  datatype BandTask = BandTask(t: Tables, tbl: HuffNo, sc: Scan, z: ZBlock, al: nat, a: nat, se: Index, was: seq<Jcoef>,
                               rest: seq<Bit>, hasEob: bool, eobSym: Byte, eobRest: seq<Bit>)
  {
    function Table(): CTable {
      t.ac[tbl]
    }

    /** What follows the band. */
    function Behind(): seq<Bit> {
      if hasEob then eobRest else rest
    }

    predicate Fits() {
      |was| == 64 && 1 <= a <= se + 1 && se <= sc.limSe
    }
  }

  /** A band of no interest. */
  function AnyTask(): BandTask {
    BandTask(TableSet(seq(4, _ => CTable(seq(256, _ => 0), seq(256, _ => 0))),
                      seq(4, _ => CTable(seq(256, _ => 0), seq(256, _ => 0)))), 0,
             ScanInfo(false, 0, 0, 0, 0, 0, 0, [], [0, 0, 0, 0], [0, 0, 0, 0], seq(16, _ => 0), seq(16, _ => 0),
                      seq(16, _ => 0), [0], 0),
             seq(64, _ => 0), 0, 1, 0, seq(64, _ => 0), [], false, 0, [])
  }

  type Task = x: BandTask | x.Fits()
    witness AnyTask()

  ghost predicate EndsBand(x: Task) {
    x.hasEob && x.Table().ehufsi[x.eobSym] != 0 && x.rest == CodeBits(x.Table(), x.eobSym) + x.eobRest
  }

  /** The places of a band still hold zeros, apart from coefficients that are there already: a call
      that was suspended may have left them. */
  ghost predicate Partly(sc: Scan, z: ZBlock, al: nat, block: seq<Jcoef>, a: nat, n: nat) {
    && |block| == 64 && n <= sc.limSe
    && forall i :: a < i <= n ==> block[sc.order[i]] == 0 || block[sc.order[i]] == ToJcoef(AcKept(z[i], al))
  }

  lemma PartlyVacant(sc: Scan, z: ZBlock, al: nat, block: seq<Jcoef>, a: nat, k: nat, n: nat)
    requires Partly(sc, z, al, block, a, n) && a <= k && Vanish(z, al, k + 1, n + 1)
    ensures Vacant(sc, block, k, n)
  {
    ShiftFacts(0, al);
  }

  /** Whatever part of the band has been decoded, the rest can still be. */
  lemma PlacedPartly(sc: Scan, z: ZBlock, al: nat, was: seq<Jcoef>, a: nat, n: nat, k: nat)
    requires 1 <= a <= n + 1 && k <= n && sc.Injective() && Partly(sc, z, al, was, a - 1, n)
    ensures Partly(sc, z, al, Placed(sc, z, al, was, a, k), a - 1, n)
    ensures Placed(sc, z, al, Placed(sc, z, al, was, a, k), a, n) == Placed(sc, z, al, was, a, n)
  {
    var after := Placed(sc, z, al, was, a, k);
    forall i | a - 1 < i <= n
      ensures after[sc.order[i]] == 0 || after[sc.order[i]] == ToJcoef(AcKept(z[i], al))
    {
      PlacedAt(sc, z, al, was, a, k, i);
    }
    PlacedTwice(sc, z, al, was, a, k, n);
  }

  lemma {:induction false} PlacedAt(sc: Scan, z: ZBlock, al: nat, was: seq<Jcoef>, a: nat, k: nat, i: nat)
    requires |was| == 64 && k <= sc.limSe && 1 <= a <= i <= sc.limSe && sc.Injective()
    ensures Placed(sc, z, al, was, a, k)[sc.order[i]]
         == if i <= k then ToJcoef(AcKept(z[i], al)) else was[sc.order[i]]
    decreases k
  {
    if a <= k {
      if i < k {
        assert sc.order[i] != sc.order[k];
      }
      PlacedAt(sc, z, al, was, a, k - 1, i);
      if k < i {
        assert sc.order[k] != sc.order[i];
      }
    }
  }

  /** Placing the same coefficients again changes nothing. */
  lemma PlacedTwice(sc: Scan, z: ZBlock, al: nat, was: seq<Jcoef>, a: nat, k: nat, n: nat)
    requires |was| == 64 && k <= n <= sc.limSe && 1 <= a && sc.Injective()
    ensures Placed(sc, z, al, Placed(sc, z, al, was, a, k), a, n) == Placed(sc, z, al, was, a, n)
  {
    var once, twice := Placed(sc, z, al, was, a, n), Placed(sc, z, al, Placed(sc, z, al, was, a, k), a, n);
    forall j: Index
      ensures once[j] == twice[j]
    {
      if i :| a <= i <= n && sc.order[i] == j {
        PlacedAt(sc, z, al, was, a, n, i);
        PlacedAt(sc, z, al, Placed(sc, z, al, was, a, k), a, n, i);
      } else {
        PlacedElsewhere(sc, z, al, was, a, n, j);
        PlacedElsewhere(sc, z, al, was, a, k, j);
        PlacedElsewhere(sc, z, al, Placed(sc, z, al, was, a, k), a, n, j);
      }
    }
  }

  /** The coefficients before k have been decoded into the block, and `bits` come next. */
  ghost predicate DecodedToNow(x: Task, k: nat, bits: seq<Bit>, content: seq<Jcoef>, n: nat) {
    && n == 64 && x.sc.Injective() && Partly(x.sc, x.z, x.al, x.was, x.a - 1, x.se)
    && x.a <= k <= x.se + 1 && content == Placed(x.sc, x.z, x.al, x.was, x.a, k - 1)
    && var b := FirstItems(x.tbl, x.z, x.al, k, x.se, 0);
       && bits == ItemsBits(x.t, b.body) + x.rest && HaveCodes(x.t, b.body)
       && b.tail.Some? == x.hasEob && (x.hasEob ==> EndsBand(x))
  }

  /** The same, unfolded only by the lemmas below. */
  ghost predicate DecodedTo(x: Task, k: nat, bits: seq<Bit>, content: seq<Jcoef>) {
    forall n {:trigger DecodedToNow(x, k, bits, content, n)} :: n == 64 ==> DecodedToNow(x, k, bits, content, n)
  }

  lemma BandStarts(x: Task)
    requires x.sc.Injective() && Partly(x.sc, x.z, x.al, x.was, x.a - 1, x.se)
    requires var b := FirstItems(x.tbl, x.z, x.al, x.a, x.se, 0);
             HaveCodes(x.t, b.body) && b.tail.Some? == x.hasEob && (x.hasEob ==> EndsBand(x))
    ensures DecodedTo(x, x.a, ItemsBits(x.t, FirstItems(x.tbl, x.z, x.al, x.a, x.se, 0).body) + x.rest, x.was)
  {
    var bits := ItemsBits(x.t, FirstItems(x.tbl, x.z, x.al, x.a, x.se, 0).body) + x.rest;
    assert DecodedToNow(x, x.a, bits, x.was, 64);
  }

  lemma BandComplete(x: Task, k: nat, bits: seq<Bit>, content: seq<Jcoef>)
    requires DecodedTo(x, k, bits, content) && k > x.se
    ensures k == x.se + 1 && content == Placed(x.sc, x.z, x.al, x.was, x.a, x.se) && !x.hasEob && bits == x.rest
  {
    assert DecodedToNow(x, k, bits, content, 64);
    assert [] + x.rest == x.rest;
  }

  /** What the next symbol is. */
  ghost function NextIn(x: Task, k: nat): Run {
    NextRun(x.z, x.al, k, x.se, 0)
  }

  lemma NextInFinds(x: Task, k: nat)
    requires k <= x.se
    ensures Describes(NextIn(x, k), x.tbl, x.z, x.al, k, x.se)
  {
    NextRunFinds(x.tbl, x.z, x.al, k, k, x.se);
  }

  /** Vanishing coefficients are not written. */
  lemma VanishPlaced(x: Task, k: nat, m: nat)
    requires x.sc.Injective() && Partly(x.sc, x.z, x.al, x.was, x.a - 1, x.se) && x.a <= k <= m <= x.se + 1
    requires Vanish(x.z, x.al, k, m)
    ensures Placed(x.sc, x.z, x.al, x.was, x.a, m - 1) == Placed(x.sc, x.z, x.al, x.was, x.a, k - 1)
  {
    ZeroRunEnds(x.z, x.al, k - 1, m - 1);
    PartlyVacant(x.sc, x.z, x.al, x.was, x.a - 1, k - 1, m - 1);
    PlacedZeros(x.sc, x.z, x.al, x.was, x.a, k - 1, m - 1);
  }

  lemma NextEnd(x: Task, k: nat, bits: seq<Bit>, content: seq<Jcoef>)
    requires DecodedTo(x, k, bits, content) && k <= x.se && NextIn(x, k).End?
    ensures EndsBand(x) && bits == CodeBits(x.Table(), x.eobSym) + x.eobRest
    ensures content == Placed(x.sc, x.z, x.al, x.was, x.a, x.se)
  {
    assert DecodedToNow(x, k, bits, content, 64);
    NextInFinds(x, k);
    VanishPlaced(x, k, x.se + 1);
    assert [] + x.rest == x.rest;
  }

  lemma NextZeros(x: Task, k: nat, bits: seq<Bit>, content: seq<Jcoef>) returns (bits1: seq<Bit>)
    requires DecodedTo(x, k, bits, content) && k <= x.se && NextIn(x, k).Zeros16?
    ensures x.Table().ehufsi[0xF0] != 0 && bits == CodeBits(x.Table(), 0xF0) + bits1
    ensures k + 16 <= x.se && DecodedTo(x, k + 16, bits1, content)
  {
    assert DecodedToNow(x, k, bits, content, 64);
    NextInFinds(x, k);
    VanishPlaced(x, k, k + 16);
    var b := FirstItems(x.tbl, x.z, x.al, k + 16, x.se, 0);
    bits1 := ItemsBits(x.t, b.body) + x.rest;
    ZerosFirstBits(x.t, x.tbl, b, x.rest);
    assert DecodedToNow(x, k + 16, bits1, content, 64);
  }

  /** The value of the coefficient after n zeros. */
  ghost function ValueAt(x: Task, k: nat): int
    requires k < 64
  {
    Trunc(x.z[k], x.al)
  }

  /** After n zeros comes a coefficient, and after it bits1. */
  ghost predicate CoefficientNext(x: Task, k: nat, n: nat, bits: seq<Bit>, content: seq<Jcoef>, bits1: seq<Bit>) {
    && n <= 15 && k + n <= x.se && |content| == 64
    && var v := ValueAt(x, k + n);
       var len := BitLen(Abs(v));
       && 1 <= len <= 15 && 0 <= Complement(v, len) < Pow2(len) && Extend(Complement(v, len), len) == v
       && x.Table().ehufsi[n * 16 + len] != 0
       && bits == CodeBits(x.Table(), n * 16 + len) + (BitsOf(Complement(v, len), len) + bits1)
       && DecodedTo(x, k + n + 1, bits1, content[x.sc.order[k + n] := ToJcoef(Shift(v, x.al))])
  }

  lemma NextCoefficient(x: Task, k: nat, bits: seq<Bit>, content: seq<Jcoef>) returns (bits1: seq<Bit>)
    requires DecodedTo(x, k, bits, content) && k <= x.se && NextIn(x, k).Coefficient?
    ensures CoefficientNext(x, k, NextIn(x, k).n, bits, content, bits1)
  {
    var n := NextIn(x, k).n;
    bits1 := CoefficientBits(x, k, n, bits, content);
    CoefficientMoves(x, k, n, bits, content);
  }

  lemma CoefficientBits(x: Task, k: nat, n: nat, bits: seq<Bit>, content: seq<Jcoef>) returns (bits1: seq<Bit>)
    requires DecodedTo(x, k, bits, content) && k <= x.se && NextIn(x, k) == Coefficient(n)
    ensures n <= 15 && k + n <= x.se && bits1 == ItemsBits(x.t, FirstItems(x.tbl, x.z, x.al, k + n + 1, x.se, 0).body) + x.rest
    ensures var v := ValueAt(x, k + n);
            var len := BitLen(Abs(v));
            && 1 <= len <= 15 && 0 <= Complement(v, len) < Pow2(len) && Extend(Complement(v, len), len) == v
            && x.Table().ehufsi[n * 16 + len] != 0
            && bits == CodeBits(x.Table(), n * 16 + len) + (BitsOf(Complement(v, len), len) + bits1)
  {
    var b := CoefficientThere(x, k, n, bits, content);
    bits1 := ItemsBits(x.t, b.body) + x.rest;
    CoefficientFirstBits(x.t, x.tbl, n, x.z[k + n], x.al, b, x.rest);
  }

  /** The items that come are those of the coefficient and of the band behind it. */
  lemma CoefficientThere(x: Task, k: nat, n: nat, bits: seq<Bit>, content: seq<Jcoef>) returns (b: BandItems)
    requires DecodedTo(x, k, bits, content) && k <= x.se && NextIn(x, k) == Coefficient(n)
    ensures n <= 15 && k + n <= x.se && Trunc(x.z[k + n], x.al) != 0
    ensures b == FirstItems(x.tbl, x.z, x.al, k + n + 1, x.se, 0)
    ensures var c := CoefficientFirst(x.tbl, n, x.z[k + n], x.al, b);
            bits == ItemsBits(x.t, c.body) + x.rest && HaveCodes(x.t, c.body)
  {
    BandNow(x, k, bits, content);
    NextInFinds(x, k);
    b := FirstItems(x.tbl, x.z, x.al, k + n + 1, x.se, 0);
  }

  lemma CoefficientMoves(x: Task, k: nat, n: nat, bits: seq<Bit>, content: seq<Jcoef>)
    requires DecodedTo(x, k, bits, content) && k <= x.se && NextIn(x, k) == Coefficient(n)
    ensures n <= 15 && k + n <= x.se && |content| == 64
    ensures DecodedTo(x, k + n + 1, ItemsBits(x.t, FirstItems(x.tbl, x.z, x.al, k + n + 1, x.se, 0).body) + x.rest,
                      content[x.sc.order[k + n] := ToJcoef(Shift(ValueAt(x, k + n), x.al))])
  {
    BandNow(x, k, bits, content);
    NextInFinds(x, k);
    ZerosPlaced(x, k, k + n, bits, content);
    var b := FirstItems(x.tbl, x.z, x.al, k + n + 1, x.se, 0);
    CoefficientFirstBits(x.t, x.tbl, n, x.z[k + n], x.al, b, x.rest);
    PastCoefficient(x, k, n, bits, content, b);
  }

  /** The zeros of a run leave the block as it is. */
  lemma ZerosPlaced(x: Task, k: nat, m: nat, bits: seq<Bit>, content: seq<Jcoef>)
    requires DecodedTo(x, k, bits, content) && k <= m <= x.se && Vanish(x.z, x.al, k, m)
    ensures x.a <= k && content == Placed(x.sc, x.z, x.al, x.was, x.a, m - 1)
  {
    assert DecodedToNow(x, k, bits, content, 64);
    VanishPlaced(x, k, m);
  }

  /** What is known of the bits of a band. */
  lemma BandNow(x: Task, k: nat, bits: seq<Bit>, content: seq<Jcoef>)
    requires DecodedTo(x, k, bits, content)
    ensures x.a <= k && |content| == 64
    ensures var b := FirstItems(x.tbl, x.z, x.al, k, x.se, 0);
            bits == ItemsBits(x.t, b.body) + x.rest && HaveCodes(x.t, b.body)
  {
    assert DecodedToNow(x, k, bits, content, 64);
  }

  lemma PastCoefficient(x: Task, k: nat, n: nat, bits: seq<Bit>, content: seq<Jcoef>, b: BandItems)
    requires DecodedTo(x, k, bits, content) && 1 <= x.a <= k && k + n <= x.se && Trunc(x.z[k + n], x.al) != 0 && n <= 15
    requires content == Placed(x.sc, x.z, x.al, x.was, x.a, k + n - 1)
    requires b == FirstItems(x.tbl, x.z, x.al, k + n + 1, x.se, 0)
    requires FirstItems(x.tbl, x.z, x.al, k, x.se, 0) == CoefficientFirst(x.tbl, n, x.z[k + n], x.al, b)
    requires HaveCodes(x.t, b.body)
    ensures DecodedTo(x, k + n + 1, ItemsBits(x.t, b.body) + x.rest,
                      content[x.sc.order[k + n] := ToJcoef(Shift(ValueAt(x, k + n), x.al))])
  {
    assert DecodedToNow(x, k, bits, content, 64);
    assert DecodedToNow(x, k + n + 1, ItemsBits(x.t, b.body) + x.rest,
                        content[x.sc.order[k + n] := ToJcoef(Shift(ValueAt(x, k + n), x.al))], 64);
  }

  /** The next symbol, as the decoder sees it: its low four bits are 0 for an end of band or 16 zeros,
      and otherwise the number of extra bits, whose value is `value`. */
  ghost predicate Comes(x: Task, k: nat, bits: seq<Bit>, content: seq<Jcoef>, s: Byte, rest: seq<Bit>, value: nat,
                        bits1: seq<Bit>)
  {
    && |content| == 64 && x.Table().ehufsi[s] != 0 && bits == CodeBits(x.Table(), s) + rest
    && if s % 16 != 0 then
         && !NextIn(x, k).End? && value < Pow2(s % 16) && rest == BitsOf(value, s % 16) + bits1 && k + s / 16 <= x.se
         && DecodedTo(x, k + s / 16 + 1, bits1,
                      content[x.sc.order[k + s / 16] := ToJcoef(Shift(Extend(value, s % 16), x.al))])
       else if s == 0xF0 then
         !NextIn(x, k).End? && DecodedTo(x, k + 16, rest, content)
       else
         && NextIn(x, k).End? && s == x.eobSym && rest == x.eobRest && EndsBand(x)
         && content == Placed(x.sc, x.z, x.al, x.was, x.a, x.se)
  }

  lemma NextSymbol(x: Task, k: nat, bits: seq<Bit>, content: seq<Jcoef>)
    returns (s: Byte, rest: seq<Bit>, value: nat, bits1: seq<Bit>)
    requires DecodedTo(x, k, bits, content) && k <= x.se && x.eobSym % 16 == 0 && x.eobSym != 0xF0
    ensures Comes(x, k, bits, content, s, rest, value, bits1)
  {
    match NextIn(x, k) {
      case End =>
        s, rest, value, bits1 := x.eobSym, x.eobRest, 0, [];
        EndComes(x, k, bits, content);
      case Zeros16 =>
        s, value, bits1 := 0xF0, 0, [];
        rest := ZerosCome(x, k, bits, content);
      case Coefficient(_) =>
        s, rest, value, bits1 := CoefficientComes(x, k, bits, content);
    }
  }

  lemma EndComes(x: Task, k: nat, bits: seq<Bit>, content: seq<Jcoef>)
    requires DecodedTo(x, k, bits, content) && k <= x.se && x.eobSym % 16 == 0 && x.eobSym != 0xF0
    requires NextIn(x, k).End?
    ensures Comes(x, k, bits, content, x.eobSym, x.eobRest, 0, [])
  {
    NextEnd(x, k, bits, content);
  }

  lemma ZerosCome(x: Task, k: nat, bits: seq<Bit>, content: seq<Jcoef>) returns (rest: seq<Bit>)
    requires DecodedTo(x, k, bits, content) && k <= x.se && NextIn(x, k).Zeros16?
    ensures Comes(x, k, bits, content, 0xF0, rest, 0, [])
  {
    assert DecodedToNow(x, k, bits, content, 64);
    rest := NextZeros(x, k, bits, content);
  }

  lemma CoefficientComes(x: Task, k: nat, bits: seq<Bit>, content: seq<Jcoef>)
    returns (s: Byte, rest: seq<Bit>, value: nat, bits1: seq<Bit>)
    requires DecodedTo(x, k, bits, content) && k <= x.se && NextIn(x, k).Coefficient?
    ensures Comes(x, k, bits, content, s, rest, value, bits1)
  {
    bits1 := NextCoefficient(x, k, bits, content);
    var n := NextIn(x, k).n;
    var v := ValueAt(x, k + n);
    var len := BitLen(Abs(v));
    value := Complement(v, len);
    rest := BitsOf(value, len) + bits1;
    s := n * 16 + len;
    assert s % 16 == len && s / 16 == n;
  }

  // ------------------------------------------------------------------ DC differences and blocks

  /** The bits of a DC difference. */
  lemma DcBits(t: Tables, tbl: HuffNo, diff: int, rest: seq<Bit>)
    requires Abs(diff) <= 0x8000
    ensures var n := BitLen(Abs(diff));
            && n <= 17 && (HaveCodes(t, DcItems(tbl, diff)) <==> t.dc[tbl].ehufsi[n] != 0)
            && (n == 0 <==> diff == 0)
            && (n != 0 ==> 0 <= Complement(diff, n) < Pow2(n) && Extend(Complement(diff, n), n) == diff)
            && ItemsBits(t, DcItems(tbl, diff)) + rest
                 == CodeBits(t.dc[tbl], n) + (if n == 0 then rest else BitsOf(Complement(diff, n), n) + rest)
  {
    var n := BitLen(Abs(diff));
    Powers();
    BitLenMonotone(Abs(diff), 17);
    if n == 0 {
      assert [DcSym(tbl, n)] + [] == [DcSym(tbl, n)];
      OneItem(t, DcSym(tbl, n), [], rest);
      assert [] + rest == rest;
    } else {
      ExtendInverts(diff);
      DcTwo(t, DcSym(tbl, n), Extra(Complement(diff, n), n), rest);
    }
  }

  lemma DcTwo(t: Tables, a: Item, b: Item, rest: seq<Bit>)
    ensures ItemsBits(t, [a] + [b]) + rest == ItemBits(t, a) + (ItemBits(t, b) + rest)
    ensures HaveCodes(t, [a] + [b]) <==> HasCode(t, a) && HasCode(t, b)
  {
    assert [a] + [b] == [a, b] + [];
    TwoItems(t, a, b, [], rest);
    assert [] + rest == rest;
  }

  /** The bits of the AC coefficients of a sequential block. */
  lemma SequentialBits(t: Tables, tbl: HuffNo, z: ZBlock, se: Index, rest: seq<Bit>)
    ensures var b := FirstItems(tbl, z, 0, 1, se, 0);
            && ItemsBits(t, SequentialAc(tbl, z, se)) + rest
                 == ItemsBits(t, b.body) + (if b.tail.Some? then CodeBits(t.ac[tbl], 0) + rest else rest)
            && (HaveCodes(t, SequentialAc(tbl, z, se))
                <==> HaveCodes(t, b.body) && (b.tail.Some? ==> t.ac[tbl].ehufsi[0] != 0))
  {
    EobBits(t, tbl, FirstItems(tbl, z, 0, 1, se, 0), rest);
  }

  lemma LastItem(t: Tables, its: seq<Item>, it: Item, rest: seq<Bit>)
    ensures ItemsBits(t, its + [it]) + rest == ItemsBits(t, its) + (ItemBits(t, it) + rest)
    ensures HaveCodes(t, its + [it]) <==> HaveCodes(t, its) && HasCode(t, it)
  {
    ItemsBitsConcat(t, its, [it]);
    HaveCodesConcat(t, its, [it]);
    OneItem(t, it, [], rest);
    assert [it] + [] == [it];
    assert [] + rest == rest;
    BitsAssoc(ItemsBits(t, its), ItemsBits(t, [it]), rest);
  }

  lemma BitsAssoc(a: seq<Bit>, b: seq<Bit>, c: seq<Bit>)
    ensures (a + b) + c == a + (b + c)
  {
  }

  lemma EobBits(t: Tables, tbl: HuffNo, b: BandItems, rest: seq<Bit>)
    ensures var its := b.body + if b.tail.Some? then [AcSym(tbl, 0)] else [];
            && ItemsBits(t, its) + rest
                 == ItemsBits(t, b.body) + (if b.tail.Some? then CodeBits(t.ac[tbl], 0) + rest else rest)
            && (HaveCodes(t, its) <==> HaveCodes(t, b.body) && (b.tail.Some? ==> t.ac[tbl].ehufsi[0] != 0))
  {
    if b.tail.Some? {
      LastItem(t, b.body, AcSym(tbl, 0), rest);
    } else {
      assert b.body + [] == b.body;
    }
  }

  /** What a suspended call leaves behind. */
  lemma Interrupted(x: Task, k: nat, bits: seq<Bit>, content: seq<Jcoef>)
    requires DecodedTo(x, k, bits, content)
    ensures Partly(x.sc, x.z, x.al, content, x.a - 1, x.se)
    ensures Placed(x.sc, x.z, x.al, content, x.a, x.se) == Placed(x.sc, x.z, x.al, x.was, x.a, x.se)
  {
    assert DecodedToNow(x, k, bits, content, 64);
    PlacedPartly(x.sc, x.z, x.al, x.was, x.a, x.se, k - 1);
  }
}
