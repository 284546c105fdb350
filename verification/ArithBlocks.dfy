/** What is left of the decisions for a block at each point of its decoding, and what the block
    becomes: the decoder's view of ArithModel. */
module ArithBlocks {
  import opened ArithCoding
  import opened ArithModel
  import opened PointTransform

  /** A JCOEF, a 16-bit integer. */
  type Jcoef = x: int | -0x8000 <= x < 0x8000

  /** The cast to JCOEF. */
  function ToJcoef(x: int): Jcoef {
    (x + 0x8000) % 0x10000 - 0x8000
  }

  lemma SplitHead(a: seq<Decision>, b: seq<Decision>)
    requires a != []
    ensures (a + b)[0] == a[0] && (a + b)[1..] == a[1..] + b
  {
  }

  lemma {:induction false} PowGrows(k: nat, n: nat)
    requires k < n
    ensures Pow2(k) < Pow2(n)
    decreases n
  {
    if k != 0 {
      PowGrows(k - 1, n - 1);
    } else if n > 1 {
      PowGrows(0, n - 1);
    }
  }

  /** What is left of a category after its first decision. */
  ghost function CategoryTail(b: Bin, w: nat, rest: seq<Decision>): seq<Decision> {
    if w / 2 == 0 then rest else Category(Plus(b, 1), w / 2) + rest
  }

  lemma CategoryHead(b: Bin, w: nat, rest: seq<Decision>)
    ensures Category(b, w) + rest == [Decision(b, if w / 2 == 0 then 0 else 1)] + CategoryTail(b, w, rest)
  {
  }

  /** After figure F.23, m holds what DecodeLowBits starts from. */
  lemma {:induction false} LeadingKept(w: nat)
    ensures Leading(w) == DcKept(w, Log2(w)) && (w != 0 ==> Shr(w, Log2(w)) == 1)
    decreases w
  {
    if w / 2 != 0 {
      LeadingKept(w / 2);
    }
    ShiftFacts(1, Log2(w));
  }

  lemma AppendHead(d: Decision, a: seq<Decision>, rest: seq<Decision>)
    ensures ([d] + a) + rest == [d] + (a + rest)
  {
  }

  lemma AppendTwo(d1: Decision, d2: Decision, a: seq<Decision>, rest: seq<Decision>)
    ensures ([d1, d2] + a) + rest == [d1] + ([d2] + (a + rest))
  {
  }

  lemma AppendAll(a: seq<Decision>, b: seq<Decision>, rest: seq<Decision>)
    ensures (a + b) + rest == a + (b + rest)
  {
  }

  /** What is left of a DC difference after its first decision. */
  ghost function DcTail(tbl: nat, ctx: nat, v: int, rest: seq<Decision>): seq<Decision> {
    if v == 0 then rest
    else
      var w, st := Abs(v) - 1, ctx + (if v > 0 then 2 else 3);
      [DcAt(tbl, ctx + 1, if v > 0 then 0 else 1)] + DcMagnitudeTail(tbl, st, w, rest)
  }

  ghost function DcMagnitudeTail(tbl: nat, st: nat, w: nat, rest: seq<Decision>): seq<Decision> {
    DcCategory(tbl, st, w) + (LowBits(Plus(DcLastBin(tbl, st, w), 14), Log2(w), w) + rest)
  }

  lemma DcTailHead(tbl: nat, ctx: nat, v: int, rest: seq<Decision>)
    requires v != 0
    ensures var t := DcTail(tbl, ctx, v, rest);
            && t != [] && t[0] == DcAt(tbl, ctx + 1, if v > 0 then 0 else 1)
            && t[1..] == DcMagnitudeTail(tbl, ctx + (if v > 0 then 2 else 3), Abs(v) - 1, rest)
  {
  }

  lemma DcSplit(tbl: nat, ctx: nat, v: int, rest: seq<Decision>)
    ensures DcDecisions(tbl, ctx, v) + rest == [DcAt(tbl, ctx, if v == 0 then 0 else 1)] + DcTail(tbl, ctx, v, rest)
  {
    if v != 0 {
      var w, st := Abs(v) - 1, ctx + (if v > 0 then 2 else 3);
      AppendTwo(DcAt(tbl, ctx, 1), DcAt(tbl, ctx + 1, if v > 0 then 0 else 1), DcMagnitude(tbl, st, w), rest);
      AppendAll(DcCategory(tbl, st, w), LowBits(Plus(DcLastBin(tbl, st, w), 14), Log2(w), w), rest);
    }
  }

  /** What is left of figure F.5 after the flag of coefficient k + 1. */
  ghost function AfterFlag(b: Band, z: ZBlock, k: nat, ke: nat, rest: seq<Decision>): seq<Decision>
    requires k < ke <= b.se
  {
    var v := Trunc(z[k + 1], b.al);
    if v == 0 then AcDecisions(b, z, k + 1, false, ke) + rest
    else CoefTail(b, k, v, AcDecisions(b, z, k + 1, true, ke) + rest)
  }

  lemma FlagFirst(b: Band, z: ZBlock, k: nat, ke: nat, rest: seq<Decision>)
    requires k < ke <= b.se
    ensures AcDecisions(b, z, k, false, ke) + rest
         == [AcAt(b.tbl, 3 * k + 1, if Trunc(z[k + 1], b.al) == 0 then 0 else 1)] + AfterFlag(b, z, k, ke, rest)
  {
    var v := Trunc(z[k + 1], b.al);
    if v == 0 {
      AppendHead(AcAt(b.tbl, 3 * k + 1, 0), AcDecisions(b, z, k + 1, false, ke), rest);
    } else {
      AppendAll(CoefDecisions(b, k, v), AcDecisions(b, z, k + 1, true, ke), rest);
      CoefSplit(b, k, v, AcDecisions(b, z, k + 1, true, ke) + rest);
    }
  }

  /** The coefficients after index a up to k vanish under the point transform. */
  ghost predicate ZeroRun(z: ZBlock, al: nat, a: nat, k: Index) {
    k <= a || (Trunc(z[k], al) == 0 && ZeroRun(z, al, a, k - 1))
  }

  lemma {:induction false} ZeroRunEnds(z: ZBlock, al: nat, ke: nat, n: Index)
    requires forall i :: ke < i <= n ==> Trunc(z[i], al) == 0
    ensures ZeroRun(z, al, ke, n)
    decreases n
  {
    if ke < n {
      ZeroRunEnds(z, al, ke, n - 1);
    }
  }

  /** What is left of figure F.5 after the end-of-block flag. */
  ghost function AfterEob(b: Band, z: ZBlock, k: nat, ke: nat, rest: seq<Decision>): seq<Decision>
    requires ke <= b.se
  {
    if k >= ke then rest else AcDecisions(b, z, k, false, ke) + rest
  }

  lemma EobFirst(b: Band, z: ZBlock, k: nat, ke: nat, rest: seq<Decision>)
    requires ke <= b.se && k < b.se
    ensures AcDecisions(b, z, k, true, ke) + rest
         == [AcAt(b.tbl, 3 * k, if k >= ke then 1 else 0)] + AfterEob(b, z, k, ke, rest)
  {
    if k < ke {
      AppendHead(AcAt(b.tbl, 3 * k, 0), AcDecisions(b, z, k, false, ke), rest);
    }
  }

  /** What is left of a coefficient after its first decision. */
  ghost function CoefTail(b: Band, k: nat, v: int, rest: seq<Decision>): seq<Decision>
    requires v != 0
  {
    var w, st := Abs(v) - 1, 3 * k + 2;
    [Decision(FixedBin, if v > 0 then 0 else 1)]
    + (AcCategory(b.tbl, st, k + 1, b.kx, w)
       + (LowBits(Plus(AcLastBin(b.tbl, st, k + 1, b.kx, w), 14), Log2(w), w) + rest))
  }

  lemma CoefSplit(b: Band, k: nat, v: int, rest: seq<Decision>)
    requires v != 0
    ensures CoefDecisions(b, k, v) + rest == [AcAt(b.tbl, 3 * k + 1, 1)] + CoefTail(b, k, v, rest)
  {
    var w, st := Abs(v) - 1, 3 * k + 2;
    AppendTwo(AcAt(b.tbl, 3 * k + 1, 1), Decision(FixedBin, if v > 0 then 0 else 1),
              AcMagnitude(b.tbl, st, k + 1, b.kx, w), rest);
    AppendAll(AcCategory(b.tbl, st, k + 1, b.kx, w),
              LowBits(Plus(AcLastBin(b.tbl, st, k + 1, b.kx, w), 14), Log2(w), w), rest);
  }

  /** What is left of the category of an AC coefficient after its first decision. */
  ghost function AcCategoryTail(tbl: nat, st: nat, k: nat, kx: nat, w: nat, rest: seq<Decision>): seq<Decision> {
    if w == 0 then rest
    else if w / 2 == 0 then [AcAt(tbl, st, 0)] + rest
    else [AcAt(tbl, st, 1)] + (Category(AcBin(tbl, if k <= kx then 189 else 217), w / 2) + rest)
  }

  lemma AcCategorySplit(tbl: nat, st: nat, k: nat, kx: nat, w: nat, rest: seq<Decision>)
    ensures AcCategory(tbl, st, k, kx, w) + rest
         == [AcAt(tbl, st, if w == 0 then 0 else 1)] + AcCategoryTail(tbl, st, k, kx, w, rest)
  {
    if w != 0 && w / 2 != 0 {
      AppendTwo(AcAt(tbl, st, 1), AcAt(tbl, st, 1), Category(AcBin(tbl, if k <= kx then 189 else 217), w / 2), rest);
    }
  }

  // ------------------------------------------------------------------ what a block becomes

  /** The coefficients a..n of z, with the low al bits cleared, put in their places. */
  function Placed(sc: Scan, z: ZBlock, al: nat, block: seq<Jcoef>, a: nat, n: nat): (r: seq<Jcoef>)
    requires |block| == 64 && n <= sc.limSe
    ensures |r| == 64
    decreases n
  {
    if n < a || n == 0 then block
    else Placed(sc, z, al, block, a, n - 1)[sc.order[n] := ToJcoef(AcKept(z[n], al))]
  }

  lemma {:induction false} PlacedElsewhere(sc: Scan, z: ZBlock, al: nat, block: seq<Jcoef>, a: nat, n: nat, j: Index)
    requires |block| == 64 && n <= sc.limSe
    requires forall i :: a <= i <= n ==> sc.order[i] != j
    ensures Placed(sc, z, al, block, a, n)[j] == block[j]
    decreases n
  {
    if a <= n && n != 0 {
      PlacedElsewhere(sc, z, al, block, a, n - 1, j);
    }
  }

  /** A place that already holds its coefficient needs no writing. */
  lemma PlacedStays(sc: Scan, z: ZBlock, al: nat, block: seq<Jcoef>, a: nat, n: nat)
    requires |block| == 64 && 1 <= a <= n <= sc.limSe && sc.Injective()
    requires block[sc.order[n]] == ToJcoef(AcKept(z[n], al))
    ensures Placed(sc, z, al, block, a, n) == Placed(sc, z, al, block, a, n - 1)
  {
    PlacedElsewhere(sc, z, al, block, a, n - 1, sc.order[n]);
  }

  /** The places of the coefficients after index a up to n are still zero. */
  ghost predicate Vacant(sc: Scan, block: seq<Jcoef>, a: nat, n: nat)
    requires |block| == 64 && n <= sc.limSe
  {
    forall i :: a < i <= n ==> block[sc.order[i]] == 0
  }

  /** Coefficients that vanish are left as they are. */
  lemma {:induction false} PlacedZeros(sc: Scan, z: ZBlock, al: nat, block: seq<Jcoef>, a: nat, k: nat, n: Index)
    requires |block| == 64 && 1 <= a <= k + 1 && k <= n <= sc.limSe && sc.Injective()
    requires ZeroRun(z, al, k, n) && Vacant(sc, block, k, n)
    ensures Placed(sc, z, al, block, a, n) == Placed(sc, z, al, block, a, k)
    decreases n
  {
    if k < n {
      PlacedZeros(sc, z, al, block, a, k, n - 1);
      ShiftFacts(0, al);
      PlacedStays(sc, z, al, block, a, n);
    }
  }

  /** Nothing is left to place after the end of the block. */
  lemma PlacedRest(b: Band, sc: Scan, z: ZBlock, block: seq<Jcoef>, ss: nat, k: nat)
    requires |block| == 64 && 1 <= ss <= k + 1 && EndOfBlock(z, b.se, b.al) <= k <= b.se <= sc.limSe && sc.Injective()
    requires Vacant(sc, block, ss - 1, b.se)
    ensures Placed(sc, z, b.al, block, ss, b.se) == Placed(sc, z, b.al, block, ss, k)
  {
    ZeroRunEnds(z, b.al, k, b.se);
    PlacedZeros(sc, z, b.al, block, ss, k, b.se);
  }

  /** Every coefficient of the band ends up in its place, and no other place changes. */
  lemma {:induction false} PlacedHolds(sc: Scan, z: ZBlock, al: nat, block: seq<Jcoef>, a: nat, n: nat, i: nat)
    requires |block| == 64 && 1 <= a <= i <= n <= sc.limSe && sc.Injective() && al <= 13
    ensures Placed(sc, z, al, block, a, n)[sc.order[i]] == AcKept(z[i], al)
    decreases n
  {
    if i == n {
      KeptLegal(z[i], al);
    } else {
      PlacedHolds(sc, z, al, block, a, n - 1, i);
    }
  }

  // ------------------------------------------------------------------ refinement

  /** The places of the coefficients after index a up to n hold them with al low bits cleared. */
  ghost predicate Coarse(sc: Scan, z: ZBlock, al: nat, block: seq<Jcoef>, a: nat, n: nat)
    requires |block| == 64 && n <= sc.limSe
  {
    forall i :: a < i <= n ==> block[sc.order[i]] == ToJcoef(AcKept(z[i], al))
  }

  /** The magnitude of a coefficient survives storing: only a vanishing one is stored as 0. */
  lemma StoredNonzero(c: Coef, al: nat)
    requires al <= 14
    ensures ToJcoef(AcKept(c, al)) == AcKept(c, al)
    ensures ToJcoef(AcKept(c, al)) == 0 <==> Trunc(c, al) == 0
  {
    KeptLegal(c, al);
    ShrLegal(Abs(c), al);
    ShiftFacts(Shr(Abs(c), al), al);
  }

  lemma TruncCoarser(c: Coef, al: nat)
    requires Trunc(c, al) == 0
    ensures Trunc(c, al + 1) == 0
  {
    AcNextBit(c, al);
    ShrLegal(Abs(c), al + 1);
  }

  /** Storing the new bit of coefficient c turns the coarser value x into the finer one. */
  lemma RefineBit(c: Coef, al: nat)
    requires al <= 13
    ensures var x, v := ToJcoef(AcKept(c, al + 1)), Trunc(c, al);
            && (x != 0 <==> Abs(v) / 2 != 0)
            && (v == 0 ==> ToJcoef(AcKept(c, al)) == x)
            && (x == 0 && v != 0 ==> ToJcoef(AcKept(c, al)) == ToJcoef(if v > 0 then Pow2(al) else 0 - Pow2(al)))
            && (x != 0 && Abs(v) % 2 == 0 ==> ToJcoef(AcKept(c, al)) == x)
            && (x != 0 && Abs(v) % 2 == 1
                ==> ToJcoef(AcKept(c, al)) == ToJcoef(x + (if x < 0 then 0 - Pow2(al) else Pow2(al))))
  {
    AcNextBit(c, al);
    KeptLegal(c, al + 1);
    KeptLegal(c, al);
  }

  lemma {:induction false} CoarseVacant(sc: Scan, z: ZBlock, al: nat, block: seq<Jcoef>, k: nat, n: Index)
    requires |block| == 64 && n <= sc.limSe && ZeroRun(z, al, k, n) && Coarse(sc, z, al + 1, block, k, n)
    ensures Vacant(sc, block, k, n)
    decreases n
  {
    if k < n {
      CoarseVacant(sc, z, al, block, k, n - 1);
      TruncCoarser(z[n], al);
      ShiftFacts(0, al + 1);
    }
  }

  lemma RefinedRest(b: Band, sc: Scan, z: ZBlock, block: seq<Jcoef>, ss: nat, k: nat)
    requires |block| == 64 && 1 <= ss <= k + 1 && EndOfBlock(z, b.se, b.al) <= k <= b.se <= sc.limSe && sc.Injective()
    requires Coarse(sc, z, b.al + 1, block, ss - 1, b.se)
    ensures Placed(sc, z, b.al, block, ss, b.se) == Placed(sc, z, b.al, block, ss, k)
  {
    ZeroRunEnds(z, b.al, k, b.se);
    CoarseVacant(sc, z, b.al, block, k, b.se);
    PlacedZeros(sc, z, b.al, block, ss, k, b.se);
  }

  /** The decoder's own search for the end of block of the previous stage finds the encoder's, or
      both lie below the band, where the difference does not matter. */
  lemma EndsAgree(b: Band, sc: Scan, z: ZBlock, block: seq<Jcoef>, ss: nat, kex: nat, e: nat)
    requires |block| == 64 && 1 <= ss <= b.se <= sc.limSe && b.al <= 13
    requires Coarse(sc, z, b.al + 1, block, ss - 1, b.se)
    requires kex <= b.se && (kex == 0 || block[sc.order[kex]] != 0) && Vacant(sc, block, kex, b.se)
    requires e == EndOfBlock(z, EndOfBlock(z, b.se, b.al), b.al + 1)
    ensures kex == e || (kex < ss && e < ss)
  {
    if ss <= kex {
      StoredNonzero(z[kex], b.al + 1);
      assert Trunc(z[kex], b.al) != 0 by {
        if Trunc(z[kex], b.al) == 0 {
          TruncCoarser(z[kex], b.al);
        }
      }
      assert kex <= EndOfBlock(z, b.se, b.al);
    }
    if ss <= e {
      StoredNonzero(z[e], b.al + 1);
    }
  }

  /** What is left of figure G.10 after the end-of-block flag. */
  ghost function AfterRefineEob(b: Band, z: ZBlock, k: nat, kex: nat, ke: nat, rest: seq<Decision>): seq<Decision>
    requires ke <= b.se
  {
    if k >= ke then rest else RefineDecisions(b, z, k, false, kex, ke) + rest
  }

  lemma RefineEobFirst(b: Band, z: ZBlock, k: nat, kex: nat, ke: nat, rest: seq<Decision>)
    requires kex <= ke <= b.se && k < b.se
    ensures RefineDecisions(b, z, k, true, kex, ke) + rest
         == if k >= kex then [AcAt(b.tbl, 3 * k, if k >= ke then 1 else 0)] + AfterRefineEob(b, z, k, kex, ke, rest)
            else AfterRefineEob(b, z, k, kex, ke, rest)
  {
    if k < ke {
      var tail := RefineDecisions(b, z, k, false, kex, ke);
      if k >= kex {
        AppendHead(AcAt(b.tbl, 3 * k, 0), tail, rest);
      } else {
        assert [] + tail == tail;
      }
    }
  }

  lemma RefineCoefFirst(b: Band, z: ZBlock, k: nat, kex: nat, ke: nat, rest: seq<Decision>)
    requires k < ke <= b.se
    ensures var v := Trunc(z[k + 1], b.al);
            RefineDecisions(b, z, k, false, kex, ke) + rest
              == RefineCoef(b, k, v) + (RefineDecisions(b, z, k + 1, v != 0, kex, ke) + rest)
  {
    var v := Trunc(z[k + 1], b.al);
    AppendAll(RefineCoef(b, k, v), RefineDecisions(b, z, k + 1, v != 0, kex, ke), rest);
  }

  // ------------------------------------------------------------------ blocks

  /** x |= 1 << al */
  function OrBit(x: Jcoef, al: nat): Jcoef {
    if Shr(x, al) % 2 == 0 then ToJcoef(x + Pow2(al)) else x
  }

  lemma OrBitKept(c: Coef, al: nat)
    requires al <= 13
    ensures -0x8000 <= DcKept(c, al + 1) < 0x8000
    ensures ToJcoef(DcKept(c, al)) == if Shr(c, al) % 2 == 1 then OrBit(DcKept(c, al + 1), al) else DcKept(c, al + 1)
  {
    DcNextBit(c, al);
    KeptLegal(c, al);
    KeptLegal(c, al + 1);
  }

  /** What a scan may find in a block when the blocks decoded so far are right: nothing yet in the
      band of a first pass, and the coefficients without the new bit in a refinement. */
  ghost predicate Primed(sc: Scan, z: ZBlock, block: seq<Jcoef>)
    requires |block| == 64
  {
    match sc.Routine()
    case Sequential => Vacant(sc, block, 0, sc.limSe)
    case DcFirst => true
    case AcFirst => Vacant(sc, block, sc.ss - 1, sc.se)
    case DcRefine => block[0] == DcKept(z[0], sc.al + 1)
    case AcRefine => Coarse(sc, z, sc.al + 1, block, sc.ss - 1, sc.se)
  }

  /** What the scan makes of that block. */
  function Decoded(sc: Scan, z: ZBlock, block: seq<Jcoef>): (r: seq<Jcoef>)
    requires |block| == 64
    ensures |r| == 64
  {
    match sc.Routine()
    case Sequential => Placed(sc, z, 0, block[0 := z[0]], 1, sc.limSe)
    case DcFirst => block[0 := ToJcoef(DcKept(z[0], sc.al))]
    case AcFirst => Placed(sc, z, sc.al, block, sc.ss, sc.se)
    case DcRefine => block[0 := ToJcoef(DcKept(z[0], sc.al))]
    case AcRefine => Placed(sc, z, sc.al, block, sc.ss, sc.se)
  }

  /** Every coefficient of the scan has the value that was coded, at the precision of the scan, and
      nothing else in the block has changed. */
  lemma DecodedMeans(sc: Scan, z: ZBlock, block: seq<Jcoef>)
    requires |block| == 64 && sc.Injective() && Primed(sc, z, block)
    ensures CodesDc(sc) || sc.Routine().DcRefine? ==> Decoded(sc, z, block)[0] == DcKept(z[0], sc.al)
    ensures forall i :: InScan(sc, i) && i != 0 ==> Decoded(sc, z, block)[sc.order[i]] == AcKept(z[i], sc.al)
    ensures forall j: Index :: (forall i :: InScan(sc, i) ==> sc.order[i] != j) ==> Decoded(sc, z, block)[j] == block[j]
  {
    KeptLegal(z[0], sc.al);
    forall i | InScan(sc, i) && i != 0
      ensures Decoded(sc, z, block)[sc.order[i]] == AcKept(z[i], sc.al)
    {
      var start := if sc.progressive then block else block[0 := z[0]];
      PlacedHolds(sc, z, sc.al, start, if sc.progressive then sc.ss else 1, sc.Last(), i);
    }
    forall j: Index | forall i :: InScan(sc, i) ==> sc.order[i] != j
      ensures Decoded(sc, z, block)[j] == block[j]
    {
      if sc.ss == 0 {
        assert InScan(sc, 0);
      }
      if sc.Last() != 0 {
        forall i | (if sc.progressive then sc.ss else 1) <= i <= sc.Last()
          ensures sc.order[i] != j
        {
          assert InScan(sc, i);
        }
        var start := if sc.progressive then block else block[0 := z[0]];
        PlacedElsewhere(sc, z, sc.al, start, if sc.progressive then sc.ss else 1, sc.Last(), j);
      }
    }
    if !sc.progressive && sc.Last() != 0 {
      forall i | 1 <= i <= sc.Last()
        ensures sc.order[i] != 0
      {
        assert sc.order[0] != sc.order[i];
      }
      PlacedElsewhere(sc, z, 0, block[0 := z[0]], 1, sc.Last(), 0);
    }
  }

  /** Index i belongs to the band of the scan. */
  predicate InScan(sc: Scan, i: int) {
    sc.ss <= i <= sc.Last()
  }

  lemma McuHead(sc: Scan, p: Preds, ms: seq<Component>, zs: Mcu, rest: seq<Decision>)
    requires |ms| == |zs| != 0
    ensures var p1 := AfterBlock(sc, p, ms[0], zs[0]);
            && McuDecisions(sc, p, ms, zs) + rest
                 == BlockDecisions(sc, p, ms[0], zs[0]) + (McuDecisions(sc, p1, ms[1..], zs[1..]) + rest)
            && AfterMcu(sc, p, ms, zs) == AfterMcu(sc, p1, ms[1..], zs[1..])
  {
    var p1 := AfterBlock(sc, p, ms[0], zs[0]);
    AppendAll(BlockDecisions(sc, p, ms[0], zs[0]), McuDecisions(sc, p1, ms[1..], zs[1..]), rest);
  }

  ghost predicate DistinctNow(blocks: seq<array<Jcoef>>) {
    && (forall i :: 0 <= i < |blocks| ==> blocks[i].Length == 64)
    && forall i, j :: 0 <= i < j < |blocks| ==> blocks[i] != blocks[j]
  }

  /** Different blocks of an MCU are different arrays (unfolded only on demand). */
  ghost predicate Distinct(blocks: seq<array<Jcoef>>) {
    forall n {:trigger DistinctUpTo(blocks, n)} :: n == |blocks| ==> DistinctUpTo(blocks, n)
  }

  ghost predicate DistinctUpTo(blocks: seq<array<Jcoef>>, n: nat) {
    n <= |blocks| && DistinctNow(blocks[..n])
  }

  /** The blocks hold these values. */
  ghost predicate Hold(blocks: seq<array<Jcoef>>, vals: seq<seq<Jcoef>>)
    reads blocks
  {
    |blocks| == |vals| && forall j :: 0 <= j < |blocks| ==> |vals[j]| == 64 && blocks[j][..] == vals[j]
  }

  ghost predicate AllPrimed(sc: Scan, zs: Mcu, vals: seq<seq<Jcoef>>) {
    |zs| == |vals| && forall j :: 0 <= j < |vals| ==> |vals[j]| == 64 && Primed(sc, zs[j], vals[j])
  }

  /** The blocks of an MCU hold `vals`, and may receive zs (unfolded only on demand). */
  ghost predicate Receives(sc: Scan, blocks: seq<array<Jcoef>>, zs: Mcu, vals: seq<seq<Jcoef>>)
    reads blocks
  {
    forall v {:trigger ReceivesNow(sc, blocks, zs, v)} :: v == vals ==> ReceivesNow(sc, blocks, zs, v)
  }

  ghost predicate ReceivesNow(sc: Scan, blocks: seq<array<Jcoef>>, zs: Mcu, vals: seq<seq<Jcoef>>)
    reads blocks
  {
    Hold(blocks, vals) && AllPrimed(sc, zs, vals)
  }

  /** The blocks of an MCU, which held `vals`, have received zs (unfolded only on demand). */
  ghost predicate Received(sc: Scan, blocks: seq<array<Jcoef>>, zs: Mcu, vals: seq<seq<Jcoef>>)
    reads blocks
  {
    forall v {:trigger ReceivedNow(sc, blocks, zs, v)} :: v == vals ==> ReceivedNow(sc, blocks, zs, v)
  }

  ghost predicate ReceivedNow(sc: Scan, blocks: seq<array<Jcoef>>, zs: Mcu, vals: seq<seq<Jcoef>>)
    reads blocks
  {
    AllPrimed(sc, zs, vals) && Hold(blocks, AllDecoded(sc, zs, vals, |vals|))
  }

  /** The first n blocks decoded. */
  ghost function AllDecoded(sc: Scan, zs: Mcu, vals: seq<seq<Jcoef>>, n: nat): (r: seq<seq<Jcoef>>)
    requires AllPrimed(sc, zs, vals) && n <= |vals|
    ensures |r| == |vals| && forall j :: 0 <= j < |vals| ==> |r[j]| == 64
    ensures forall j :: 0 <= j < |vals| ==> r[j] == if j < n then Decoded(sc, zs[j], vals[j]) else vals[j]
  {
    seq(|vals|, j requires 0 <= j < |vals| => if j < n then Decoded(sc, zs[j], vals[j]) else vals[j])
  }

  lemma Pow15()
    ensures Pow2(15) == 0x8000
  {
    assert Pow2(15) == 2 * Pow2(14) == 8 * Pow2(12) == 32 * Pow2(10) == 128 * Pow2(8) == 512 * Pow2(6)
        == 2048 * Pow2(4) == 8192 * Pow2(2) == 0x8000;
  }

  /** The step of m <<= 1 that reaches the limit 0x8000 is the fifteenth. */
  lemma Doubled(k: nat)
    requires k < 15
    ensures Pow2(k + 1) == 2 * Pow2(k) && (Pow2(k + 1) == 0x8000 <==> k == 14)
  {
    Pow15();
    if k < 14 {
      PowGrows(k + 1, 15);
    }
  }
}
