/** The MCU routines of the arithmetic entropy encoder (jcarith.c).  Each of them codes exactly
    the decisions that ArithModel assigns to its blocks. */
module ArithMcuEncoder {
  import opened ArithTable
  import opened ArithCoding
  import opened ArithModel
  import opened PointTransform
  import opened ArithCoderObject

  lemma Assoc(a: seq<Decision>, b: seq<Decision>, c: seq<Decision>)
    ensures (a + b) + c == a + (b + c)
  {
  }

  lemma Assoc2(t: seq<Decision>, d1: Decision, d2: Decision, m: seq<Decision>, rest: seq<Decision>)
    ensures t + [d1] + [d2] + m == t + ([d1, d2] + m)
    ensures t + [d1] + [d2] + m + rest == t + ([d1, d2] + m + rest)
  {
  }

  // ------------------------------------------------------------------ what a scan will send

  /** Where a scan stands: the bytes before the open segment, the statistics at its start, the
      decisions coded in it, the predictions, and the restart counters. */
  datatype Standing = Standing(closed: seq<Byte>, model0: Stats, done: seq<Decision>, p: PredState,
                               togo: nat, num: RestartNum)
  {
    predicate Ok() {
      |p.last| == |p.ctx| == MAX_COMPS_IN_SCAN
    }
  }

  type GoodStanding = s: Standing | s.Ok()
    witness Standing([], FreshStats(JpegAritab()), [], Preds([0, 0, 0, 0], [0, 0, 0, 0]), 0, 0)

  /** What the whole scan will have sent, if the MCUs follow. */
  ghost function Outcome(code: SegmentCoder, sc: Scan, s: GoodStanding, mcus: seq<Mcu>): seq<Byte>
    requires Fit(sc, mcus)
  {
    s.closed + ScanBytes(code, sc, s.model0, s.done, s.p, mcus, s.togo, s.num)
  }

  ghost predicate SendsNow(code: SegmentCoder, sc: Scan, s: GoodStanding, mcus: seq<Mcu>, bytes: seq<Byte>) {
    Fit(sc, mcus) && bytes == Outcome(code, sc, s, mcus)
  }

  /** The same, unfolded only by the lemmas below. */
  ghost predicate Sends(code: SegmentCoder, sc: Scan, s: GoodStanding, mcus: seq<Mcu>, bytes: seq<Byte>) {
    forall b {:trigger SendsNow(code, sc, s, mcus, b)} :: b == bytes ==> SendsNow(code, sc, s, mcus, b)
  }

  lemma SendsLast(code: SegmentCoder, sc: Scan, s: GoodStanding, bytes: seq<Byte>)
    requires Sends(code, sc, s, [], bytes)
    ensures bytes == s.closed + code(s.model0, s.done).0
  {
    assert SendsNow(code, sc, s, [], bytes);
  }

  function WithMcu(sc: Scan, s: GoodStanding, zs: Mcu): GoodStanding
    requires |zs| == |sc.membership|
  {
    Standing(s.closed, s.model0, s.done + McuDecisions(sc, s.p, sc.membership, zs),
             AfterMcu(sc, s.p, sc.membership, zs), CountDown(sc, s.togo), s.num)
  }

  lemma SendsMcu(code: SegmentCoder, sc: Scan, s: GoodStanding, mcus: seq<Mcu>, bytes: seq<Byte>)
    requires mcus != [] && !RestartDue(sc, s.togo) && Sends(code, sc, s, mcus, bytes)
    ensures |mcus[0]| == |sc.membership| && Sends(code, sc, WithMcu(sc, s, mcus[0]), mcus[1..], bytes)
  {
    assert SendsNow(code, sc, s, mcus, bytes);
    McuUnfolds(code, sc, s.closed, s.model0, s.done, s.p, mcus, s.togo, s.num);
  }

  ghost function WithMarker(code: SegmentCoder, sc: Scan, s: GoodStanding): GoodStanding {
    var (segment, st1) := code(s.model0, s.done);
    Standing(s.closed + segment + [0xFF, RST0 + s.num], Cleared(sc, st1), [], RestartPreds(sc, s.p),
             sc.restartInterval, (s.num + 1) % 8)
  }

  lemma SendsMarker(code: SegmentCoder, sc: Scan, s: GoodStanding, mcus: seq<Mcu>, bytes: seq<Byte>)
    requires mcus != [] && RestartDue(sc, s.togo) && Sends(code, sc, s, mcus, bytes)
    ensures Sends(code, sc, WithMarker(code, sc, s), mcus, bytes)
  {
    assert SendsNow(code, sc, s, mcus, bytes);
    RestartUnfolds(code, sc, s.closed, s.model0, s.done, s.p, mcus, s.togo, s.num);
  }

  class McuEncoder {
    const coder: ArithCoder
    var lastDcVal: seq<Coef>
    var dcContext: seq<DcCategoryNo>
    var restartsToGo: nat
    var nextRestartNum: RestartNum

    constructor (coder: ArithCoder)
      ensures this.coder == coder && restartsToGo == nextRestartNum == 0
      ensures Shape() && Predictors() == Preds([0, 0, 0, 0], [0, 0, 0, 0])
    {
      this.coder := coder;
      lastDcVal, dcContext := [0, 0, 0, 0], [0, 0, 0, 0];
      restartsToGo, nextRestartNum := 0, 0;
    }

    ghost function Predictors(): PredState
      reads this
    {
      Preds(lastDcVal, dcContext)
    }

    ghost predicate Shape()
      reads this
    {
      |lastDcVal| == |dcContext| == MAX_COMPS_IN_SCAN
    }

    /** The decisions still to be coded to reach the goal. */
    ghost predicate Owes(todo: seq<Decision>, goal: seq<Decision>)
      reads coder, coder.opening
    {
      coder.Valid() && coder.trace + todo == goal
    }

    method Code(bin: Bin, val: Bit, ghost todo: seq<Decision>, ghost goal: seq<Decision>)
      requires InArea(bin) && todo != [] && todo[0] == Decision(bin, val) && Owes(todo, goal)
      modifies coder
      ensures Owes(todo[1..], goal)
    {
      assert coder.trace + todo == (coder.trace + [todo[0]]) + todo[1..];
      coder.ArithEncode(bin, val);
    }

    /** Figure F.9: while (m >>= 1) arith_encode(st, (m & v) ? 1 : 0), m being 2^n. */
    method EncodeLowBits(bin: Bin, m0: nat, v: nat, ghost n0: nat)
      requires coder.Valid() && InArea(bin) && m0 / 2 == (if n0 == 0 then 0 else Pow2(n0 - 1))
      modifies coder
      ensures coder.Valid() && coder.trace == old(coder.trace) + LowBits(bin, n0, v)
    {
      ghost var goal := coder.trace + LowBits(bin, n0, v);
      ghost var n := n0;
      var m: nat := m0 / 2;
      while m != 0
        invariant m == (if n == 0 then 0 else Pow2(n - 1)) && Owes(LowBits(bin, n, v), goal)
      {
        ShrIsDiv(v, n - 1);
        Code(bin, v / m % 2, LowBits(bin, n, v), goal);
        m := m / 2;
        n := n - 1;
      }
    }

    /** Figure F.8 from X1 on: while (v2 >>= 1) { code 1; m <<= 1; st += 1 } code 0.  Returns
        the last bin used and the doubled m. */
    method EncodeCategory(st0: Bin, v: nat, m0: nat, ghost k0: nat) returns (st: Bin, m: nat)
      requires coder.Valid() && InArea(Plus(st0, Log2(v))) && m0 == Pow2(k0)
      modifies coder
      ensures coder.Valid() && coder.trace == old(coder.trace) + Category(st0, v)
      ensures st == Plus(st0, Log2(v)) && m == Pow2(k0 + Log2(v))
    {
      ghost var goal := coder.trace + Category(st0, v);
      var v2: nat := v;
      ghost var k: nat := k0;
      st, m := st0, m0;
      while v2 / 2 != 0
        invariant Owes(Category(st, v2), goal)
        invariant Plus(st, Log2(v2)) == Plus(st0, Log2(v))
        invariant m == Pow2(k) && k + Log2(v2) == k0 + Log2(v)
        decreases v2
      {
        Code(st, 1, Category(st, v2), goal);
        v2 := v2 / 2;
        m := 2 * m;
        k := k + 1;
        st := Plus(st, 1);
      }
      Code(st, 0, Category(st, v2), goal);
    }

    /** Figure F.8 for a DC difference of magnitude v + 1. */
    method EncodeDcCategory(tbl: nat, st0: nat, v: nat) returns (st: Bin, m: nat)
      requires coder.Valid() && v < 0x8000 && tbl < NUM_ARITH_TBLS && st0 < 20
      modifies coder
      ensures coder.Valid() && coder.trace == old(coder.trace) + DcCategory(tbl, st0, v)
      ensures st == DcLastBin(tbl, st0, v) && m == Leading(v)
    {
      m := 0;
      st := DcBin(tbl, st0);
      SmallLog2(v);
      if v != 0 {
        ghost var t0 := coder.trace;
        coder.ArithEncode(st, 1);
        st, m := EncodeCategory(DcBin(tbl, 20), v, 1, 0);
        Assoc(t0, [DcAt(tbl, st0, 1)], Category(DcBin(tbl, 20), v));
      } else {
        coder.ArithEncode(st, 0);
      }
    }

    /** Section F.1.4.4.1.2: from a small to a zero or large difference category. */
    method ChooseContext(scan: Scan, ci: Component, m: nat)
      requires Shape() && dcContext[ci] <= 8
      modifies this`dcContext
      ensures Shape()
      ensures var tbl := scan.dcTbl[ci];
              dcContext == old(dcContext)[ci := Conditioned(old(dcContext[ci]), m, scan.lower[tbl], scan.upper[tbl])]
    {
      var tbl := scan.dcTbl[ci];
      if m < Pow2(scan.lower[tbl]) / 2 {
        dcContext := dcContext[ci := 0];
      } else if m > Pow2(scan.upper[tbl]) / 2 {
        dcContext := dcContext[ci := dcContext[ci] + 8];
      }
    }

    /** The DC part of encode_mcu and encode_mcu_DC_first: figures F.4 and F.6 to F.9 for the
        value `value` of component ci. */
    method EncodeDc(scan: Scan, ci: Component, value: Coef)
      requires coder.Valid() && Shape()
      modifies coder, this`lastDcVal, this`dcContext
      ensures coder.Valid() && Shape()
      ensures coder.trace == old(coder.trace) + DcPart(scan, old(Predictors()), ci, value)
      ensures Predictors() == AfterDc(scan, old(Predictors()), ci, value)
    {
      var v := value - lastDcVal[ci];
      if v == 0 {
        coder.ArithEncode(DcBin(scan.dcTbl[ci], dcContext[ci]), 0);
        dcContext := dcContext[ci := 0];
      } else {
        lastDcVal := lastDcVal[ci := value];
        EncodeNonzeroDc(scan, ci, v);
      }
    }

    method EncodeNonzeroDc(scan: Scan, ci: Component, v: int)
      requires coder.Valid() && Shape() && v != 0 && Abs(v) <= 0x8000
      modifies coder, this`dcContext
      ensures coder.Valid() && Shape()
      ensures coder.trace == old(coder.trace) + DcDecisions(scan.dcTbl[ci], old(dcContext[ci]), v)
      ensures dcContext == old(dcContext)[ci :=
                DcContext(v, scan.lower[scan.dcTbl[ci]], scan.upper[scan.dcTbl[ci]])]
    {
      var tbl := scan.dcTbl[ci];
      var w: nat := Abs(v) - 1;
      ghost var t0, ctx := coder.trace, dcContext[ci];
      ghost var signs := DcSigns(tbl, ctx, v);
      var st := EncodeSign(scan, ci, v);
      var m := EncodeDcMagnitude(tbl, st, w);
      ChooseContext(scan, ci, m);
      Assoc(t0, signs, DcMagnitude(tbl, st, w));
    }

    method EncodeDcMagnitude(tbl: TblNo, st: nat, w: nat) returns (m: nat)
      requires coder.Valid() && st < 20 && w < 0x8000
      modifies coder
      ensures coder.Valid() && coder.trace == old(coder.trace) + DcMagnitude(tbl, st, w) && m == Leading(w)
    {
      ghost var t0 := coder.trace;
      var last;
      last, m := EncodeDcCategory(tbl, st, w);
      SmallLog2(w);
      EncodeLowBits(Plus(last, 14), m, w, Log2(w));
      Assoc(t0, DcCategory(tbl, st, w), LowBits(Plus(last, 14), Log2(w), w));
    }

    /** Figures F.6 and F.7: the nonzero decision and the sign; returns SP or SN. */
    method EncodeSign(scan: Scan, ci: Component, v: int) returns (st: nat)
      requires coder.Valid() && Shape() && v != 0
      modifies coder, this`dcContext
      ensures coder.Valid() && Shape() && st == (old(dcContext[ci]) as nat) + (if v > 0 then 2 else 3)
      ensures coder.trace == old(coder.trace) + DcSigns(scan.dcTbl[ci], old(dcContext[ci]), v)
      ensures dcContext == old(dcContext)[ci := if v > 0 then 4 else 8]
    {
      var tbl := scan.dcTbl[ci];
      st := dcContext[ci];
      coder.ArithEncode(DcBin(tbl, st), 1);
      if v > 0 {
        coder.ArithEncode(DcBin(tbl, st + 1), 0);
        st := st + 2;
        dcContext := dcContext[ci := 4];
      } else {
        coder.ArithEncode(DcBin(tbl, st + 1), 1);
        st := st + 3;
        dcContext := dcContext[ci := 8];
      }
    }

    // ---------------------------------------------------------------- AC coefficients

    /** Figures F.8 and F.9 for an AC coefficient of magnitude w + 1 at index k. */
    method EncodeAcMagnitude(tbl: nat, st0: nat, k: nat, kx: nat, w: nat)
      requires coder.Valid() && tbl < NUM_ARITH_TBLS && st0 < 189 && w < 0x8000
      modifies coder
      ensures coder.Valid() && coder.trace == old(coder.trace) + AcMagnitude(tbl, st0, k, kx, w)
    {
      ghost var t0 := coder.trace;
      var last, m := EncodeAcCategory(tbl, st0, k, kx, w);
      SmallLog2(w / 2);
      EncodeLowBits(Plus(last, 14), m, w, Log2(w));
      Assoc(t0, AcCategory(tbl, st0, k, kx, w), LowBits(Plus(last, 14), Log2(w), w));
    }

    method EncodeAcCategory(tbl: nat, st0: nat, k: nat, kx: nat, w: nat) returns (st: Bin, m: nat)
      requires coder.Valid() && tbl < NUM_ARITH_TBLS && st0 < 189 && w < 0x8000
      modifies coder
      ensures coder.Valid() && coder.trace == old(coder.trace) + AcCategory(tbl, st0, k, kx, w)
      ensures st == AcLastBin(tbl, st0, k, kx, w) && m == Leading(w)
    {
      st, m := AcBin(tbl, st0), 0;
      ghost var t0 := coder.trace;
      if w != 0 {
        coder.ArithEncode(st, 1);
        m := 1;
        if w / 2 != 0 {
          coder.ArithEncode(st, 1);
          m := 2 * m;
          st := AcBin(tbl, if k <= kx then 189 else 217);
          SmallLog2(w);
          Assoc2(t0, AcAt(tbl, st0, 1), AcAt(tbl, st0, 1), Category(st, w / 2), []);
          st, m := EncodeCategory(st, w / 2, m, 1);
          return;
        }
      }
      coder.ArithEncode(st, 0);
    }

    /** The search for the end of the block: the loop over ke in the three AC routines. */
    method FindEndOfBlock(scan: Scan, block: array<Coef>, from: nat, al: nat) returns (ke: nat)
      requires block.Length == 64 && from <= scan.limSe
      ensures ke <= from && ke == EndOfBlock(ZigZag(scan, block[..]), from, al)
    {
      ghost var z := ZigZag(scan, block[..]);
      ke := from;
      while ke > 0 && Shr(Abs(block[scan.order[ke]]), al) == 0
        invariant ke <= from && EndOfBlock(z, ke, al) == EndOfBlock(z, from, al)
      {
        ke := ke - 1;
      }
    }

    /** Figure F.5, as coded in encode_mcu and encode_mcu_AC_first, for the band ss..b.se. */
    method EncodeAcBand(b: Band, scan: Scan, block: array<Coef>, ss: nat)
      requires coder.Valid() && block.Length == 64 && 1 <= ss <= b.se <= scan.limSe
      modifies coder
      ensures coder.Valid()
      ensures var z := ZigZag(scan, old(block[..]));
              coder.trace == old(coder.trace) + AcPart(b, z, ss)
    {
      ghost var z := ZigZag(scan, block[..]);
      var ke := FindEndOfBlock(scan, block, b.se, b.al);
      ghost var goal := coder.trace + AcDecisions(b, z, ss - 1, true, ke);
      var k: nat := ss - 1;
      while k < ke
        invariant Owes(AcDecisions(b, z, k, true, ke), goal)
        decreases ke - k
      {
        Code(AcBin(b.tbl, 3 * k), 0, AcDecisions(b, z, k, true, ke), goal);
        k := EncodeRun(b, scan, block, k, ke, z, goal);
      }
      if k < b.se {
        Code(AcBin(b.tbl, 3 * k), 1, AcDecisions(b, z, k, true, ke), goal);
      }
    }

    /** The inner loop: the zeros after index k0 and the coefficient that ends them. */
    method EncodeRun(b: Band, scan: Scan, block: array<Coef>, k0: nat, ke: nat,
                     ghost z: ZBlock, ghost goal: seq<Decision>) returns (k: nat)
      requires block.Length == 64 && b.se <= scan.limSe
      requires z == ZigZag(scan, block[..]) && k0 < ke <= b.se && Trunc(z[ke], b.al) != 0
      requires Owes(AcDecisions(b, z, k0, false, ke), goal)
      modifies coder
      ensures k0 < k <= ke && Owes(AcDecisions(b, z, k, true, ke), goal)
    {
      k := EncodeZeros(b, scan, block, k0, ke, z, goal);
      var v := Trunc(block[scan.order[k + 1]], b.al);
      TruncShrinks(z[k + 1], b.al);
      Owed(CoefDecisions(b, k, v), AcDecisions(b, z, k + 1, true, ke), goal);
      EncodeCoefficient(b, k, v);
      k := k + 1;
    }

    method EncodeZeros(b: Band, scan: Scan, block: array<Coef>, k0: nat, ghost ke: nat,
                       ghost z: ZBlock, ghost goal: seq<Decision>) returns (k: nat)
      requires block.Length == 64 && b.se <= scan.limSe
      requires z == ZigZag(scan, block[..]) && k0 < ke <= b.se && Trunc(z[ke], b.al) != 0
      requires Owes(AcDecisions(b, z, k0, false, ke), goal)
      modifies coder
      ensures k0 <= k < ke && Trunc(z[k + 1], b.al) != 0 && Owes(AcDecisions(b, z, k, false, ke), goal)
    {
      k := k0;
      while Trunc(block[scan.order[k + 1]], b.al) == 0
        invariant k0 <= k < ke && Owes(AcDecisions(b, z, k, false, ke), goal)
        decreases ke - k
      {
        EncodeZero(b, k, ke, z, goal);
        k := k + 1;
      }
    }

    method EncodeZero(b: Band, k: nat, ghost ke: nat, ghost z: ZBlock, ghost goal: seq<Decision>)
      requires k < ke <= b.se && Trunc(z[k + 1], b.al) == 0 && Owes(AcDecisions(b, z, k, false, ke), goal)
      modifies coder
      ensures Owes(AcDecisions(b, z, k + 1, false, ke), goal)
    {
      Code(AcBin(b.tbl, 3 * k + 1), 0, AcDecisions(b, z, k, false, ke), goal);
    }

    /** What is left after a part has been coded. */
    lemma Owed(part: seq<Decision>, rest: seq<Decision>, goal: seq<Decision>)
      requires Owes(part + rest, goal)
      ensures (coder.trace + part) + rest == goal
    {
    }

    /** The coefficient v after index k, which is not zero. */
    method EncodeCoefficient(b: Band, k: nat, v: int)
      requires coder.Valid() && k < 63 && v != 0 && Abs(v) <= 0x8000
      modifies coder
      ensures coder.Valid() && coder.trace == old(coder.trace) + CoefDecisions(b, k, v)
    {
      ghost var t0 := coder.trace;
      coder.ArithEncode(AcBin(b.tbl, 3 * k + 1), 1);
      coder.ArithEncode(FixedBin, if v > 0 then 0 else 1);
      EncodeAcMagnitude(b.tbl, 3 * k + 2, k + 1, b.kx, Abs(v) - 1);
      Assoc2(t0, AcAt(b.tbl, 3 * k + 1, 1), Decision(FixedBin, if v > 0 then 0 else 1),
             AcMagnitude(b.tbl, 3 * k + 2, k + 1, b.kx, Abs(v) - 1), []);
    }

    // ---------------------------------------------------------------- refinement

    /** Figure G.10, encode_mcu_AC_refine. */
    method EncodeRefineBand(b: Band, ah: nat, scan: Scan, block: array<Coef>, ss: nat)
      requires coder.Valid() && block.Length == 64 && 1 <= ss <= b.se <= scan.limSe
      modifies coder
      ensures coder.Valid()
      ensures var z := ZigZag(scan, old(block[..]));
              coder.trace == old(coder.trace) + RefinePart(b, z, ss, ah)
    {
      ghost var z := ZigZag(scan, block[..]);
      var ke := FindEndOfBlock(scan, block, b.se, b.al);
      var kex := FindEndOfBlock(scan, block, ke, ah);
      ghost var goal := coder.trace + RefineDecisions(b, z, ss - 1, true, kex, ke);
      var k: nat := ss - 1;
      while k < ke
        invariant Owes(RefineDecisions(b, z, k, true, kex, ke), goal)
        decreases ke - k
      {
        EncodeNotEob(b, k, kex, ke, z, goal);
        k := EncodeRefineRun(b, scan, block, k, kex, ke, z, goal);
      }
      if k < b.se {
        Code(AcBin(b.tbl, 3 * k), 1, RefineDecisions(b, z, k, true, kex, ke), goal);
      }
    }

    method EncodeNotEob(b: Band, k: nat, kex: nat, ghost ke: nat, ghost z: ZBlock, ghost goal: seq<Decision>)
      requires k < ke <= b.se
      requires Owes(RefineDecisions(b, z, k, true, kex, ke), goal)
      modifies coder
      ensures Owes(RefineDecisions(b, z, k, false, kex, ke), goal)
    {
      if k >= kex {
        Code(AcBin(b.tbl, 3 * k), 0, RefineDecisions(b, z, k, true, kex, ke), goal);
      }
    }

    method EncodeRefineRun(b: Band, scan: Scan, block: array<Coef>, k0: nat, ghost kex: nat, ghost ke: nat,
                           ghost z: ZBlock, ghost goal: seq<Decision>) returns (k: nat)
      requires block.Length == 64 && b.se <= scan.limSe
      requires z == ZigZag(scan, block[..]) && k0 < ke <= b.se && Trunc(z[ke], b.al) != 0
      requires Owes(RefineDecisions(b, z, k0, false, kex, ke), goal)
      modifies coder
      ensures k0 < k <= ke && Owes(RefineDecisions(b, z, k, true, kex, ke), goal)
    {
      k := k0;
      var v := Trunc(block[scan.order[k + 1]], b.al);
      while v == 0
        invariant k0 <= k < ke && v == Trunc(z[k + 1], b.al)
        invariant Owes(RefineDecisions(b, z, k, false, kex, ke), goal)
        decreases ke - k
      {
        EncodeRefineCoef(b, k, v, RefineDecisions(b, z, k + 1, false, kex, ke), goal);
        k := k + 1;
        v := Trunc(block[scan.order[k + 1]], b.al);
      }
      EncodeRefineCoef(b, k, v, RefineDecisions(b, z, k + 1, true, kex, ke), goal);
      k := k + 1;
    }

    method EncodeRefineCoef(b: Band, k: nat, v: int, ghost rest: seq<Decision>, ghost goal: seq<Decision>)
      requires k < 63 && Owes(RefineCoef(b, k, v) + rest, goal)
      modifies coder
      ensures Owes(rest, goal)
    {
      Owed(RefineCoef(b, k, v), rest, goal);
      if v == 0 {
        coder.ArithEncode(AcBin(b.tbl, 3 * k + 1), 0);
      } else if Abs(v) / 2 != 0 {
        coder.ArithEncode(AcBin(b.tbl, 3 * k + 2), Abs(v) % 2);
      } else {
        ghost var t0 := coder.trace;
        coder.ArithEncode(AcBin(b.tbl, 3 * k + 1), 1);
        coder.ArithEncode(FixedBin, if v > 0 then 0 else 1);
        Assoc2(t0, AcAt(b.tbl, 3 * k + 1, 1), Decision(FixedBin, if v > 0 then 0 else 1), [], []);
      }
    }

    // ---------------------------------------------------------------- MCUs

    ghost predicate Valid()
      reads this, coder, coder.opening
    {
      coder.Valid() && Shape()
    }

    /** One block of encode_mcu. */
    method EncodeDcAndAc(scan: Scan, ci: Component, block: array<Coef>)
      requires Valid() && !scan.progressive && block.Length == 64
      modifies coder, this`lastDcVal, this`dcContext
      ensures Valid()
      ensures var z := ZigZag(scan, old(block[..]));
              && coder.trace == old(coder.trace)
                   + (DcPart(scan, old(Predictors()), ci, z[0]) +
                      (if scan.limSe == 0 then [] else AcPart(BandOf(scan, ci), z, 1)))
              && Predictors() == AfterDc(scan, old(Predictors()), ci, z[0])
    {
      ghost var z := ZigZag(scan, block[..]);
      ghost var t0, dc := coder.trace, DcPart(scan, Predictors(), ci, z[0]);
      EncodeDc(scan, ci, block[0]);
      if scan.limSe != 0 {
        EncodeAcBand(BandOf(scan, ci), scan, block, 1);
        Assoc(t0, dc, AcPart(BandOf(scan, ci), z, 1));
      }
    }

    /** The body of the block loop of the five MCU routines. */
    method EncodeBlock(scan: Scan, ci: Component, block: array<Coef>)
      requires Valid() && block.Length == 64
      modifies coder, this`lastDcVal, this`dcContext
      ensures Valid()
      ensures var z := ZigZag(scan, old(block[..]));
              && coder.trace == old(coder.trace) + BlockDecisions(scan, old(Predictors()), ci, z)
              && Predictors() == AfterBlock(scan, old(Predictors()), ci, z)
    {
      var r := scan.Routine();
      match r {
        case Sequential =>
          EncodeDcAndAc(scan, ci, block);
        case DcFirst =>
          ShrLegal(block[0], scan.al);
          EncodeDc(scan, ci, Shr(block[0], scan.al));
        case AcFirst =>
          EncodeAcBand(BandOf(scan, ci), scan, block, scan.ss);
        case DcRefine =>
          coder.ArithEncode(FixedBin, Shr(block[0], scan.al) % 2);
        case AcRefine =>
          EncodeRefineBand(BandOf(scan, ci), scan.ah, scan, block, scan.ss);
      }
    }

    /** The blocks hold the MCU zs. */
    ghost predicate Shows(scan: Scan, blocks: seq<array<Coef>>, zs: Mcu)
      reads blocks
    {
      && |blocks| == |scan.membership| == |zs|
      && forall j :: 0 <= j < |blocks| ==> blocks[j].Length == 64 && zs[j] == ZigZag(scan, blocks[j][..])
    }

    method EncodeBlocks(scan: Scan, blocks: seq<array<Coef>>, ghost zs: Mcu)
      requires Valid() && Shows(scan, blocks, zs)
      modifies coder, this`lastDcVal, this`dcContext
      ensures Valid()
      ensures coder.trace == old(coder.trace) + McuDecisions(scan, old(Predictors()), scan.membership, zs)
      ensures Predictors() == AfterMcu(scan, old(Predictors()), scan.membership, zs)
    {
      ghost var p0, goal := Predictors(), coder.trace + McuDecisions(scan, Predictors(), scan.membership, zs);
      for blkn := 0 to |blocks|
        invariant Valid() && Shows(scan, blocks, zs)
        invariant Owes(McuDecisions(scan, Predictors(), scan.membership[blkn..], zs[blkn..]), goal)
        invariant AfterMcu(scan, Predictors(), scan.membership[blkn..], zs[blkn..])
               == AfterMcu(scan, p0, scan.membership, zs)
      {
        EncodeBlockAt(scan, blkn, blocks[blkn], zs, goal);
      }
    }

    method EncodeBlockAt(scan: Scan, j: nat, block: array<Coef>, ghost zs: Mcu, ghost goal: seq<Decision>)
      requires Valid() && j < |zs| == |scan.membership| && block.Length == 64 && zs[j] == ZigZag(scan, block[..])
      requires Owes(McuDecisions(scan, Predictors(), scan.membership[j..], zs[j..]), goal)
      modifies coder, this`lastDcVal, this`dcContext
      ensures Valid() && Owes(McuDecisions(scan, Predictors(), scan.membership[j + 1..], zs[j + 1..]), goal)
      ensures AfterMcu(scan, Predictors(), scan.membership[j + 1..], zs[j + 1..])
           == AfterMcu(scan, old(Predictors()), scan.membership[j..], zs[j..])
    {
      ghost var ms, ws := scan.membership[j..], zs[j..];
      assert ms[1..] == scan.membership[j + 1..] && ws[1..] == zs[j + 1..];
      Assoc(coder.trace, BlockDecisions(scan, Predictors(), ms[0], ws[0]),
            McuDecisions(scan, AfterBlock(scan, Predictors(), ms[0], ws[0]), ms[1..], ws[1..]));
      EncodeBlock(scan, scan.membership[j], block);
    }

    ghost function Sending(): Standing
      reads this, coder, coder.opening
    {
      Standing(coder.opening.closed, coder.opening.model0, coder.trace, Predictors(), restartsToGo, nextRestartNum)
    }

    /** If the MCUs follow, the destination will end up as `bytes`. */
    ghost predicate Promises(code: SegmentCoder, scan: Scan, mcus: seq<Mcu>, bytes: seq<Byte>)
      reads this, coder, coder.opening
    {
      Valid() && IsArith(code) && Sends(code, scan, Sending(), mcus, bytes)
    }

    /** emit_restart */
    method EmitRestart(scan: Scan, ghost code: SegmentCoder, ghost mcus: seq<Mcu>, ghost bytes: seq<Byte>)
      requires Promises(code, scan, mcus, bytes) && mcus != [] && RestartDue(scan, restartsToGo)
      modifies coder, coder.opening, this
      ensures Promises(code, scan, mcus, bytes) && !RestartDue(scan, restartsToGo)
    {
      SendsMarker(code, scan, Sending(), mcus, bytes);
      CloseSegment(scan, nextRestartNum, code);
      ResetPredictors(scan);
      restartsToGo := scan.restartInterval;
      nextRestartNum := (nextRestartNum + 1) % 8;
      assert Sending() == WithMarker(code, scan, old(Sending()));
    }

    /** Finishes the segment, writes the marker, and opens the next segment. */
    method CloseSegment(scan: Scan, num: RestartNum, ghost code: SegmentCoder)
      requires coder.Valid() && IsArith(code)
      modifies coder, coder.opening
      ensures coder.Valid() && coder.trace == []
      ensures var (bytes, st1) := code(old(coder.opening.model0), old(coder.trace));
              && coder.opening.closed == old(coder.opening.closed) + bytes + [0xFF, RST0 + num]
              && coder.opening.model0 == Cleared(scan, st1)
    {
      assert coder.RunsOver(coder.trace);
      ghost var closed := ArithSegment(coder.opening.model0, coder.trace);
      coder.FinishPass();
      coder.EmitByte(0xFF);
      coder.EmitByte(RST0 + num);
      coder.ClearAreas(scan);
      coder.Reset();
    }

    method ResetPredictors(scan: Scan)
      requires Shape()
      modifies this`lastDcVal, this`dcContext
      ensures Shape() && Predictors() == RestartPreds(scan, old(Predictors()))
    {
      if CodesDc(scan) {
        for ci := 0 to scan.comps
          invariant Shape()
          invariant forall i :: 0 <= i < 4 ==> lastDcVal[i] == if i < ci then 0 else old(lastDcVal[i])
          invariant forall i :: 0 <= i < 4 ==> dcContext[i] == if i < ci then 0 else old(dcContext[i])
        {
          lastDcVal := lastDcVal[ci := 0];
          dcContext := dcContext[ci := 0];
        }
      }
    }

    /** encode_mcu and its four progressive variants. */
    method EncodeMcu(scan: Scan, blocks: seq<array<Coef>>,
                     ghost code: SegmentCoder, ghost mcus: seq<Mcu>, ghost bytes: seq<Byte>)
      requires mcus != [] && Promises(code, scan, mcus, bytes) && Shows(scan, blocks, mcus[0])
      modifies coder, coder.opening, this
      ensures Promises(code, scan, mcus[1..], bytes)
    {
      if scan.restartInterval != 0 {
        if restartsToGo == 0 {
          EmitRestart(scan, code, mcus, bytes);
        }
      }
      EncodeNextMcu(scan, blocks, code, mcus, bytes);
    }

    /** The rest of those, once no restart marker is due. */
    method EncodeNextMcu(scan: Scan, blocks: seq<array<Coef>>,
                         ghost code: SegmentCoder, ghost mcus: seq<Mcu>, ghost bytes: seq<Byte>)
      requires mcus != [] && Promises(code, scan, mcus, bytes) && Shows(scan, blocks, mcus[0])
      requires !RestartDue(scan, restartsToGo)
      modifies coder, this
      ensures Promises(code, scan, mcus[1..], bytes)
    {
      SendsMcu(code, scan, Sending(), mcus, bytes);
      EncodeBlocks(scan, blocks, mcus[0]);
      if scan.restartInterval != 0 {
        restartsToGo := restartsToGo - 1;
      }
      assert Sending() == WithMcu(scan, old(Sending()), mcus[0]);
    }

    /** start_pass */
    method StartPass(scan: Scan, ghost code: SegmentCoder, ghost mcus: seq<Mcu>) returns (ghost bytes: seq<Byte>)
      requires Valid() && Fit(scan, mcus) && IsArith(code)
      modifies coder, coder.opening, this
      ensures Promises(code, scan, mcus, bytes)
      ensures bytes == old(coder.dest) + ScanBytes(code, scan, Cleared(scan, old(coder.Model())), [],
                RestartPreds(scan, old(Predictors())), mcus, scan.restartInterval, 0)
    {
      coder.ClearAreas(scan);
      ResetPredictors(scan);
      coder.Reset();
      restartsToGo := scan.restartInterval;
      nextRestartNum := 0;
      bytes := Outcome(code, scan, Sending(), mcus);
    }

    /** finish_pass: the promise is kept. */
    method FinishPass(scan: Scan, ghost code: SegmentCoder, ghost bytes: seq<Byte>)
      requires Promises(code, scan, [], bytes)
      modifies coder
      ensures coder.dest == bytes
    {
      SendsLast(code, scan, Sending(), bytes);
      assert coder.RunsOver(coder.trace);
      ghost var closed := ArithSegment(coder.opening.model0, coder.trace);
      coder.FinishPass();
    }
  }
}
