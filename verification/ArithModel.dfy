/** Which binary decisions stand for a coefficient: the statistical model of sections F.1.4
    and G.1.3 of ITU-T T.81, as the five encode_mcu routines of jcarith.c apply it. */
module ArithModel {
  import opened ArithTable
  import opened ArithCoding
  import opened PointTransform
  import opened Segments

  const RST0 := 0xD0

  /** The legal range of a coefficient, for data of up to 12 bits. */
  type Coef = x: int | -0x4000 <= x < 0x4000

  /** A block in zigzag order. */
  type ZBlock = z: seq<Coef> | |z| == 64 witness seq(64, _ => 0)

  type TblNo = x: nat | x < NUM_ARITH_TBLS

  /** An index into a block. */
  type Index = x: nat | x < 64

  // ------------------------------------------------------------------ magnitudes

  function DcAt(tbl: nat, idx: nat, bit: Bit): Decision {
    Decision(DcBin(tbl, idx), bit)
  }

  function AcAt(tbl: nat, idx: nat, bit: Bit): Decision {
    Decision(AcBin(tbl, idx), bit)
  }

  /** The bin that comes n bytes after b in its area. */
  function Plus(b: Bin, n: nat): Bin {
    match b
    case DcBin(tbl, idx) => DcBin(tbl, idx + n)
    case AcBin(tbl, idx) => AcBin(tbl, idx + n)
    case FixedBin => FixedBin
  }

  /** Figure F.8 from X1 on: one 1 for every further doubling, each with its own bin. */
  function Category(b: Bin, w: nat): seq<Decision>
    decreases w
  {
    if w / 2 == 0 then [Decision(b, 0)] else [Decision(b, 1)] + Category(Plus(b, 1), w / 2)
  }

  lemma SmallLog2(w: nat)
    requires w < 0x8000
    ensures Log2(w) < 15
  {
    assert Pow2(15) == 2 * Pow2(14) == 4 * Pow2(13) == 8 * Pow2(12) == 16 * Pow2(11) == 32 * Pow2(10)
        == 64 * Pow2(9) == 128 * Pow2(8) == 256 * Pow2(7) == 512 * Pow2(6) == 1024 * Pow2(5)
        == 2048 * Pow2(4) == 4096 * Pow2(3) == 8192 * Pow2(2) == 16384 * Pow2(1) == 0x8000;
    Log2Bound(w, 15);
  }

  /** Figure F.9: the n low bits of w, highest first, all with one bin. */
  function LowBits(b: Bin, n: nat, w: nat): seq<Decision>
    decreases n
  {
    if n == 0 then [] else [Decision(b, Shr(w, n - 1) % 2)] + LowBits(b, n - 1, w)
  }

  /** The leading bit of w: the value of m after figure F.8. */
  function Leading(w: nat): nat {
    if w == 0 then 0 else Pow2(Log2(w))
  }

  /** Figure F.8 for a DC difference of magnitude w + 1, st being SP or SN. */
  function DcCategory(tbl: nat, st: nat, w: nat): seq<Decision> {
    if w == 0 then [DcAt(tbl, st, 0)] else [DcAt(tbl, st, 1)] + Category(DcBin(tbl, 20), w)
  }

  /** The last bin used by that. */
  function DcLastBin(tbl: nat, st: nat, w: nat): Bin {
    if w == 0 then DcBin(tbl, st) else DcBin(tbl, 20 + Log2(w))
  }

  function DcMagnitude(tbl: nat, st: nat, w: nat): seq<Decision> {
    DcCategory(tbl, st, w) + LowBits(Plus(DcLastBin(tbl, st, w), 14), Log2(w), w)
  }

  /** Figure F.8 for an AC coefficient of magnitude w + 1 at index k; kx is the conditioning
      threshold. */
  function AcCategory(tbl: nat, st: nat, k: nat, kx: nat, w: nat): seq<Decision> {
    if w == 0 then [AcAt(tbl, st, 0)]
    else if w / 2 == 0 then [AcAt(tbl, st, 1), AcAt(tbl, st, 0)]
    else [AcAt(tbl, st, 1), AcAt(tbl, st, 1)] + Category(AcBin(tbl, if k <= kx then 189 else 217), w / 2)
  }

  function AcLastBin(tbl: nat, st: nat, k: nat, kx: nat, w: nat): Bin {
    if w / 2 == 0 then AcBin(tbl, st) else AcBin(tbl, (if k <= kx then 189 else 217) + Log2(w / 2))
  }

  function AcMagnitude(tbl: nat, st: nat, k: nat, kx: nat, w: nat): seq<Decision> {
    AcCategory(tbl, st, k, kx, w) + LowBits(Plus(AcLastBin(tbl, st, k, kx, w), 14), Log2(w), w)
  }

  // ------------------------------------------------------------------ DC coefficients

  /** Figures F.6 and F.7: a nonzero difference and its sign. */
  function DcSigns(tbl: nat, ctx: nat, v: int): seq<Decision> {
    [DcAt(tbl, ctx, 1), DcAt(tbl, ctx + 1, if v > 0 then 0 else 1)]
  }

  /** Figure F.4: the decisions for a DC difference v in conditioning context ctx. */
  function DcDecisions(tbl: nat, ctx: nat, v: int): seq<Decision> {
    if v == 0 then [DcAt(tbl, ctx, 0)]
    else DcSigns(tbl, ctx, v) + DcMagnitude(tbl, ctx + (if v > 0 then 2 else 3), Abs(v) - 1)
  }

  /** Section F.1.4.4.1.2: the conditioning category of a difference with leading bit m, small
      being the category of its sign. */
  function Conditioned(small: nat, m: nat, lower: nat, upper: nat): nat {
    if m < Pow2(lower) / 2 then 0
    else if m > Pow2(upper) / 2 then small + 8
    else small
  }

  function DcContext(v: int, lower: nat, upper: nat): nat {
    if v == 0 then 0 else Conditioned(if v > 0 then 4 else 8, Leading(Abs(v) - 1), lower, upper)
  }

  // ------------------------------------------------------------------ AC coefficients

  /** The largest index of 1..n whose coefficient survives the point transform, or 0. */
  function EndOfBlock(z: ZBlock, n: nat, al: nat): (e: nat)
    requires n < 64
    ensures e <= n && (e == 0 || Trunc(z[e], al) != 0)
    ensures forall k :: e < k <= n ==> Trunc(z[k], al) == 0
  {
    if n == 0 || Trunc(z[n], al) != 0 then n else EndOfBlock(z, n - 1, al)
  }

  /** A band of a component: its table and conditioning threshold, the last index, and the bit
      position of the scan. */
  datatype Band = Band(tbl: TblNo, kx: nat, se: Index, al: nat)

  /** A coefficient v after index k that is not zero: the decision, the sign, the magnitude. */
  function CoefDecisions(b: Band, k: nat, v: int): seq<Decision>
    requires v != 0
  {
    [AcAt(b.tbl, 3 * k + 1, 1), Decision(FixedBin, if v > 0 then 0 else 1)]
    + AcMagnitude(b.tbl, 3 * k + 2, k + 1, b.kx, Abs(v) - 1)
  }

  /** Figure F.5 from index k on: the decisions for the coefficients k+1..ke and for the end
      of the block; `start` says that k itself was not zero (or that the band starts). */
  function AcDecisions(b: Band, z: ZBlock, k: nat, start: bool, ke: nat): seq<Decision>
    requires ke <= b.se
    decreases ke - k, start
  {
    if k >= ke then
      if k < b.se then [AcAt(b.tbl, 3 * k, 1)] else []
    else if start then
      [AcAt(b.tbl, 3 * k, 0)] + AcDecisions(b, z, k, false, ke)
    else
      var v := Trunc(z[k + 1], b.al);
      if v == 0 then [AcAt(b.tbl, 3 * k + 1, 0)] + AcDecisions(b, z, k + 1, false, ke)
      else CoefDecisions(b, k, v) + AcDecisions(b, z, k + 1, true, ke)
  }

  /** A coefficient v after index k in a refinement scan, v being taken at the new bit. */
  function RefineCoef(b: Band, k: nat, v: int): seq<Decision> {
    if v == 0 then [AcAt(b.tbl, 3 * k + 1, 0)]
    else if Abs(v) / 2 != 0 then [AcAt(b.tbl, 3 * k + 2, Abs(v) % 2)]
    else [AcAt(b.tbl, 3 * k + 1, 1), Decision(FixedBin, if v > 0 then 0 else 1)]
  }

  /** Figure G.10 from index k on; kex is the end of block of the previous stage. */
  function RefineDecisions(b: Band, z: ZBlock, k: nat, start: bool, kex: nat, ke: nat): seq<Decision>
    requires ke <= b.se
    decreases ke - k, start
  {
    if k >= ke then
      if k < b.se then [AcAt(b.tbl, 3 * k, 1)] else []
    else if start then
      (if k >= kex then [AcAt(b.tbl, 3 * k, 0)] else []) + RefineDecisions(b, z, k, false, kex, ke)
    else
      var v := Trunc(z[k + 1], b.al);
      RefineCoef(b, k, v) + RefineDecisions(b, z, k + 1, v != 0, kex, ke)
  }

  // ------------------------------------------------------------------ scans

  datatype Routine = Sequential | DcFirst | AcFirst | DcRefine | AcRefine

  /** The choice of MCU routine in start_pass. */
  function RoutineOf(progressive: bool, ss: nat, ah: nat): Routine {
    if !progressive then Sequential
    else if ah == 0 then (if ss == 0 then DcFirst else AcFirst)
    else (if ss == 0 then DcRefine else AcRefine)
  }

  const MAX_COMPS_IN_SCAN := 4

  type Component = x: nat | x < MAX_COMPS_IN_SCAN

  type DcCategoryNo = x: nat | x <= 16

  /** The parameters of one scan: band and bit positions, the number of components, the
      composition of an MCU, the tables of each component, the conditioning values of each
      table, the coefficient order, and the restart interval. */
  datatype ScanInfo = ScanInfo(progressive: bool, ss: Index, se: Index, ah: nat, al: nat, limSe: Index,
                               comps: nat, membership: seq<Component>, dcTbl: seq<TblNo>, acTbl: seq<TblNo>,
                               lower: seq<nat>, upper: seq<nat>, kx: seq<nat>,
                               order: seq<Index>, restartInterval: nat)
  {
    function Routine(): Routine {
      RoutineOf(progressive, ss, ah)
    }

    /** The last index of the band that the MCU routine codes. */
    function Last(): Index {
      if progressive then se else limSe
    }

    predicate Legal() {
      && comps <= MAX_COMPS_IN_SCAN
      && |dcTbl| == |acTbl| == MAX_COMPS_IN_SCAN
      && |lower| == |upper| == |kx| == NUM_ARITH_TBLS
      && ss <= Last() <= limSe < |order|
      && (progressive ==> (ss == 0 <==> se == 0))
      && (!progressive ==> ss == 0 && ah == 0 && al == 0)
      && (ah != 0 ==> ah == al + 1) && al <= 13
      && (progressive && ss != 0 ==> membership == [0] && comps == 1)
      && order[0] == 0
    }

    /** Different zigzag indices stand for different places of the block. */
    ghost predicate Injective() {
      limSe < |order| && forall i, j :: 0 <= i < j <= limSe ==> order[i] != order[j]
    }
  }

  type Scan = sc: ScanInfo | sc.Legal()
    witness ScanInfo(false, 0, 0, 0, 0, 0, 0, [], [0, 0, 0, 0], [0, 0, 0, 0], seq(16, _ => 0), seq(16, _ => 0),
                     seq(16, _ => 0), [0], 0)

  function BandOf(sc: Scan, ci: Component): Band {
    Band(sc.acTbl[ci], sc.kx[sc.acTbl[ci]], sc.Last(), sc.al)
  }

  /** The coefficients of a block in zigzag order. */
  function ZigZag(sc: Scan, block: seq<Coef>): ZBlock
    requires |block| == 64
  {
    seq(64, i requires 0 <= i < 64 => if i <= sc.limSe then block[sc.order[i]] else 0)
  }

  /** The DC predictions and conditioning contexts of the components in the scan. */
  datatype PredState = Preds(last: seq<Coef>, ctx: seq<DcCategoryNo>)

  type Preds = p: PredState | |p.last| == |p.ctx| == MAX_COMPS_IN_SCAN
    witness Preds([0, 0, 0, 0], [0, 0, 0, 0])

  predicate CodesDc(sc: Scan) {
    sc.Routine().Sequential? || sc.Routine().DcFirst?
  }

  /** The predictions after start_pass and after a restart. */
  function RestartPreds(sc: Scan, p: Preds): Preds {
    if CodesDc(sc) then
      Preds(seq(MAX_COMPS_IN_SCAN, i requires 0 <= i < MAX_COMPS_IN_SCAN => if i < sc.comps then 0 else p.last[i]),
            seq(MAX_COMPS_IN_SCAN, i requires 0 <= i < MAX_COMPS_IN_SCAN => if i < sc.comps then 0 else p.ctx[i]))
    else p
  }

  /** The DC value that is coded: the coefficient after the point transform. */
  function DcValue(sc: Scan, z: ZBlock): Coef {
    ShrLegal(z[0], sc.al);
    if sc.Routine().Sequential? then z[0] else Shr(z[0], sc.al)
  }

  /** The decisions for the DC value of a block of component ci. */
  function DcPart(sc: Scan, p: Preds, ci: Component, m: Coef): seq<Decision> {
    DcDecisions(sc.dcTbl[ci], p.ctx[ci], m - p.last[ci])
  }

  /** The decisions for the band of a block. */
  function AcPart(b: Band, z: ZBlock, ss: nat): seq<Decision>
    requires 1 <= ss
  {
    AcDecisions(b, z, ss - 1, true, EndOfBlock(z, b.se, b.al))
  }

  function RefinePart(b: Band, z: ZBlock, ss: nat, ah: nat): seq<Decision>
    requires 1 <= ss
  {
    var ke := EndOfBlock(z, b.se, b.al);
    RefineDecisions(b, z, ss - 1, true, EndOfBlock(z, ke, ah), ke)
  }

  /** The decisions for a block of component ci. */
  function BlockDecisions(sc: Scan, p: Preds, ci: Component, z: ZBlock): seq<Decision> {
    match sc.Routine()
    case Sequential =>
      DcPart(sc, p, ci, DcValue(sc, z)) + (if sc.limSe == 0 then [] else AcPart(BandOf(sc, ci), z, 1))
    case DcFirst =>
      DcPart(sc, p, ci, DcValue(sc, z))
    case AcFirst =>
      AcPart(BandOf(sc, ci), z, sc.ss)
    case DcRefine =>
      [Decision(FixedBin, Shr(z[0], sc.al) % 2)]
    case AcRefine =>
      RefinePart(BandOf(sc, ci), z, sc.ss, sc.ah)
  }

  function AfterDc(sc: Scan, p: Preds, ci: Component, m: Coef): Preds {
    var tbl := sc.dcTbl[ci];
    Preds(p.last[ci := m], p.ctx[ci := DcContext(m - p.last[ci], sc.lower[tbl], sc.upper[tbl])])
  }

  /** The predictions after that block. */
  function AfterBlock(sc: Scan, p: Preds, ci: Component, z: ZBlock): Preds {
    if CodesDc(sc) then AfterDc(sc, p, ci, DcValue(sc, z)) else p
  }

  // ------------------------------------------------------------------ MCUs

  /** The blocks of one MCU. */
  type Mcu = seq<ZBlock>

  /** The decisions for the blocks of an MCU, of the components ms. */
  function McuDecisions(sc: Scan, p: Preds, ms: seq<Component>, zs: Mcu): seq<Decision>
    requires |zs| == |ms|
    decreases |zs|
  {
    if zs == [] then [] else
      BlockDecisions(sc, p, ms[0], zs[0]) + McuDecisions(sc, AfterBlock(sc, p, ms[0], zs[0]), ms[1..], zs[1..])
  }

  function AfterMcu(sc: Scan, p: Preds, ms: seq<Component>, zs: Mcu): Preds
    requires |zs| == |ms|
    decreases |zs|
  {
    if zs == [] then p else AfterMcu(sc, AfterBlock(sc, p, ms[0], zs[0]), ms[1..], zs[1..])
  }

  /** The statistics areas that a restart zeroes. */
  function Cleared(sc: Scan, st: Stats): Stats {
    Stats(st.tab, map b | b in st.bins && !IsCleared(sc, b) :: st.bins[b])
  }

  predicate IsCleared(sc: Scan, b: Bin) {
    match b
    case DcBin(tbl, _) => CodesDc(sc) && tbl in sc.dcTbl[..sc.comps]
    case AcBin(tbl, _) => sc.Last() != 0 && tbl in sc.acTbl[..sc.comps]
    case FixedBin => false
  }

  // ------------------------------------------------------------------ the bytes of a scan

  /** The MCUs that remain all have the composition of the scan. */
  predicate Fit(sc: Scan, mcus: seq<Mcu>) {
    forall i :: 0 <= i < |mcus| ==> |mcus[i]| == |sc.membership|
  }

  /** A restart marker is due before the next MCU. */
  predicate RestartDue(sc: Scan, togo: nat) {
    sc.restartInterval != 0 && togo == 0
  }

  function CountDown(sc: Scan, togo: nat): nat {
    if sc.restartInterval != 0 && togo > 0 then togo - 1 else togo
  }

  type RestartNum = x: nat | x < 8

  /** How a segment is closed: the bytes that stand for its decisions, and the statistics
      areas at its end. */
  type SegmentCoder = (Stats, seq<Decision>) -> (seq<Byte>, Stats)

  /** The segments of the arithmetic coder. */
  function ArithSegment(st: Stats, ds: seq<Decision>): (seq<Byte>, Stats) {
    var (e1, st1) := SegmentRun(st, ds);
    (Stuff(Finish(e1)), st1)
  }

  /** `code` is that coder; looked up only where ArithSegment is mentioned. */
  ghost predicate IsArith(code: SegmentCoder) {
    forall st, ds {:trigger ArithSegment(st, ds)} :: code(st, ds) == ArithSegment(st, ds)
  }

  /** Everything that is sent from the start of the current segment on: `st` is the state of
      the statistics areas at that start, `done` the decisions already coded in the segment,
      `mcus` the MCUs to come, `togo` and `num` the restart counters. */
  ghost function ScanBytes(code: SegmentCoder, sc: Scan, st: Stats, done: seq<Decision>, p: Preds, mcus: seq<Mcu>,
                           togo: nat, num: RestartNum): seq<Byte>
    requires Fit(sc, mcus)
    decreases |mcus|, if RestartDue(sc, togo) then 1 else 0
  {
    if mcus == [] then
      code(st, done).0
    else if RestartDue(sc, togo) then
      code(st, done).0 + [0xFF, 0xD0 + num] +
      ScanBytes(code, sc, Cleared(sc, code(st, done).1), [], RestartPreds(sc, p), mcus,
                sc.restartInterval, (num + 1) % 8)
    else
      ScanBytes(code, sc, st, done + McuDecisions(sc, p, sc.membership, mcus[0]),
                AfterMcu(sc, p, sc.membership, mcus[0]), mcus[1..], CountDown(sc, togo), num)
  }

  lemma RestartUnfolds(code: SegmentCoder, sc: Scan, closed: seq<Byte>, st: Stats, done: seq<Decision>, p: Preds,
                       mcus: seq<Mcu>, togo: nat, num: RestartNum)
    requires Fit(sc, mcus) && mcus != [] && RestartDue(sc, togo)
    ensures closed + ScanBytes(code, sc, st, done, p, mcus, togo, num)
         == (closed + code(st, done).0 + [0xFF, 0xD0 + num])
            + ScanBytes(code, sc, Cleared(sc, code(st, done).1), [], RestartPreds(sc, p), mcus,
                        sc.restartInterval, (num + 1) % 8)
  {
    BytesAssoc(closed, code(st, done).0, [0xFF, 0xD0 + num],
               ScanBytes(code, sc, Cleared(sc, code(st, done).1), [], RestartPreds(sc, p), mcus,
                         sc.restartInterval, (num + 1) % 8));
  }

  lemma McuUnfolds(code: SegmentCoder, sc: Scan, closed: seq<Byte>, st: Stats, done: seq<Decision>, p: Preds,
                   mcus: seq<Mcu>, togo: nat, num: RestartNum)
    requires Fit(sc, mcus) && mcus != [] && !RestartDue(sc, togo)
    ensures closed + ScanBytes(code, sc, st, done, p, mcus, togo, num)
         == closed + ScanBytes(code, sc, st, done + McuDecisions(sc, p, sc.membership, mcus[0]),
                               AfterMcu(sc, p, sc.membership, mcus[0]), mcus[1..], CountDown(sc, togo), num)
  {
  }

  lemma BytesAssoc(a: seq<Byte>, b: seq<Byte>, c: seq<Byte>, d: seq<Byte>)
    ensures a + (b + c + d) == (a + b + c) + d
  {
  }
}
