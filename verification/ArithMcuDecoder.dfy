/** The MCU routines of the arithmetic entropy decoder (jdarith.c).  They accept any input; when
    the input holds the answers to the decisions that ArithModel assigns to some blocks, they
    rebuild exactly those blocks. */
module ArithMcuDecoder {
  import opened ArithTable
  import opened ArithCoding
  import opened ArithModel
  import opened ArithRoundTrip
  import opened ArithBlocks
  import opened ArithScan
  import opened PointTransform
  import opened ArithDecoderObject

  class McuDecoder {
    const dec: ArithDecoder
    var lastDcVal: seq<int>
    var dcContext: seq<DcCategoryNo>
    var restartsToGo: nat
    var nextRestartNum: RestartNum

    constructor (dec: ArithDecoder)
      ensures this.dec == dec && Shape() && restartsToGo == nextRestartNum == 0
      ensures lastDcVal == [0, 0, 0, 0] && dcContext == [0, 0, 0, 0]
    {
      this.dec := dec;
      lastDcVal, dcContext := [0, 0, 0, 0], [0, 0, 0, 0];
      restartsToGo, nextRestartNum := 0, 0;
    }

    ghost predicate Shape()
      reads this
    {
      |lastDcVal| == |dcContext| == MAX_COMPS_IN_SCAN
    }

    /** Figure F.24: while (m >>= 1) if (arith_decode(st)) v |= m. */
    method DecodeLowBits(bin: Bin, m0: nat, ghost n0: nat, ghost w: nat,
                         ghost on: bool, ghost rest: seq<Decision>, ghost goal: Goal) returns (v: nat)
      requires dec.Running() && InArea(bin) && m0 / 2 == (if n0 == 0 then 0 else Pow2(n0 - 1))
      requires on ==> m0 == DcKept(w, n0) && dec.Follows(LowBits(bin, n0, w) + rest, goal)
      modifies dec
      ensures dec.Running() && (on ==> v == w && dec.Follows(rest, goal))
    {
      ghost var n := n0;
      var m: nat := m0 / 2;
      v := m0;
      while m != 0
        invariant dec.Running() && m == (if n == 0 then 0 else Pow2(n - 1))
        invariant on ==> v == DcKept(w, n) && dec.Follows(LowBits(bin, n, w) + rest, goal)
      {
        SplitHead(LowBits(bin, n, w), rest);
        var bit := dec.ArithDecode(bin, on, LowBits(bin, n, w) + rest, goal);
        DcNextBit(w, n - 1);
        if bit == 1 {
          v := v + m;
        }
        m := m / 2;
        n := n - 1;
      }
      assert [] + rest == rest;
    }

    /** Figure F.23 from X1 on: while (arith_decode(st)) { m <<= 1; fail at 0x8000; st += 1 }. */
    method DecodeCategory(st0: Bin, m0: nat, ghost k0: nat, ghost v0: nat,
                          ghost on: bool, ghost rest: seq<Decision>, ghost goal: Goal)
      returns (ok: bool, st: Bin, m: nat, ghost k: nat)
      requires dec.Running() && InArea(Plus(st0, 28)) && m0 == Pow2(k0) && k0 <= 1
      requires on ==> k0 + Log2(v0) < 15 && dec.Follows(Category(st0, v0) + rest, goal)
      modifies dec
      ensures ok ==> dec.Running() && InArea(Plus(st, 14)) && m == Pow2(k)
      ensures !ok ==> dec.Live() && dec.ct == -1
      ensures on ==> ok && k == k0 + Log2(v0) && st == Plus(st0, Log2(v0)) && dec.Follows(rest, goal)
    {
      ghost var v := v0;
      ok, st, m, k := true, st0, m0, k0;
      CategoryHead(st, v, rest);
      var bit := dec.ArithDecode(st, on, Category(st, v) + rest, goal);
      while bit == 1
        invariant dec.Running() && k0 <= k < 15 && m == Pow2(k) && st == Plus(st0, k - k0)
        invariant on ==> (bit == 1 <==> v / 2 != 0) && k + Log2(v) == k0 + Log2(v0)
        invariant on ==> dec.Follows(CategoryTail(st, v, rest), goal)
        decreases 15 - k
      {
        Doubled(k);
        m := 2 * m;
        k := k + 1;
        if m == 0x8000 {
          dec.Fail();
          ok := false;
          return;
        }
        st := Plus(st, 1);
        v := v / 2;
        CategoryHead(st, v, rest);
        bit := dec.ArithDecode(st, on, Category(st, v) + rest, goal);
      }
    }

    /** Figure F.23 for a DC difference of magnitude w + 1. */
    method DecodeDcCategory(tbl: TblNo, st0: nat, ghost w: nat,
                            ghost on: bool, ghost rest: seq<Decision>, ghost goal: Goal)
      returns (ok: bool, st: Bin, m: nat, ghost n: nat)
      requires dec.Running() && st0 < 20
      requires on ==> w < 0x8000 && dec.Follows(DcCategory(tbl, st0, w) + rest, goal)
      modifies dec
      ensures ok ==> dec.Running() && InArea(Plus(st, 14)) && m / 2 == (if n == 0 then 0 else Pow2(n - 1))
      ensures !ok ==> dec.Live() && dec.ct == -1
      ensures on ==> ok && st == DcLastBin(tbl, st0, w) && n == Log2(w) && m == DcKept(w, n) && dec.Follows(rest, goal)
    {
      ok, st, m, n := true, DcBin(tbl, st0), 0, 0;
      LeadingKept(w);
      var bit := dec.ArithDecode(st, on, DcCategory(tbl, st0, w) + rest, goal);
      if bit == 1 {
        if on {
          SmallLog2(w);
          AppendHead(DcAt(tbl, st0, 1), Category(DcBin(tbl, 20), w), rest);
        }
        ok, st, m, n := DecodeCategory(DcBin(tbl, 20), 1, 0, w, on, rest, goal);
      } else {
        assert on ==> ([DcAt(tbl, st0, 0)] + rest)[1..] == rest;
      }
    }

    /** Section F.1.4.4.1.2: the conditioning category. */
    method ChooseContext(scan: Scan, ci: Component, sign: Bit, m: nat)
      requires Shape()
      modifies this`dcContext
      ensures Shape()
      ensures var tbl := scan.dcTbl[ci];
              dcContext == old(dcContext)[ci := Conditioned(4 + sign * 4, m, scan.lower[tbl], scan.upper[tbl])]
    {
      var tbl := scan.dcTbl[ci];
      if m < Pow2(scan.lower[tbl]) / 2 {
        dcContext := dcContext[ci := 0];
      } else if m > Pow2(scan.upper[tbl]) / 2 {
        dcContext := dcContext[ci := 12 + sign * 4];
      } else {
        dcContext := dcContext[ci := 4 + sign * 4];
      }
    }

    ghost predicate Agrees(p: Preds)
      reads this
    {
      lastDcVal == p.last && dcContext == p.ctx
    }

    /** The DC part of decode_mcu and decode_mcu_DC_first: figures F.19 and F.21 to F.24.  When
        the input codes the value `value`, that is the prediction afterwards. */
    method DecodeDc(scan: Scan, ci: Component, ghost p: Preds, ghost value: Coef,
                    ghost on: bool, ghost rest: seq<Decision>, ghost goal: Goal) returns (ok: bool)
      requires Shape() && dec.Running()
      requires on ==> Agrees(p) && dec.Follows(DcPart(scan, p, ci, value) + rest, goal)
      modifies dec, this`lastDcVal, this`dcContext
      ensures Shape() && (ok ==> dec.Running())
      ensures !ok ==> dec.Live() && dec.ct == -1
      ensures on ==> ok && Agrees(AfterDc(scan, p, ci, value)) && dec.Follows(rest, goal)
    {
      ghost var v := value - p.last[ci];
      var tbl := scan.dcTbl[ci];
      ok := true;
      DcSplit(tbl, p.ctx[ci], v, rest);
      var bit := dec.ArithDecode(DcBin(tbl, dcContext[ci]), on, DcPart(scan, p, ci, value) + rest, goal);
      if bit == 0 {
        dcContext := dcContext[ci := 0];
      } else {
        var diff;
        ok, diff := DecodeNonzeroDc(scan, ci, v, on, rest, goal);
        if ok {
          lastDcVal := lastDcVal[ci := lastDcVal[ci] + diff];
        }
      }
    }

    /** Figure F.21: the sign and the magnitude of a difference that is not zero. */
    method DecodeNonzeroDc(scan: Scan, ci: Component, ghost v: int,
                           ghost on: bool, ghost rest: seq<Decision>, ghost goal: Goal) returns (ok: bool, diff: int)
      requires Shape() && dec.Running()
      requires on ==> v != 0 && Abs(v) <= 0x8000 && dec.Follows(DcTail(scan.dcTbl[ci], dcContext[ci], v, rest), goal)
      modifies dec, this`dcContext
      ensures Shape() && (ok ==> dec.Running())
      ensures !ok ==> dec.Live() && dec.ct == -1
      ensures on ==> ok && diff == v && dec.Follows(rest, goal)
      ensures on ==> dcContext == old(dcContext)[ci :=
                       DcContext(v, scan.lower[scan.dcTbl[ci]], scan.upper[scan.dcTbl[ci]])]
    {
      ghost var w: nat := if v == 0 then 0 else Abs(v) - 1;
      var st: nat := dcContext[ci];
      if on {
        DcTailHead(scan.dcTbl[ci], st, v, rest);
      }
      var sign := dec.ArithDecode(DcBin(scan.dcTbl[ci], st + 1), on,
                                  DcTail(scan.dcTbl[ci], st, v, rest), goal);
      diff := 0;
      var m;
      ok, m := DecodeDcMagnitude(scan, ci, st + 2 + sign, sign, w, on, rest, goal);
      diff := m + 1;
      if sign == 1 {
        diff := 0 - diff;
      }
    }

    /** Figures F.23 and F.24 for a DC difference of magnitude w + 1. */
    method DecodeDcMagnitude(scan: Scan, ci: Component, st0: nat, sign: Bit, ghost w: nat,
                             ghost on: bool, ghost rest: seq<Decision>, ghost goal: Goal) returns (ok: bool, v: nat)
      requires Shape() && dec.Running() && st0 < 20
      requires on ==> w < 0x8000
      requires on ==> dec.Follows(DcMagnitudeTail(scan.dcTbl[ci], st0, w, rest), goal)
      modifies dec, this`dcContext
      ensures Shape() && (ok ==> dec.Running())
      ensures !ok ==> dec.Live() && dec.ct == -1
      ensures on ==> ok && v == w && dec.Follows(rest, goal)
      ensures on ==> var tbl := scan.dcTbl[ci];
                     dcContext == old(dcContext)[ci :=
                       Conditioned(4 + sign * 4, Leading(w), scan.lower[tbl], scan.upper[tbl])]
    {
      ghost var low := LowBits(Plus(DcLastBin(scan.dcTbl[ci], st0, w), 14), Log2(w), w);
      var st, m;
      ghost var n;
      v := 0;
      ok, st, m, n := DecodeDcCategory(scan.dcTbl[ci], st0, w, on, low + rest, goal);
      if !ok {
        return;
      }
      LeadingKept(w);
      ChooseContext(scan, ci, sign, m);
      v := DecodeLowBits(Plus(st, 14), m, n, w, on, rest, goal);
    }

    // ---------------------------------------------------------------- AC coefficients

    /** Figure F.23 for an AC coefficient of magnitude w + 1 at index k. */
    method DecodeAcCategory(b: Band, st0: nat, k: nat, ghost w: nat,
                            ghost on: bool, ghost rest: seq<Decision>, ghost goal: Goal)
      returns (ok: bool, st: Bin, m: nat, ghost n: nat)
      requires dec.Running() && st0 < 189
      requires on ==> w < 0x8000 && dec.Follows(AcCategory(b.tbl, st0, k, b.kx, w) + rest, goal)
      modifies dec
      ensures ok ==> dec.Running() && InArea(Plus(st, 14)) && m / 2 == (if n == 0 then 0 else Pow2(n - 1))
      ensures !ok ==> dec.Live() && dec.ct == -1
      ensures on ==> ok && st == AcLastBin(b.tbl, st0, k, b.kx, w) && n == Log2(w) && m == DcKept(w, n)
                     && dec.Follows(rest, goal)
    {
      ok, st, m, n := true, AcBin(b.tbl, st0), 0, 0;
      LeadingKept(w);
      AcCategorySplit(b.tbl, st0, k, b.kx, w, rest);
      var bit := dec.ArithDecode(st, on, AcCategory(b.tbl, st0, k, b.kx, w) + rest, goal);
      if bit == 1 {
        m := 1;
        bit := dec.ArithDecode(st, on, AcCategoryTail(b.tbl, st0, k, b.kx, w, rest), goal);
        if bit == 1 {
          m := 2 * m;
          SmallLog2(if on then w else 0);
          st := AcBin(b.tbl, if k <= b.kx then 189 else 217);
          ok, st, m, n := DecodeCategory(st, m, 1, w / 2, on, rest, goal);
        }
      }
    }

    /** The sign and the magnitude of a coefficient after index k, known not to be zero. */
    method DecodeCoefficient(b: Band, k: nat, ghost v: int,
                             ghost on: bool, ghost rest: seq<Decision>, ghost goal: Goal) returns (ok: bool, r: int)
      requires dec.Running() && k < 63
      requires on ==> v != 0 && Abs(v) <= 0x8000 && dec.Follows(CoefTail(b, k, v, rest), goal)
      modifies dec
      ensures ok ==> dec.Running()
      ensures !ok ==> dec.Live() && dec.ct == -1
      ensures on ==> ok && r == v && dec.Follows(rest, goal)
    {
      ghost var w: nat := if v == 0 then 0 else Abs(v) - 1;
      ghost var low := LowBits(Plus(AcLastBin(b.tbl, 3 * k + 2, k + 1, b.kx, w), 14), Log2(w), w);
      ghost var category := AcCategory(b.tbl, 3 * k + 2, k + 1, b.kx, w) + (low + rest);
      var sign := dec.ArithDecode(FixedBin, on, [Decision(FixedBin, if v > 0 then 0 else 1)] + category, goal);
      r := 0;
      var st, m;
      ghost var n;
      ok, st, m, n := DecodeAcCategory(b, 3 * k + 2, k + 1, w, on, low + rest, goal);
      if !ok {
        return;
      }
      var mag := DecodeLowBits(Plus(st, 14), m, n, w, on, rest, goal);
      r := mag + 1;
      if sign == 1 {
        r := 0 - r;
      }
    }

    /** The flag that tells whether coefficient k + 1 is zero. */
    method DecodeFlag(b: Band, k: nat, ghost z: ZBlock, ghost ke: nat,
                      ghost on: bool, ghost rest: seq<Decision>, ghost goal: Goal) returns (bit: Bit)
      requires dec.Running() && k < 63
      requires on ==> k < ke <= b.se && dec.Follows(AcDecisions(b, z, k, false, ke) + rest, goal)
      modifies dec
      ensures dec.Running()
      ensures on ==> (bit == 0 <==> Trunc(z[k + 1], b.al) == 0) && dec.Follows(AfterFlag(b, z, k, ke, rest), goal)
    {
      ghost var todo := [];
      if on {
        todo := AcDecisions(b, z, k, false, ke) + rest;
        FlagFirst(b, z, k, ke, rest);
      }
      bit := dec.ArithDecode(AcBin(b.tbl, 3 * k + 1), on, todo, goal);
    }

    /** The zeros after index k0 and the flag of the coefficient that ends them; k is the index
        before that coefficient. */
    method DecodeZeros(b: Band, k0: nat, ghost z: ZBlock, ghost ke: nat,
                       ghost on: bool, ghost rest: seq<Decision>, ghost goal: Goal) returns (ok: bool, k: nat)
      requires dec.Running() && k0 < b.se
      requires on ==> k0 < ke <= b.se && Trunc(z[ke], b.al) != 0
      requires on ==> dec.Follows(AcDecisions(b, z, k0, false, ke) + rest, goal)
      modifies dec
      ensures ok ==> dec.Running()
      ensures !ok ==> dec.Live() && dec.ct == -1
      ensures k0 <= k < b.se
      ensures on ==> ok && k < ke && ZeroRun(z, b.al, k0, k) && Trunc(z[k + 1], b.al) != 0
                     && dec.Follows(AfterFlag(b, z, k, ke, rest), goal)
    {
      ok, k := true, k0;
      var bit := DecodeFlag(b, k, z, ke, on, rest, goal);
      while bit == 0
        invariant dec.Running() && k0 <= k < b.se
        invariant on ==> k < ke && ZeroRun(z, b.al, k0, k) && (bit == 0 <==> Trunc(z[k + 1], b.al) == 0)
        invariant on ==> dec.Follows(AfterFlag(b, z, k, ke, rest), goal)
        decreases b.se - k, bit == 0
      {
        if k + 1 >= b.se {
          dec.Fail();
          ok := false;
          return;
        }
        k := k + 1;
        bit := DecodeFlag(b, k, z, ke, on, rest, goal);
      }
    }

    /** The end-of-block flag after coefficient k. */
    method DecodeEob(b: Band, k: nat, ghost z: ZBlock, ghost ke: nat,
                     ghost on: bool, ghost rest: seq<Decision>, ghost goal: Goal) returns (bit: Bit)
      requires dec.Running() && k < b.se
      requires on ==> ke <= b.se && dec.Follows(AcDecisions(b, z, k, true, ke) + rest, goal)
      modifies dec
      ensures dec.Running()
      ensures on ==> (bit == 1 <==> k >= ke) && dec.Follows(AfterEob(b, z, k, ke, rest), goal)
    {
      ghost var todo := [];
      if on {
        todo := AcDecisions(b, z, k, true, ke) + rest;
        EobFirst(b, z, k, ke, rest);
      }
      bit := dec.ArithDecode(AcBin(b.tbl, 3 * k), on, todo, goal);
    }

    /** One round of figure F.20: the zeros after index k0 and the coefficient that ends them. */
    method DecodeRun(b: Band, scan: Scan, block: array<Jcoef>, k0: nat, ghost ss: nat, ghost z: ZBlock, ghost ke: nat,
                     ghost was: seq<Jcoef>, ghost on: bool, ghost rest: seq<Decision>, ghost goal: Goal)
      returns (ok: bool, k: nat)
      requires dec.Running() && k0 < b.se <= scan.limSe && block.Length == |was| == 64
      requires on ==> 1 <= ss <= k0 + 1 && k0 < ke <= b.se && Trunc(z[ke], b.al) != 0
      requires on ==> scan.Injective() && Vacant(scan, was, ss - 1, b.se)
      requires on ==> block[..] == Placed(scan, z, b.al, was, ss, k0)
      requires on ==> dec.Follows(AcDecisions(b, z, k0, false, ke) + rest, goal)
      modifies dec, block
      ensures ok ==> dec.Running()
      ensures !ok ==> dec.Live() && dec.ct == -1
      ensures k0 <= k <= b.se && (ok ==> k0 < k)
      ensures on ==> ok && k <= ke && block[..] == Placed(scan, z, b.al, was, ss, k)
      ensures on ==> dec.Follows(AcDecisions(b, z, k, true, ke) + rest, goal)
    {
      ok, k := DecodeZeros(b, k0, z, ke, on, rest, goal);
      if !ok {
        return;
      }
      ghost var v := Trunc(z[k + 1], b.al);
      if on {
        TruncShrinks(z[k + 1], b.al);
        PlacedZeros(scan, z, b.al, was, ss, k0, k);
      }
      var r;
      ok, r := DecodeCoefficient(b, k, v, on, if on then AcDecisions(b, z, k + 1, true, ke) + rest else [], goal);
      if !ok {
        return;
      }
      k := k + 1;
      block[scan.order[k]] := ToJcoef(Shift(r, b.al));
    }

    /** Figure F.20, as decoded in decode_mcu and decode_mcu_AC_first, for the band ss..b.se. */
    method DecodeAcBand(b: Band, scan: Scan, block: array<Jcoef>, ss: nat, ghost z: ZBlock,
                        ghost on: bool, ghost rest: seq<Decision>, ghost goal: Goal) returns (ok: bool)
      requires dec.Running() && 1 <= ss <= b.se <= scan.limSe && block.Length == 64
      requires on ==> scan.Injective() && Vacant(scan, block[..], ss - 1, b.se)
      requires on ==> dec.Follows(AcPart(b, z, ss) + rest, goal)
      modifies dec, block
      ensures ok ==> dec.Running()
      ensures !ok ==> dec.Live() && dec.ct == -1
      ensures on ==> ok && block[..] == Placed(scan, z, b.al, old(block[..]), ss, b.se) && dec.Follows(rest, goal)
    {
      ghost var was, ke := block[..], EndOfBlock(z, b.se, b.al);
      var k: nat := ss - 1;
      var eob := false;
      ok := true;
      while k < b.se && !eob
        invariant dec.Running() && ss - 1 <= k <= b.se
        invariant on ==> (if eob then k >= ke else k <= ke || k == ss - 1) && block[..] == Placed(scan, z, b.al, was, ss, k)
        invariant on ==> dec.Follows(if eob then rest else AcDecisions(b, z, k, true, ke) + rest, goal)
        decreases b.se - k, !eob
      {
        var bit := DecodeEob(b, k, z, ke, on, rest, goal);
        if bit == 1 {
          eob := true;
        } else {
          ok, k := DecodeRun(b, scan, block, k, ss, z, ke, was, on, rest, goal);
          if !ok {
            return;
          }
        }
      }
      if on {
        assert [] + rest == rest;
        PlacedRest(b, scan, z, was, ss, k);
      }
    }

    // ---------------------------------------------------------------- refinement

    /** Coefficient k + 1 of a refinement scan: a further bit, or a new coefficient, or still
        zero; `ended` says that it is not zero. */
    method DecodeRefineCoef(b: Band, block: array<Jcoef>, place: Index, k: nat, ghost c: Coef,
                            ghost on: bool, ghost rest: seq<Decision>, ghost goal: Goal) returns (ended: bool)
      requires dec.Running() && k < 63 && block.Length == 64 && b.al <= 13
      requires on ==> block[place] == ToJcoef(AcKept(c, b.al + 1))
      requires on ==> dec.Follows(RefineCoef(b, k, Trunc(c, b.al)) + rest, goal)
      modifies dec, block
      ensures dec.Running()
      ensures on ==> (ended <==> Trunc(c, b.al) != 0) && dec.Follows(rest, goal)
      ensures on ==> block[..] == old(block[..])[place := ToJcoef(AcKept(c, b.al))]
    {
      ghost var v: int, x: int := Trunc(c, b.al), block[place];
      ghost var y: int := ToJcoef(AcKept(c, b.al));
      RefineBit(if on then c else 0, b.al);
      if block[place] != 0 {
        ended := true;
        var value := DecodeNextBit(b, block[place], k, v, on, rest, goal);
        block[place] := value;
      } else {
        var value;
        ended, value := DecodeNewCoef(b, k, v, on, rest, goal);
        block[place] := value;
      }
    }

    /** One more bit of a coefficient that is not zero. */
    method DecodeNextBit(b: Band, x: Jcoef, k: nat, ghost v: int, ghost on: bool, ghost rest: seq<Decision>, ghost goal: Goal)
      returns (y: Jcoef)
      requires dec.Running() && k < 63 && b.al <= 13
      requires on ==> Abs(v) / 2 != 0 && dec.Follows(RefineCoef(b, k, v) + rest, goal)
      modifies dec
      ensures dec.Running() && (on ==> dec.Follows(rest, goal))
      ensures on ==> y == if Abs(v) % 2 == 1 then ToJcoef(x + if x < 0 then 0 - Pow2(b.al) else Pow2(b.al)) else x
    {
      y := x;
      var bit := dec.ArithDecode(AcBin(b.tbl, 3 * k + 2), on, RefineCoef(b, k, v) + rest, goal);
      if bit == 1 {
        y := ToJcoef(x + if x < 0 then 0 - Pow2(b.al) else Pow2(b.al));
      }
    }

    /** A coefficient that was zero, and whether it has become nonzero. */
    method DecodeNewCoef(b: Band, k: nat, ghost v: int, ghost on: bool, ghost rest: seq<Decision>, ghost goal: Goal)
      returns (ended: bool, y: Jcoef)
      requires dec.Running() && k < 63 && b.al <= 13
      requires on ==> Abs(v) / 2 == 0 && dec.Follows(RefineCoef(b, k, v) + rest, goal)
      modifies dec
      ensures dec.Running() && (on ==> dec.Follows(rest, goal) && (ended <==> v != 0))
      ensures on ==> y == if v == 0 then 0 else ToJcoef(if v > 0 then Pow2(b.al) else 0 - Pow2(b.al))
    {
      ended, y := true, 0;
      var bit := dec.ArithDecode(AcBin(b.tbl, 3 * k + 1), on, RefineCoef(b, k, v) + rest, goal);
      if bit == 1 {
        var sign := dec.ArithDecode(FixedBin, on, [Decision(FixedBin, if v > 0 then 0 else 1)] + rest, goal);
        y := ToJcoef(if sign == 1 then 0 - Pow2(b.al) else Pow2(b.al));
      } else {
        ended := false;
      }
    }

    /** The rest of the run after coefficient k0: up to the next coefficient that is not zero. */
    method DecodeRefineRun(b: Band, scan: Scan, block: array<Jcoef>, k0: nat, ghost ss: nat, ghost z: ZBlock,
                           ghost kex: nat, ghost ke: nat, ghost was: seq<Jcoef>,
                           ghost on: bool, ghost rest: seq<Decision>, ghost goal: Goal)
      returns (ok: bool, k: nat)
      requires dec.Running() && k0 < b.se <= scan.limSe && block.Length == |was| == 64 && b.al <= 13
      requires on ==> 1 <= ss <= k0 + 1 && k0 < ke <= b.se && Trunc(z[ke], b.al) != 0
      requires on ==> scan.Injective() && Coarse(scan, z, b.al + 1, was, ss - 1, b.se)
      requires on ==> block[..] == Placed(scan, z, b.al, was, ss, k0)
      requires on ==> dec.Follows(RefineDecisions(b, z, k0, false, kex, ke) + rest, goal)
      modifies dec, block
      ensures ok ==> dec.Running()
      ensures !ok ==> dec.Live() && dec.ct == -1
      ensures k0 <= k <= b.se && (ok ==> k0 < k)
      ensures on ==> ok && k <= ke && block[..] == Placed(scan, z, b.al, was, ss, k)
      ensures on ==> dec.Follows(RefineDecisions(b, z, k, true, kex, ke) + rest, goal)
    {
      ok, k := true, k0;
      var ended := false;
      while !ended
        invariant dec.Running() && k0 <= k <= b.se && (if ended then k0 < k else k < b.se)
        invariant on ==> (if ended then k <= ke else k < ke) && block[..] == Placed(scan, z, b.al, was, ss, k)
        invariant on ==> dec.Follows(RefineDecisions(b, z, k, ended, kex, ke) + rest, goal)
        decreases b.se - k, !ended
      {
        ghost var c: Coef := 0;
        ghost var tail := [];
        if on {
          c := z[k + 1];
          tail := RefineDecisions(b, z, k + 1, Trunc(c, b.al) != 0, kex, ke) + rest;
          RefineCoefFirst(b, z, k, kex, ke, rest);
          PlacedElsewhere(scan, z, b.al, was, ss, k, scan.order[k + 1]);
        }
        ended := DecodeRefineCoef(b, block, scan.order[k + 1], k, c, on, tail, goal);
        k := k + 1;
        if !ended && k >= b.se {
          dec.Fail();
          ok := false;
          return;
        }
      }
    }

    /** Establish EOBx, from the decoder's own block. */
    method FindPreviousEnd(scan: Scan, block: array<Jcoef>, se: nat) returns (kex: nat)
      requires block.Length == 64 && 1 <= se <= scan.limSe
      ensures kex <= se && (kex == 0 || block[scan.order[kex]] != 0) && Vacant(scan, block[..], kex, se)
    {
      kex := se;
      while kex != 0 && block[scan.order[kex]] == 0
        invariant kex <= se && Vacant(scan, block[..], kex, se)
      {
        kex := kex - 1;
      }
    }

    /** The end-of-block flag after coefficient k, which is sent only from index kexD on. */
    method DecodeRefineEob(b: Band, k: nat, kexD: nat, ghost ss: nat, ghost z: ZBlock, ghost kex: nat, ghost ke: nat,
                           ghost on: bool, ghost rest: seq<Decision>, ghost goal: Goal) returns (eob: bool)
      requires dec.Running() && k < b.se
      requires on ==> kex <= ke <= b.se && ss <= k + 1 && (kexD == kex || (kexD < ss && kex < ss))
      requires on ==> dec.Follows(RefineDecisions(b, z, k, true, kex, ke) + rest, goal)
      modifies dec
      ensures dec.Running()
      ensures on ==> (eob <==> k >= ke) && dec.Follows(AfterRefineEob(b, z, k, kex, ke, rest), goal)
    {
      eob := false;
      ghost var todo := [];
      if on {
        todo := RefineDecisions(b, z, k, true, kex, ke) + rest;
        RefineEobFirst(b, z, k, kex, ke, rest);
      }
      if k >= kexD {
        var bit := dec.ArithDecode(AcBin(b.tbl, 3 * k), on, todo, goal);
        eob := bit == 1;
      }
    }

    /** decode_mcu_AC_refine. */
    method DecodeRefineBand(b: Band, scan: Scan, block: array<Jcoef>, ss: nat, ghost z: ZBlock,
                            ghost on: bool, ghost rest: seq<Decision>, ghost goal: Goal) returns (ok: bool)
      requires dec.Running() && 1 <= ss <= b.se <= scan.limSe && block.Length == 64 && b.al <= 13
      requires on ==> scan.Injective() && Coarse(scan, z, b.al + 1, block[..], ss - 1, b.se)
      requires on ==> dec.Follows(RefinePart(b, z, ss, b.al + 1) + rest, goal)
      modifies dec, block
      ensures ok ==> dec.Running()
      ensures !ok ==> dec.Live() && dec.ct == -1
      ensures on ==> ok && block[..] == Placed(scan, z, b.al, old(block[..]), ss, b.se) && dec.Follows(rest, goal)
    {
      ghost var was, ke := block[..], EndOfBlock(z, b.se, b.al);
      ghost var kex := EndOfBlock(z, ke, b.al + 1);
      var kexD := FindPreviousEnd(scan, block, b.se);
      if on {
        EndsAgree(b, scan, z, was, ss, kexD, kex);
      }
      var k: nat := ss - 1;
      var eob := false;
      ok := true;
      while k < b.se && !eob
        invariant dec.Running() && ss - 1 <= k <= b.se
        invariant on ==> (if eob then k >= ke else k <= ke || k == ss - 1) && block[..] == Placed(scan, z, b.al, was, ss, k)
        invariant on ==> dec.Follows(if eob then rest else RefineDecisions(b, z, k, true, kex, ke) + rest, goal)
        decreases b.se - k, !eob
      {
        eob := DecodeRefineEob(b, k, kexD, ss, z, kex, ke, on, rest, goal);
        if !eob {
          ok, k := DecodeRefineRun(b, scan, block, k, ss, z, kex, ke, was, on, rest, goal);
          if !ok {
            return;
          }
        }
      }
      if on {
        assert [] + rest == rest;
        RefinedRest(b, scan, z, was, ss, k);
      }
    }

    // ---------------------------------------------------------------- blocks and MCUs

    /** One block of decode_mcu. */
    method DecodeDcAndAc(scan: Scan, ci: Component, block: array<Jcoef>, ghost p: Preds, ghost z: ZBlock,
                         ghost on: bool, ghost rest: seq<Decision>, ghost goal: Goal) returns (ok: bool)
      requires Shape() && dec.Running() && block.Length == 64 && !scan.progressive
      requires on ==> Agrees(p) && scan.Injective() && Vacant(scan, block[..], 0, scan.limSe)
      requires on ==> dec.Follows(BlockDecisions(scan, p, ci, z) + rest, goal)
      modifies dec, block, this`lastDcVal, this`dcContext
      ensures Shape() && (ok ==> dec.Running())
      ensures !ok ==> dec.Live() && dec.ct == -1
      ensures on ==> ok && Agrees(AfterDc(scan, p, ci, z[0])) && dec.Follows(rest, goal)
      ensures on ==> block[..] == Decoded(scan, z, old(block[..]))
    {
      ghost var was := block[..];
      ghost var ac := if scan.limSe == 0 then [] else AcPart(BandOf(scan, ci), z, 1);
      AppendAll(DcPart(scan, p, ci, z[0]), ac, rest);
      ok := DecodeDc(scan, ci, p, z[0], on, ac + rest, goal);
      if !ok {
        return;
      }
      block[0] := ToJcoef(lastDcVal[ci]);
      assert on ==> block[..] == was[0 := z[0] as Jcoef];
      if scan.limSe == 0 {
        assert [] + rest == rest;
      } else {
        ok := DecodeAcBand(BandOf(scan, ci), scan, block, 1, z, on, rest, goal);
      }
    }

    /** decode_mcu_DC_first for one block. */
    method DecodeDcFirst(scan: Scan, ci: Component, block: array<Jcoef>, ghost p: Preds, ghost z: ZBlock,
                         ghost on: bool, ghost rest: seq<Decision>, ghost goal: Goal) returns (ok: bool)
      requires Shape() && dec.Running() && block.Length == 64 && scan.Routine().DcFirst?
      requires on ==> Agrees(p) && dec.Follows(BlockDecisions(scan, p, ci, z) + rest, goal)
      modifies dec, block, this`lastDcVal, this`dcContext
      ensures Shape() && (ok ==> dec.Running())
      ensures !ok ==> dec.Live() && dec.ct == -1
      ensures on ==> ok && Agrees(AfterBlock(scan, p, ci, z)) && dec.Follows(rest, goal)
      ensures on ==> block[..] == Decoded(scan, z, old(block[..]))
    {
      ok := DecodeDc(scan, ci, p, DcValue(scan, z), on, rest, goal);
      if ok {
        block[0] := ToJcoef(Shift(lastDcVal[ci], scan.al));
      }
    }

    /** decode_mcu_DC_refine for one block: block[0] |= 1 << Al. */
    method DecodeDcRefine(scan: Scan, block: array<Jcoef>, ghost z: ZBlock,
                          ghost on: bool, ghost rest: seq<Decision>, ghost goal: Goal)
      requires dec.Running() && block.Length == 64
      requires on ==> block[0] == DcKept(z[0], scan.al + 1)
      requires on ==> dec.Follows([Decision(FixedBin, Shr(z[0], scan.al) % 2)] + rest, goal)
      modifies dec, block
      ensures dec.Running()
      ensures on ==> dec.Follows(rest, goal) && block[..] == old(block[..])[0 := ToJcoef(DcKept(z[0], scan.al))]
    {
      var bit := dec.ArithDecode(FixedBin, on, [Decision(FixedBin, Shr(z[0], scan.al) % 2)] + rest, goal);
      OrBitKept(z[0], scan.al);
      if bit == 1 {
        block[0] := OrBit(block[0], scan.al);
      }
    }

    /** The body of the block loop of the five MCU routines. */
    method DecodeBlock(scan: Scan, ci: Component, block: array<Jcoef>, ghost p: Preds, ghost z: ZBlock,
                       ghost on: bool, ghost rest: seq<Decision>, ghost goal: Goal) returns (ok: bool)
      requires Shape() && dec.Running() && block.Length == 64
      requires on ==> Agrees(p) && scan.Injective() && Primed(scan, z, block[..])
      requires on ==> dec.Follows(BlockDecisions(scan, p, ci, z) + rest, goal)
      modifies dec, block, this`lastDcVal, this`dcContext
      ensures Shape() && (ok ==> dec.Running())
      ensures !ok ==> dec.Live() && dec.ct == -1 && !scan.Routine().DcRefine?
      ensures on ==> ok && Agrees(AfterBlock(scan, p, ci, z)) && dec.Follows(rest, goal)
      ensures on ==> block[..] == Decoded(scan, z, old(block[..]))
    {
      ok := true;
      var r := scan.Routine();
      match r {
        case Sequential =>
          ok := DecodeDcAndAc(scan, ci, block, p, z, on, rest, goal);
        case DcFirst =>
          ok := DecodeDcFirst(scan, ci, block, p, z, on, rest, goal);
        case AcFirst =>
          ok := DecodeAcBand(BandOf(scan, ci), scan, block, scan.ss, z, on, rest, goal);
        case DcRefine =>
          DecodeDcRefine(scan, block, z, on, rest, goal);
        case AcRefine =>
          ok := DecodeRefineBand(BandOf(scan, ci), scan, block, scan.ss, z, on, rest, goal);
      }
    }

    /** The block loop of the five MCU routines. */
    method DecodeBlocks(scan: Scan, blocks: seq<array<Jcoef>>, ghost vals: seq<seq<Jcoef>>, ghost p0: Preds, ghost zs: Mcu,
                        ghost on: bool, ghost rest: seq<Decision>, ghost goal: Goal)
      returns (ok: bool)
      requires Shape() && dec.Running() && Distinct(blocks) && |blocks| == |scan.membership|
      requires on ==> Agrees(p0) && scan.Injective() && |zs| == |blocks| && Receives(scan, blocks, zs, vals)
      requires on ==> dec.Follows(McuDecisions(scan, p0, scan.membership, zs) + rest, goal)
      modifies dec, this`lastDcVal, this`dcContext, blocks
      ensures Shape() && (ok ==> dec.Running())
      ensures !ok ==> dec.Live() && dec.ct == -1 && !scan.Routine().DcRefine?
      ensures on ==> ok && Agrees(AfterMcu(scan, p0, scan.membership, zs)) && dec.Follows(rest, goal)
      ensures on ==> Received(scan, blocks, zs, vals)
    {
      ghost var ms: seq<Component> := scan.membership;
      ghost var p: Preds := p0;
      ok := true;
      var blkn: nat := 0;
      assert DistinctUpTo(blocks, |blocks|) && blocks[..|blocks|] == blocks;
      if on {
        assert ReceivesNow(scan, blocks, zs, vals);
        assert AllDecoded(scan, zs, vals, 0) == vals;
      }
      while blkn < |blocks|
        invariant Shape() && dec.Running() && blkn <= |blocks|
        invariant on ==> AllPrimed(scan, zs, vals) && Hold(blocks, AllDecoded(scan, zs, vals, blkn))
        invariant on ==> Agrees(p) && AfterMcu(scan, p, ms[blkn..], zs[blkn..]) == AfterMcu(scan, p0, ms, zs)
        invariant on ==> dec.Follows(McuDecisions(scan, p, ms[blkn..], zs[blkn..]) + rest, goal)
      {
        ok := DecodeBlockAt(scan, blkn, blocks[blkn], p, zs, on, rest, goal);
        if !ok {
          return;
        }
        p := if on then AfterBlock(scan, p, ms[blkn], zs[blkn]) else p;
        blkn := blkn + 1;
      }
      assert [] + rest == rest;
    }

    method DecodeBlockAt(scan: Scan, j: nat, block: array<Jcoef>, ghost p: Preds, ghost zs: Mcu,
                         ghost on: bool, ghost rest: seq<Decision>, ghost goal: Goal) returns (ok: bool)
      requires Shape() && dec.Running() && block.Length == 64 && j < |scan.membership|
      requires on ==> |zs| == |scan.membership| && Agrees(p) && scan.Injective() && Primed(scan, zs[j], block[..])
      requires on ==> dec.Follows(McuDecisions(scan, p, scan.membership[j..], zs[j..]) + rest, goal)
      modifies dec, this`lastDcVal, this`dcContext, block
      ensures Shape() && (ok ==> dec.Running())
      ensures !ok ==> dec.Live() && dec.ct == -1 && !scan.Routine().DcRefine?
      ensures on ==> ok && block[..] == Decoded(scan, zs[j], old(block[..]))
      ensures on ==> var p1 := AfterBlock(scan, p, scan.membership[j], zs[j]);
                     && Agrees(p1)
                     && AfterMcu(scan, p, scan.membership[j..], zs[j..])
                          == AfterMcu(scan, p1, scan.membership[j + 1..], zs[j + 1..])
                     && dec.Follows(McuDecisions(scan, p1, scan.membership[j + 1..], zs[j + 1..]) + rest, goal)
    {
      ghost var z, tail := seq(64, _ => 0), [];
      if on {
        z := zs[j];
        McuHead(scan, p, scan.membership[j..], zs[j..], rest);
        assert scan.membership[j..][1..] == scan.membership[j + 1..] && zs[j..][1..] == zs[j + 1..];
        tail := McuDecisions(scan, AfterBlock(scan, p, scan.membership[j], z), scan.membership[j + 1..], zs[j + 1..]) + rest;
      }
      ok := DecodeBlock(scan, scan.membership[j], block, p, z, on, tail, goal);
    }

    // ---------------------------------------------------------------- scans

    /** Between two MCUs: decoding goes on, or an error has been flagged. */
    ghost predicate Valid(scan: Scan)
      reads this, dec, dec.closing
    {
      Shape() && dec.Live() && (dec.ct != -1 || scan.Routine().DcRefine? ==> dec.Running())
    }

    /** The input holds the MCUs to come. */
    ghost predicate Awaits(scan: Scan, mcus: seq<Mcu>, o: Outlook)
      reads this, dec, dec.closing
    {
      && Agrees(o.p) && dec.Running() && IsArith(o.code) && scan.Injective()
      && restartsToGo == o.togo && nextRestartNum == o.num
      && dec.closing.code == o.mark && dec.closing.behind == o.behind
      && Expects(o, scan, dec.raw, mcus) && dec.Follows(o.todo, o.goal)
    }

    method ResetPredictors(scan: Scan)
      requires Shape()
      modifies this`lastDcVal, this`dcContext
      ensures Shape()
      ensures forall p: Preds :: old(Agrees(p)) ==> Agrees(RestartPreds(scan, p))
    {
      if CodesDc(scan) {
        for ci := 0 to scan.comps
          invariant Shape()
          invariant forall i :: 0 <= i < 4 ==> lastDcVal[i] == if i < ci then 0 else old(lastDcVal[i])
          invariant forall i :: 0 <= i < 4 ==> dcContext[i] == if i < ci then 0 else old(dcContext[i])
        {
          lastDcVal := lastDcVal[ci := 0];
          dcContext := dcContext[ci := 0];
        }
      }
    }

    /** Starts on a segment whose data begins at the current position. */
    method OpenAt(scan: Scan, ghost on: bool, ghost mcus: seq<Mcu>, ghost o: Outlook, ghost num: RestartNum)
      returns (ghost o1: Outlook)
      requires dec.InputOk() && dec.unreadMarker == 0
      requires on ==> IsArith(o.code) && Starts(o.code, scan, dec.raw, dec.pos, Cleared(scan, dec.Model()),
                                                RestartPreds(scan, o.p), mcus, num, o.term)
      modifies dec, dec.closing
      ensures dec.Running()
      ensures on ==> o1.code == o.code && o1.term == o.term && o1.p == RestartPreds(scan, o.p)
                     && o1.togo == scan.restartInterval && o1.num == num
                     && dec.closing.code == o1.mark && dec.closing.behind == o1.behind
      ensures on ==> Expects(o1, scan, dec.raw, mcus) && dec.Follows(o1.todo, o1.goal)
    {
      o1 := o;
      if on {
        o1 := OpenSegment(o.code, scan, dec.raw, dec.pos, Cleared(scan, dec.Model()), RestartPreds(scan, o.p), mcus,
                          num, o.term);
      }
      dec.Open(scan);
      if on {
        assert dec.AnswersAt(o1.todo, o1.goal);
      }
    }

    /** process_restart.  When another marker has come than the one that is due, the data source
        resynchronises, which is not part of this model: ok is false then. */
    method ProcessRestart(scan: Scan, ghost on: bool, ghost mcus: seq<Mcu>, ghost o: Outlook)
      returns (ok: bool, ghost o1: Outlook)
      requires Valid(scan) && RestartDue(scan, restartsToGo)
      requires on ==> mcus != [] && Awaits(scan, mcus, o)
      modifies dec, dec.closing, this
      ensures ok ==> Valid(scan) && !RestartDue(scan, restartsToGo)
      ensures on ==> ok && Awaits(scan, mcus, o1) && o1.term == o.term
    {
      o1 := o;
      assert dec.EndsAt(dec.closing.behind, dec.closing.code);
      if on {
        ExpectsMarker(o, scan, dec.raw, mcus);
        Settled(mcus, scan, o);
      }
      ok := dec.ReadRestartMarker(nextRestartNum);
      if !ok {
        return;
      }
      nextRestartNum := (nextRestartNum + 1) % 8;
      o1 := OpenAt(scan, on, mcus, o, nextRestartNum);
      ResetPredictors(scan);
      restartsToGo := scan.restartInterval;
    }

    /** At the end of a segment, the statistics are those that were aimed at. */
    lemma Settled(mcus: seq<Mcu>, scan: Scan, o: Outlook)
      requires o.todo == [] && Awaits(scan, mcus, o)
      ensures dec.Model() == o.goal.1
    {
      assert dec.AnswersAt([], o.goal);
    }

    /** decode_mcu and its four progressive variants.  As long as the input holds what an encoder
        wrote, every MCU is decoded to what was coded. */
    method DecodeMcu(scan: Scan, blocks: seq<array<Jcoef>>, ghost vals: seq<seq<Jcoef>>,
                     ghost on: bool, ghost mcus: seq<Mcu>, ghost o: Outlook)
      returns (ok: bool, ghost o1: Outlook)
      requires Valid(scan) && Distinct(blocks) && |blocks| == |scan.membership|
      requires on ==> mcus != [] && Awaits(scan, mcus, o) && Receives(scan, blocks, mcus[0], vals)
      modifies dec, dec.closing, this, blocks
      ensures ok ==> Valid(scan)
      ensures on ==> ok && Received(scan, blocks, mcus[0], vals) && Awaits(scan, mcus[1..], o1)
      ensures on ==> o1.term == o.term
    {
      ok, o1 := true, o;
      if scan.restartInterval != 0 {
        if restartsToGo == 0 {
          ok, o1 := ProcessRestart(scan, on, mcus, o);
          if !ok {
            return;
          }
        }
      }
      o1 := DecodeNextMcu(scan, blocks, vals, on, mcus, o1);
    }

    /** One MCU less to the next restart marker. */
    method CountMcu(scan: Scan, ghost on: bool, ghost mcus: seq<Mcu>, ghost o: Outlook) returns (ghost o1: Outlook)
      requires Valid(scan) && !RestartDue(scan, restartsToGo)
      requires on ==> mcus != [] && Awaits(scan, mcus, o)
      modifies this`restartsToGo
      ensures Valid(scan)
      ensures on ==> |mcus[0]| == |scan.membership| && Agrees(o.p) && dec.Running() && scan.Injective()
                     && dec.Follows(McuDecisions(scan, o.p, scan.membership, mcus[0]) + o1.todo, o.goal)
      ensures on ==> IsArith(o.code) && restartsToGo == o1.togo && nextRestartNum == o.num
                     && dec.closing.code == o.mark && dec.closing.behind == o.behind && Expects(o1, scan, dec.raw, mcus[1..])
                     && o1 == o.(p := AfterMcu(scan, o.p, scan.membership, mcus[0]), togo := o1.togo, todo := o1.todo)
    {
      o1 := o;
      if on {
        o1 := ExpectsMcu(o, scan, dec.raw, mcus);
      }
      if scan.restartInterval != 0 {
        restartsToGo := restartsToGo - 1;
      }
    }

    /** The rest of those, once no restart marker is due. */
    method DecodeNextMcu(scan: Scan, blocks: seq<array<Jcoef>>, ghost vals: seq<seq<Jcoef>>,
                         ghost on: bool, ghost mcus: seq<Mcu>, ghost o: Outlook)
      returns (ghost o1: Outlook)
      requires Valid(scan) && Distinct(blocks) && |blocks| == |scan.membership| && !RestartDue(scan, restartsToGo)
      requires on ==> mcus != [] && Awaits(scan, mcus, o) && Receives(scan, blocks, mcus[0], vals)
      modifies dec, this, blocks
      ensures Valid(scan)
      ensures on ==> Received(scan, blocks, mcus[0], vals) && Awaits(scan, mcus[1..], o1)
      ensures on ==> o1.term == o.term
    {
      ghost var zs: Mcu := if on then mcus[0] else [];
      o1 := CountMcu(scan, on, mcus, o);
      if dec.ct == -1 && !scan.Routine().DcRefine? {
        return;
      }
      var ok := DecodeBlocks(scan, blocks, vals, o.p, zs, on, o1.todo, o.goal);
    }

    /** start_pass */
    method StartPass(scan: Scan, ghost on: bool, ghost mcus: seq<Mcu>, ghost o: Outlook) returns (ghost o1: Outlook)
      requires Shape() && dec.InputOk() && dec.unreadMarker == 0
      requires on ==> Agrees(o.p) && IsArith(o.code) && scan.Injective()
      requires on ==> Starts(o.code, scan, dec.raw, dec.pos, Cleared(scan, dec.Model()), RestartPreds(scan, o.p), mcus,
                             0, o.term)
      modifies dec, dec.closing, this
      ensures Valid(scan)
      ensures on ==> Awaits(scan, mcus, o1) && o1.term == o.term
    {
      o1 := OpenAt(scan, on, mcus, o, 0);
      ResetPredictors(scan);
      restartsToGo := scan.restartInterval;
      nextRestartNum := 0;
    }
  }
}
