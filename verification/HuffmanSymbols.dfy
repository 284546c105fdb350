/** Which symbols a scan uses: only those of the tables that it needs, and some of each of these. */
module HuffmanSymbols {
  import opened ArithTable
  import opened ArithModel
  import opened PointTransform
  import opened HuffmanDerived
  import opened HuffmanItems
  import opened HuffmanEncoder
  import opened HuffmanScan
  import opened HuffmanScanTables

  // ------------------------------------------------------------------ no others

  /** A table with a code for every symbol, or for none. */
  function Uniform(some: bool): CTable {
    CTable(seq(256, _ => 0), seq(256, _ => if some then 1 else 0))
  }

  /** Tables that have codes exactly where the scan needs a table. */
  function NeededTables(sc: HuffScan): Tables {
    TableSet(seq(NUM_HUFF_TBLS, i requires 0 <= i < NUM_HUFF_TBLS => Uniform(NeedsDc(sc, i))),
             seq(NUM_HUFF_TBLS, i requires 0 <= i < NUM_HUFF_TBLS => Uniform(NeedsAc(sc, i))))
  }

  ghost predicate FullDc(t: Tables, tbl: HuffNo) {
    forall s: Byte :: t.dc[tbl].ehufsi[s] != 0
  }

  ghost predicate FullAc(t: Tables, tbl: HuffNo) {
    forall s: Byte :: t.ac[tbl].ehufsi[s] != 0
  }

  lemma {:induction false} ZrlsHaveCodes(t: Tables, tbl: HuffNo, r: nat)
    requires FullAc(t, tbl)
    ensures HaveCodes(t, Zrls(tbl, r))
  {
    if r >= 16 {
      ZrlsHaveCodes(t, tbl, r - 16);
      assert ([AcSym(tbl, 0xF0)] + Zrls(tbl, r - 16))[1..] == Zrls(tbl, r - 16);
    }
  }

  lemma RunHasCodes(t: Tables, tbl: HuffNo, r: nat, v: int)
    requires FullAc(t, tbl) && v != 0 && BitLen(Abs(v)) <= 15
    ensures HaveCodes(t, RunItems(tbl, r, v))
  {
    var n := BitLen(Abs(v));
    ExtendInverts(v);
    ZrlsHaveCodes(t, tbl, r);
    var two := [AcSym(tbl, r % 16 * 16 + n), Extra(Complement(v, n), n)];
    HaveCodesAll(t, two);
    HaveCodesConcat(t, Zrls(tbl, r), two);
  }

  lemma {:induction false} FirstHaveCodes(t: Tables, tbl: HuffNo, z: ZBlock, al: nat, k: nat, se: Index, r: nat)
    requires FullAc(t, tbl)
    ensures HaveCodes(t, FirstItems(tbl, z, al, k, se, r).body)
    decreases se + 1 - k
  {
    if k <= se {
      var v := Trunc(z[k], al);
      CoefLen(z[k], al);
      FirstHaveCodes(t, tbl, z, al, k + 1, se, if v == 0 then r + 1 else 0);
      if v != 0 {
        RunHasCodes(t, tbl, r, v);
        HaveCodesConcat(t, RunItems(tbl, r, v), FirstItems(tbl, z, al, k + 1, se, 0).body);
      }
    }
  }

  lemma {:induction false} BitsHaveCodes(t: Tables, s: seq<Bit>)
    ensures HaveCodes(t, BitItems(s))
  {
    if s != [] {
      BitsHaveCodes(t, s[1..]);
      assert ([Extra(s[0], 1)] + BitItems(s[1..]))[1..] == BitItems(s[1..]);
    }
  }

  lemma EventHasCodes(t: Tables, tbl: HuffNo, sym: Byte, sign: Option<Bit>, br: seq<Bit>)
    requires FullAc(t, tbl)
    ensures HaveCodes(t, EventItems(tbl, sym, sign, br))
  {
    BitsHaveCodes(t, br);
    HaveCodesConcat(t, EventHead(tbl, sym, sign), BitItems(br));
    HaveCodesAll(t, EventHead(tbl, sym, sign));
  }

  lemma {:induction false} RefineHaveCodes(t: Tables, tbl: HuffNo, z: ZBlock, al: nat, k: nat, se: Index, r: nat,
                                           br: seq<Bit>, eob: nat)
    requires FullAc(t, tbl) && forall i :: k <= i <= se && Abs(Trunc(z[i], al)) == 1 ==> i <= eob
    ensures HaveCodes(t, RefineItems(tbl, z, al, k, se, r, br, eob).body)
    decreases se + 1 - k, r
  {
    if k <= se {
      var v := Abs(Trunc(z[k], al));
      if v == 0 {
        RefineHaveCodes(t, tbl, z, al, k + 1, se, r + 1, br, eob);
      } else if r > 15 && k <= eob {
        RefineHaveCodes(t, tbl, z, al, k, se, r - 16, [], eob);
        ZrlUnfolds(tbl, z, al, k, se, r, br, eob);
        EventHasCodes(t, tbl, 0xF0, None, br);
        HaveCodesConcat(t, EventItems(tbl, 0xF0, None, br), RefineItems(tbl, z, al, k, se, r - 16, [], eob).body);
      } else if v > 1 || r > 15 {
        RefineHaveCodes(t, tbl, z, al, k + 1, se, r, br + [v % 2], eob);
      } else {
        RefineHaveCodes(t, tbl, z, al, k + 1, se, 0, [], eob);
        NewUnfolds(tbl, z, al, k, se, r, br, eob);
        var sign := if Trunc(z[k], al) < 0 then 0 else 1;
        EventHasCodes(t, tbl, r * 16 + 1, Some(sign), br);
        HaveCodesConcat(t, EventItems(tbl, r * 16 + 1, Some(sign), br),
                        RefineItems(tbl, z, al, k + 1, se, 0, [], eob).body);
      }
    }
  }

  lemma EobHasCodes(t: Tables, tbl: HuffNo, e: nat, be: seq<Bit>)
    requires FullAc(t, tbl)
    ensures HaveCodes(t, EobItems(tbl, e, be))
  {
    BitsHaveCodes(t, be);
    HaveCodesAll(t, EobHead(tbl, e));
    HaveCodesConcat(t, EobHead(tbl, e), BitItems(be));
  }

  lemma {:induction false} ComingHasCodes(t: Tables, tbl: HuffNo, bs: seq<BandItems>, e: nat, be: seq<Bit>)
    requires FullAc(t, tbl) && forall i :: 0 <= i < |bs| ==> HaveCodes(t, bs[i].body)
    ensures HaveCodes(t, Coming(tbl, bs, e, be))
    decreases |bs|, 1
  {
    EobHasCodes(t, tbl, e, be);
    if bs != [] {
      if bs[0].body != [] {
        var after := AfterBand(tbl, bs[0].tail, bs[1..], 0, []);
        AfterHasCodes(t, tbl, bs[0].tail, bs[1..], 0, []);
        HaveCodesConcat(t, EobItems(tbl, e, be), bs[0].body);
        HaveCodesConcat(t, EobItems(tbl, e, be) + bs[0].body, after);
      } else {
        AfterHasCodes(t, tbl, bs[0].tail, bs[1..], e, be);
      }
    }
  }

  lemma {:induction false} AfterHasCodes(t: Tables, tbl: HuffNo, tail: Option<seq<Bit>>, bs: seq<BandItems>, e: nat,
                                         be: seq<Bit>)
    requires FullAc(t, tbl) && forall i :: 0 <= i < |bs| ==> HaveCodes(t, bs[i].body)
    ensures HaveCodes(t, AfterBand(tbl, tail, bs, e, be))
    decreases |bs| + 1, 0
  {
    match tail {
      case None => ComingHasCodes(t, tbl, bs, e, be);
      case Some(tt) =>
        ComingHasCodes(t, tbl, bs, 0, []);
        ComingHasCodes(t, tbl, bs, e + 1, be + tt);
        EobHasCodes(t, tbl, e + 1, be + tt);
        HaveCodesConcat(t, EobItems(tbl, e + 1, be + tt), Coming(tbl, bs, 0, []));
    }
  }

  lemma DcHasCodes(t: Tables, tbl: HuffNo, diff: int)
    requires FullDc(t, tbl) && Abs(diff) <= 0x8000
    ensures HaveCodes(t, DcItems(tbl, diff))
  {
    HaveCodesAll(t, DcItems(tbl, diff));
  }

  lemma BlockHasCodes(sc: HuffScan, m: Component, last: Coef, z: ZBlock)
    requires m < sc.comps && !IsAc(sc)
    ensures HaveCodes(NeededTables(sc), BlockItems(DcNo(sc, m), AcNo(sc, m), sc, last, z))
  {
    var t := NeededTables(sc);
    match sc.Routine() {
      case Sequential =>
        DcHasCodes(t, DcNo(sc, m), z[0] - last);
        SequentialHasCodes(t, AcNo(sc, m), z, sc.limSe);
        HaveCodesConcat(t, DcItems(DcNo(sc, m), z[0] - last), SequentialAc(AcNo(sc, m), z, sc.limSe));
      case DcFirst => DcHasCodes(t, DcNo(sc, m), DcValue(sc, z) - last);
      case DcRefine => HaveCodesAll(t, [Extra(DcBit(sc, z), 1)]);
      case AcFirst => assert false;
      case AcRefine => assert false;
    }
  }

  lemma SequentialHasCodes(t: Tables, tbl: HuffNo, z: ZBlock, se: Index)
    requires se != 0 ==> FullAc(t, tbl)
    ensures HaveCodes(t, SequentialAc(tbl, z, se))
  {
    var b := FirstItems(tbl, z, 0, 1, se, 0);
    if se != 0 {
      FirstHaveCodes(t, tbl, z, 0, 1, se, 0);
      HaveCodesConcat(t, b.body, if b.tail.Some? then [AcSym(tbl, 0)] else []);
      HaveCodesAll(t, [AcSym(tbl, 0)]);
    }
  }

  lemma {:induction false} McuHasCodes(sc: HuffScan, last: DcValues, ms: seq<Component>, zs: Mcu)
    requires |ms| == |zs| && !IsAc(sc) && forall j :: 0 <= j < |ms| ==> ms[j] < sc.comps
    ensures HaveCodes(NeededTables(sc), McuItems(sc, last, ms, zs))
    decreases |zs|
  {
    if zs != [] {
      var b := BlockItems(DcNo(sc, ms[0]), AcNo(sc, ms[0]), sc, last[ms[0]], zs[0]);
      var more := McuItems(sc, NextLast(sc, last, ms[0], zs[0]), ms[1..], zs[1..]);
      BlockHasCodes(sc, ms[0], last[ms[0]], zs[0]);
      McuHasCodes(sc, NextLast(sc, last, ms[0], zs[0]), ms[1..], zs[1..]);
      HaveCodesConcat(NeededTables(sc), b, more);
    }
  }

  lemma {:induction false} McusHaveCodes(sc: HuffScan, last: DcValues, mcus: seq<Mcu>)
    requires Fit(sc, mcus) && !IsAc(sc)
    ensures HaveCodes(NeededTables(sc), McusItems(sc, last, mcus))
    decreases |mcus|
  {
    if mcus != [] {
      var last1 := LastAfter(sc, last, sc.membership, mcus[0]);
      McuHasCodes(sc, last, sc.membership, mcus[0]);
      McusHaveCodes(sc, last1, mcus[1..]);
      HaveCodesConcat(NeededTables(sc), McuItems(sc, last, sc.membership, mcus[0]), McusItems(sc, last1, mcus[1..]));
    }
  }

  lemma BandHasCodes(sc: HuffScan, z: ZBlock)
    requires IsAc(sc)
    ensures HaveCodes(NeededTables(sc), BandOfBlock(sc, z).body)
  {
    var t := NeededTables(sc);
    assert NeedsAc(sc, AcNo(sc, 0));
    if sc.Routine().AcFirst? {
      FirstHaveCodes(t, AcNo(sc, 0), z, sc.al, sc.ss, sc.se, 0);
    } else {
      RefineHaveCodes(t, AcNo(sc, 0), z, sc.al, sc.ss, sc.se, 0, [], LastNew(z, sc.al, sc.ss, sc.se));
    }
  }

  lemma OwedHasCodes(sc: HuffScan, s: Carried, mcus: seq<Mcu>)
    requires Fit(sc, mcus)
    ensures HaveCodes(NeededTables(sc), Owed(sc, s, mcus))
  {
    if IsAc(sc) {
      assert NeedsAc(sc, AcNo(sc, 0));
      forall i | 0 <= i < |mcus|
        ensures HaveCodes(NeededTables(sc), Bands(sc, mcus)[i].body)
      {
        BandHasCodes(sc, mcus[i][0]);
      }
      ComingHasCodes(NeededTables(sc), AcNo(sc, 0), Bands(sc, mcus), s.e, s.be);
    } else {
      McusHaveCodes(sc, s.last, mcus);
    }
  }

  lemma {:induction false} LaterHaveCodes(sc: HuffScan, mcus: seq<Mcu>)
    requires Fit(sc, mcus)
    ensures forall i :: 0 <= i < |LaterSegments(sc, mcus)| ==> HaveCodes(NeededTables(sc), LaterSegments(sc, mcus)[i])
    decreases |mcus|
  {
    if mcus != [] {
      var n := InSegment(sc, mcus, sc.restartInterval);
      OwedHasCodes(sc, NOTHING, mcus[..n]);
      LaterHaveCodes(sc, mcus[n..]);
    }
  }

  lemma {:induction false} FlatHasCodes(t: Tables, lists: seq<seq<Item>>)
    requires forall i :: 0 <= i < |lists| ==> HaveCodes(t, lists[i])
    ensures HaveCodes(t, Flat(lists))
  {
    if lists != [] {
      var n := |lists| - 1;
      FlatHasCodes(t, lists[..n]);
      HaveCodesConcat(t, Flat(lists[..n]), lists[n]);
    }
  }

  /** A scan uses only tables that it needs. */
  lemma OnlyNeeded(sc: HuffScan, mcus: seq<Mcu>)
    requires Fit(sc, mcus)
    ensures HaveCodes(NeededTables(sc), Flat(ScanSegments(sc, mcus)))
  {
    var n := InSegment(sc, mcus, sc.restartInterval);
    var first := [] + Owed(sc, NOTHING, mcus[..n]);
    assert first == Owed(sc, NOTHING, mcus[..n]);
    OwedHasCodes(sc, NOTHING, mcus[..n]);
    LaterHaveCodes(sc, mcus[n..]);
    FlatHasCodes(NeededTables(sc), ScanSegments(sc, mcus));
  }

  // ------------------------------------------------------------------ some of each

  lemma HasSymLeft(a: seq<Item>, b: seq<Item>, isDc: bool, tbl: HuffNo)
    requires HasSym(a, isDc, tbl) || HasSym(b, isDc, tbl)
    ensures HasSym(a + b, isDc, tbl)
  {
    var s: Byte :| Sym(isDc, tbl, s) in a || Sym(isDc, tbl, s) in b;
    assert Sym(isDc, tbl, s) in a + b;
  }

  lemma {:induction false} FirstHasSym(tbl: HuffNo, z: ZBlock, al: nat, k: nat, se: Index, r: nat)
    requires FirstItems(tbl, z, al, k, se, r).body != []
    ensures HasSym(FirstItems(tbl, z, al, k, se, r).body, false, tbl)
    decreases se + 1 - k
  {
    if Trunc(z[k], al) == 0 {
      FirstHasSym(tbl, z, al, k + 1, se, r + 1);
    } else {
      var v := Trunc(z[k], al);
      CoefLen(z[k], al);
      ExtendInverts(v);
      var n := BitLen(Abs(v));
      var two := [AcSym(tbl, r % 16 * 16 + n), Extra(Complement(v, n), n)];
      assert two[0] == Sym(false, tbl, r % 16 * 16 + n);
      HasSymLeft(Zrls(tbl, r), two, false, tbl);
      HasSymLeft(RunItems(tbl, r, v), FirstItems(tbl, z, al, k + 1, se, 0).body, false, tbl);
    }
  }

  lemma {:induction false} RefineHasSym(tbl: HuffNo, z: ZBlock, al: nat, k: nat, se: Index, r: nat, br: seq<Bit>, eob: nat)
    requires RefineItems(tbl, z, al, k, se, r, br, eob).body != []
    requires forall i :: k <= i <= se && Abs(Trunc(z[i], al)) == 1 ==> i <= eob
    ensures HasSym(RefineItems(tbl, z, al, k, se, r, br, eob).body, false, tbl)
    decreases se + 1 - k, r
  {
    var v := Abs(Trunc(z[k], al));
    if v == 0 {
      RefineHasSym(tbl, z, al, k + 1, se, r + 1, br, eob);
    } else if r > 15 && k <= eob {
      ZrlUnfolds(tbl, z, al, k, se, r, br, eob);
      EventHasSym(tbl, 0xF0, None, br, RefineItems(tbl, z, al, k, se, r - 16, [], eob).body);
    } else if v > 1 || r > 15 {
      RefineHasSym(tbl, z, al, k + 1, se, r, br + [v % 2], eob);
    } else {
      NewUnfolds(tbl, z, al, k, se, r, br, eob);
      EventHasSym(tbl, r * 16 + 1, Some(if Trunc(z[k], al) < 0 then 0 else 1), br,
                  RefineItems(tbl, z, al, k + 1, se, 0, [], eob).body);
    }
  }

  lemma EventHasSym(tbl: HuffNo, sym: Byte, sign: Option<Bit>, br: seq<Bit>, more: seq<Item>)
    ensures HasSym(EventItems(tbl, sym, sign, br) + more, false, tbl)
  {
    var head := EventHead(tbl, sym, sign);
    assert head[0] == Sym(false, tbl, sym);
    HasSymLeft(head, BitItems(br), false, tbl);
    HasSymLeft(EventItems(tbl, sym, sign, br), more, false, tbl);
  }

  lemma EobHasSym(tbl: HuffNo, e: nat, be: seq<Bit>)
    requires 1 <= e <= 0x7FFF
    ensures HasSym(EobItems(tbl, e, be), false, tbl)
  {
    RunLog2(e);
    var head := EobHead(tbl, e);
    assert head[0] == Sym(false, tbl, Log2(e) * 16);
    HasSymLeft(head, BitItems(be), false, tbl);
  }

  /** A scan of AC coefficients of at least one block uses a symbol. */
  lemma ComingHasSym(tbl: HuffNo, bs: seq<BandItems>)
    requires bs != [] && Proper(bs) && (bs[0].body != [] ==> HasSym(bs[0].body, false, tbl))
    ensures HasSym(Coming(tbl, bs, 0, []), false, tbl)
  {
    if bs[0].body != [] {
      assert [] + bs[0].body == bs[0].body;
      HasSymLeft(bs[0].body, AfterBand(tbl, bs[0].tail, bs[1..], 0, []), false, tbl);
    } else {
      var t := bs[0].tail.value;
      assert [] + t == t;
      var n := AfterSplits(tbl, t, bs[1..], 0, [], t);
      EobHasSym(tbl, 1 + n, t + Tails(bs[1..][..n]));
      HasSymLeft(EobItems(tbl, 1 + n, t + Tails(bs[1..][..n])), Coming(tbl, bs[1..][n..], 0, []), false, tbl);
    }
  }

  lemma SequentialHasSym(tbl: HuffNo, z: ZBlock, se: Index)
    requires se != 0
    ensures HasSym(SequentialAc(tbl, z, se), false, tbl)
  {
    var b := FirstItems(tbl, z, 0, 1, se, 0);
    FirstProper(tbl, z, 0, 1, se, 0);
    if b.body != [] {
      FirstHasSym(tbl, z, 0, 1, se, 0);
    } else {
      assert [AcSym(tbl, 0)][0] == Sym(false, tbl, 0);
    }
    HasSymLeft(b.body, if b.tail.Some? then [AcSym(tbl, 0)] else [], false, tbl);
  }

  /** Which symbols the blocks of a component use. */
  predicate Uses(sc: HuffScan, isDc: bool) {
    if isDc then CodesDc(sc) else sc.Routine().Sequential? && sc.limSe != 0
  }

  function TableNo(sc: HuffScan, isDc: bool, m: Component): HuffNo {
    if isDc then DcNo(sc, m) else AcNo(sc, m)
  }

  lemma BlockHasSym(sc: HuffScan, isDc: bool, m: Component, last: Coef, z: ZBlock)
    requires Uses(sc, isDc)
    ensures HasSym(BlockItems(DcNo(sc, m), AcNo(sc, m), sc, last, z), isDc, TableNo(sc, isDc, m))
  {
    var dc := DcItems(DcNo(sc, m), DcValue(sc, z) - last);
    assert dc[0] == Sym(true, DcNo(sc, m), dc[0].sym);
    if sc.Routine().Sequential? {
      var ac := SequentialAc(AcNo(sc, m), z, sc.limSe);
      if !isDc {
        SequentialHasSym(AcNo(sc, m), z, sc.limSe);
      }
      HasSymLeft(dc, ac, isDc, TableNo(sc, isDc, m));
    }
  }

  lemma {:induction false} McuHasSym(sc: HuffScan, isDc: bool, last: DcValues, ms: seq<Component>, zs: Mcu, m: Component)
    requires Uses(sc, isDc) && |ms| == |zs| && m in ms
    ensures HasSym(McuItems(sc, last, ms, zs), isDc, TableNo(sc, isDc, m))
    decreases |zs|
  {
    var last1 := NextLast(sc, last, ms[0], zs[0]);
    if ms[0] == m {
      BlockHasSym(sc, isDc, m, last[m], zs[0]);
    } else {
      McuHasSym(sc, isDc, last1, ms[1..], zs[1..], m);
    }
    HasSymLeft(BlockItems(DcNo(sc, ms[0]), AcNo(sc, ms[0]), sc, last[ms[0]], zs[0]), McuItems(sc, last1, ms[1..], zs[1..]),
               isDc, TableNo(sc, isDc, m));
  }

  /** The first segment uses each table that the scan needs. */
  lemma OwedHasSym(sc: HuffScan, mcus: seq<Mcu>, isDc: bool, m: Component)
    requires Fit(sc, mcus) && mcus != [] && m in sc.membership
    requires if IsAc(sc) then !isDc else Uses(sc, isDc)
    ensures HasSym(Owed(sc, NOTHING, mcus), isDc, TableNo(sc, isDc, m))
  {
    if IsAc(sc) {
      var tbl, z := AcNo(sc, 0), mcus[0][0];
      ProperBands(sc, mcus);
      if BandOfBlock(sc, z).body != [] {
        if sc.Routine().AcFirst? {
          FirstHasSym(tbl, z, sc.al, sc.ss, sc.se, 0);
        } else {
          RefineHasSym(tbl, z, sc.al, sc.ss, sc.se, 0, [], LastNew(z, sc.al, sc.ss, sc.se));
        }
      }
      ComingHasSym(tbl, Bands(sc, mcus));
    } else {
      McuHasSym(sc, isDc, NOTHING.last, sc.membership, mcus[0], m);
      HasSymLeft(McuItems(sc, NOTHING.last, sc.membership, mcus[0]),
                 McusItems(sc, LastAfter(sc, NOTHING.last, sc.membership, mcus[0]), mcus[1..]), isDc, TableNo(sc, isDc, m));
    }
  }

  lemma {:induction false} FlatHasSym(lists: seq<seq<Item>>, i: nat, isDc: bool, tbl: HuffNo)
    requires i < |lists| && HasSym(lists[i], isDc, tbl)
    ensures HasSym(Flat(lists), isDc, tbl)
    decreases |lists|
  {
    var n := |lists| - 1;
    if i < n {
      FlatHasSym(lists[..n], i, isDc, tbl);
    }
    HasSymLeft(Flat(lists[..n]), lists[n], isDc, tbl);
  }

  /** A scan of at least one MCU in which all components take part uses each table that it needs. */
  lemma EachNeeded(sc: HuffScan, mcus: seq<Mcu>, isDc: bool, m: Component)
    requires Fit(sc, mcus) && mcus != [] && m < sc.comps && m in sc.membership
    requires if isDc then NeedsDc(sc, DcNo(sc, m)) else NeedsAc(sc, AcNo(sc, m))
    ensures HasSym(Flat(ScanSegments(sc, mcus)), isDc, TableNo(sc, isDc, m))
  {
    var n := InSegment(sc, mcus, sc.restartInterval);
    assert [] + Owed(sc, NOTHING, mcus[..n]) == Owed(sc, NOTHING, mcus[..n]);
    OwedHasSym(sc, mcus[..n], isDc, m);
    FlatHasSym(ScanSegments(sc, mcus), 0, isDc, TableNo(sc, isDc, m));
  }

  lemma ItemListed(sc: HuffScan, s0: HuffSlots, s: HuffSlots, its: seq<Item>, it: Item)
    requires MadeFor(sc, s0, s, its) && it in its && HasCode(NeededTables(sc), it)
    ensures Lists(sc, s, it)
  {
    match it {
      case DcSym(tbl, sym) =>
        assert NeedsDc(sc, tbl) && Sym(true, tbl, sym) in its;
      case AcSym(tbl, sym) =>
        assert NeedsAc(sc, tbl) && Sym(false, tbl, sym) in its;
      case Extra(_, _) =>
    }
  }

  /** The tables made for a scan list all its symbols: the pass that writes it never meets a symbol
      without a code. */
  lemma SymbolsListed(sc: HuffScan, mcus: seq<Mcu>, s0: HuffSlots, s: HuffSlots)
    requires Fit(sc, mcus) && MadeFor(sc, s0, s, Flat(ScanSegments(sc, mcus)))
    ensures forall i :: 0 <= i < |Flat(ScanSegments(sc, mcus))| ==> Lists(sc, s, Flat(ScanSegments(sc, mcus))[i])
  {
    var its := Flat(ScanSegments(sc, mcus));
    OnlyNeeded(sc, mcus);
    HaveCodesAll(NeededTables(sc), its);
    forall i | 0 <= i < |its|
      ensures Lists(sc, s, its[i])
    {
      ItemListed(sc, s0, s, its, its[i]);
    }
  }
}
