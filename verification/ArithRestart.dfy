/** What a restart is for: whatever comes behind a restart marker depends on the MCUs that follow
    it and on nothing before it. */
module ArithRestart {
  import opened ArithTable
  import opened ArithCoding
  import opened ArithModel
  import opened PointTransform
  import opened Segments

  /** The statistics areas after a restart, without the predicate that selects them: each bin that
      the scan uses holds 0 again, and every other bin what it held. */
  lemma RestartClears(sc: Scan, st: Stats, b: Bin)
    ensures Cleared(sc, st).tab == st.tab
    ensures Stat(Cleared(sc, st), b) ==
            match b
            case DcBin(tbl, _) =>
              if (!sc.progressive || (sc.ss == 0 && sc.ah == 0)) && (exists ci :: 0 <= ci < sc.comps && sc.dcTbl[ci] == tbl)
              then 0 else Stat(st, b)
            case AcBin(tbl, _) =>
              if (if sc.progressive then sc.ss != 0 else sc.limSe != 0) && (exists ci :: 0 <= ci < sc.comps && sc.acTbl[ci] == tbl)
              then 0 else Stat(st, b)
            case FixedBin => Stat(st, b)
  {
    match b
    case DcBin(tbl, _) =>
      assert tbl in sc.dcTbl[..sc.comps] <==> exists ci :: 0 <= ci < sc.comps && sc.dcTbl[ci] == tbl;
    case AcBin(tbl, _) =>
      assert tbl in sc.acTbl[..sc.comps] <==> exists ci :: 0 <= ci < sc.comps && sc.acTbl[ci] == tbl;
    case FixedBin =>
  }

  /** ... and the predictions: each component of the scan starts from 0, in context 0. */
  lemma RestartPredicts(sc: Scan, p: Preds, ci: Component)
    ensures var r := RestartPreds(sc, p);
            if (!sc.progressive || (sc.ss == 0 && sc.ah == 0)) && ci < sc.comps then r.last[ci] == 0 && r.ctx[ci] == 0
            else r.last[ci] == p.last[ci] && r.ctx[ci] == p.ctx[ci]
  {
  }

  // ------------------------------------------------------------------ the bins of a scan

  /** The bin is in DC table dc or AC table ac (which may be -1), or it is fixed_bin. */
  ghost predicate InTables(dc: int, ac: int, b: Bin) {
    match b
    case DcBin(tbl, _) => tbl == dc
    case AcBin(tbl, _) => tbl == ac
    case FixedBin => true
  }

  ghost predicate AllInTables(dc: int, ac: int, ds: seq<Decision>) {
    forall i :: 0 <= i < |ds| ==> InTables(dc, ac, ds[i].bin)
  }

  lemma {:induction false} CategoryInTables(dc: int, ac: int, b: Bin, w: nat)
    requires InTables(dc, ac, b)
    ensures AllInTables(dc, ac, Category(b, w))
    decreases w
  {
    if w / 2 != 0 {
      CategoryInTables(dc, ac, Plus(b, 1), w / 2);
    }
  }

  lemma {:induction false} LowBitsInTables(dc: int, ac: int, b: Bin, n: nat, w: nat)
    requires InTables(dc, ac, b)
    ensures AllInTables(dc, ac, LowBits(b, n, w))
    decreases n
  {
    if n != 0 {
      LowBitsInTables(dc, ac, b, n - 1, w);
    }
  }

  lemma DcInTables(dc: nat, ac: int, ctx: nat, v: int)
    ensures AllInTables(dc, ac, DcDecisions(dc, ctx, v))
  {
    if v != 0 {
      var st, w := ctx + (if v > 0 then 2 else 3), Abs(v) - 1;
      if w != 0 {
        CategoryInTables(dc, ac, DcBin(dc, 20), w);
      }
      LowBitsInTables(dc, ac, Plus(DcLastBin(dc, st, w), 14), Log2(w), w);
    }
  }

  lemma CoefInTables(dc: int, b: Band, k: nat, v: int)
    requires v != 0
    ensures AllInTables(dc, b.tbl, CoefDecisions(b, k, v))
  {
    var st, w := 3 * k + 2, Abs(v) - 1;
    if w / 2 != 0 {
      CategoryInTables(dc, b.tbl, AcBin(b.tbl, if k + 1 <= b.kx then 189 else 217), w / 2);
    }
    LowBitsInTables(dc, b.tbl, Plus(AcLastBin(b.tbl, st, k + 1, b.kx, w), 14), Log2(w), w);
  }

  lemma {:induction false} AcInTables(dc: int, b: Band, z: ZBlock, k: nat, start: bool, ke: nat)
    requires ke <= b.se
    ensures AllInTables(dc, b.tbl, AcDecisions(b, z, k, start, ke))
    decreases ke - k, start
  {
    if k < ke {
      if start {
        AcInTables(dc, b, z, k, false, ke);
      } else {
        var v := Trunc(z[k + 1], b.al);
        AcInTables(dc, b, z, k + 1, v != 0, ke);
        if v != 0 {
          CoefInTables(dc, b, k, v);
        }
      }
    }
  }

  lemma {:induction false} RefineInTables(dc: int, b: Band, z: ZBlock, k: nat, start: bool, kex: nat, ke: nat)
    requires ke <= b.se
    ensures AllInTables(dc, b.tbl, RefineDecisions(b, z, k, start, kex, ke))
    decreases ke - k, start
  {
    if k < ke {
      if start {
        RefineInTables(dc, b, z, k, false, kex, ke);
      } else {
        RefineInTables(dc, b, z, k + 1, Trunc(z[k + 1], b.al) != 0, kex, ke);
      }
    }
  }

  /** A block uses the areas of its own component only, and those only for what the scan codes; apart from
      them there is fixed_bin. */
  lemma BlockInTables(sc: Scan, p: Preds, ci: Component, z: ZBlock)
    ensures AllInTables(if !sc.progressive || (sc.ss == 0 && sc.ah == 0) then sc.dcTbl[ci] else -1,
                        if sc.Last() != 0 then sc.acTbl[ci] else -1, BlockDecisions(sc, p, ci, z))
  {
    var dc: int := if CodesDc(sc) then sc.dcTbl[ci] else -1;
    var ac: int := if sc.Last() != 0 then sc.acTbl[ci] else -1;
    if CodesDc(sc) {
      DcInTables(dc, ac, p.ctx[ci], DcValue(sc, z) - p.last[ci]);
    }
    match sc.Routine()
    case Sequential =>
      if sc.limSe != 0 {
        BandInTables(dc, BandOf(sc, ci), z, 1);
        PartsInTables(dc, ac, DcPart(sc, p, ci, DcValue(sc, z)), AcPart(BandOf(sc, ci), z, 1));
      } else {
        assert DcPart(sc, p, ci, DcValue(sc, z)) + [] == DcPart(sc, p, ci, DcValue(sc, z));
      }
    case DcFirst =>
    case AcFirst => BandInTables(dc, BandOf(sc, ci), z, sc.ss);
    case DcRefine =>
    case AcRefine => BandRefinedInTables(dc, BandOf(sc, ci), z, sc.ss, sc.ah);
  }

  lemma PartsInTables(dc: int, ac: int, a: seq<Decision>, b: seq<Decision>)
    requires AllInTables(dc, ac, a) && AllInTables(dc, ac, b)
    ensures AllInTables(dc, ac, a + b)
  {
  }

  lemma BandInTables(dc: int, b: Band, z: ZBlock, ss: nat)
    requires 1 <= ss
    ensures AllInTables(dc, b.tbl, AcPart(b, z, ss))
  {
    AcInTables(dc, b, z, ss - 1, true, EndOfBlock(z, b.se, b.al));
  }

  lemma BandRefinedInTables(dc: int, b: Band, z: ZBlock, ss: nat, ah: nat)
    requires 1 <= ss
    ensures AllInTables(dc, b.tbl, RefinePart(b, z, ss, ah))
  {
    var ke := EndOfBlock(z, b.se, b.al);
    RefineInTables(dc, b, z, ss - 1, true, EndOfBlock(z, ke, ah), ke);
  }

  /** The bins of larger magnitudes are chosen by the conditioning threshold of the component's table: for a
      coefficient at index k, the fifth decision is made in bin 189 or 217 of its area. */
  lemma ThresholdIsOwn(sc: Scan, ci: Component, k: nat, v: int)
    requires k >= 1 && Abs(v) > 2
    ensures var ds := CoefDecisions(BandOf(sc, ci), k - 1, v);
            |ds| > 4 && ds[4].bin == AcBin(sc.acTbl[ci], if k <= sc.kx[sc.acTbl[ci]] then 189 else 217)
  {
  }

  /** A bin that a restart zeroes, or fixed_bin. */
  ghost predicate Own(sc: Scan, b: Bin) {
    b.FixedBin? || IsCleared(sc, b)
  }

  ghost predicate AllOwn(sc: Scan, ds: seq<Decision>) {
    forall i :: 0 <= i < |ds| ==> Own(sc, ds[i].bin)
  }

  lemma AllOwnConcat(sc: Scan, a: seq<Decision>, b: seq<Decision>)
    requires AllOwn(sc, a) && AllOwn(sc, b)
    ensures AllOwn(sc, a + b)
  {
  }

  lemma AllOwnFirst(sc: Scan, ds: seq<Decision>)
    requires AllOwn(sc, ds) && ds != []
    ensures Own(sc, ds[0].bin) && AllOwn(sc, ds[1..])
  {
  }

  /** A scan uses no bin but those that its restarts zero. */
  lemma BlockOwn(sc: Scan, p: Preds, ci: Component, z: ZBlock)
    requires ci < sc.comps
    ensures AllOwn(sc, BlockDecisions(sc, p, ci, z))
  {
    BlockInTables(sc, p, ci, z);
    assert sc.dcTbl[ci] in sc.dcTbl[..sc.comps] && sc.acTbl[ci] in sc.acTbl[..sc.comps];
  }

  // ------------------------------------------------------------------ two pasts, one future

  /** All blocks are of components in the scan. */
  ghost predicate Within(sc: Scan, ms: seq<Component>) {
    forall i :: 0 <= i < |ms| ==> ms[i] < sc.comps
  }

  /** Two states of the areas that the scan cannot tell apart ... */
  ghost predicate SameStats(sc: Scan, st: Stats, st': Stats) {
    st.tab == st'.tab && forall b {:trigger Own(sc, b)} :: Own(sc, b) ==> Stat(st, b) == Stat(st', b)
  }

  /** ... and two states of the predictions. */
  ghost predicate SamePreds(sc: Scan, p: Preds, p': Preds) {
    CodesDc(sc) ==> forall ci :: 0 <= ci < sc.comps ==> p.last[ci] == p'.last[ci] && p.ctx[ci] == p'.ctx[ci]
  }

  lemma ClearedSame(sc: Scan, st: Stats, st': Stats)
    requires st.tab == st'.tab && Stat(st, FixedBin) == Stat(st', FixedBin)
    ensures SameStats(sc, Cleared(sc, st), Cleared(sc, st'))
  {
  }

  lemma RestartSame(sc: Scan, p: Preds, p': Preds)
    ensures SamePreds(sc, RestartPreds(sc, p), RestartPreds(sc, p'))
  {
  }

  lemma StepSame(sc: Scan, e: ReadyEnc, st: Stats, st': Stats, d: Decision)
    requires SameStats(sc, st, st') && Own(sc, d.bin)
    ensures EncStep(e, st, d).0 == EncStep(e, st', d).0
    ensures SameStats(sc, EncStep(e, st, d).1, EncStep(e, st', d).1)
  {
    assert Stat(st, d.bin) == Stat(st', d.bin) && RowFor(st, d.bin) == RowFor(st', d.bin);
    StoreSame(sc, st, st', d.bin, EncCode(e, RowFor(st, d.bin), Stat(st, d.bin), d.bit).1);
  }

  lemma StoreSame(sc: Scan, st: Stats, st': Stats, b: Bin, v: State)
    requires SameStats(sc, st, st')
    ensures SameStats(sc, Store(st, b, v), Store(st', b, v))
  {
  }

  lemma {:induction false} RunSame(sc: Scan, e: ReadyEnc, st: Stats, st': Stats, ds: seq<Decision>)
    requires SameStats(sc, st, st') && AllOwn(sc, ds)
    ensures EncRun(e, st, ds).0 == EncRun(e, st', ds).0
    ensures SameStats(sc, EncRun(e, st, ds).1, EncRun(e, st', ds).1)
    decreases ds
  {
    if ds != [] {
      AllOwnFirst(sc, ds);
      StepSame(sc, e, st, st', ds[0]);
      var (e1, st1) := EncStep(e, st, ds[0]);
      RunSame(sc, e1, st1, EncStep(e, st', ds[0]).1, ds[1..]);
    }
  }

  lemma SegmentSame(code: SegmentCoder, sc: Scan, st: Stats, st': Stats, ds: seq<Decision>)
    requires IsArith(code) && SameStats(sc, st, st') && AllOwn(sc, ds)
    ensures code(st, ds).0 == code(st', ds).0
    ensures SameStats(sc, code(st, ds).1, code(st', ds).1)
  {
    StartOk();
    RunSame(sc, EncStart, st, st', ds);
    assert code(st, ds) == ArithSegment(st, ds) && code(st', ds) == ArithSegment(st', ds);
  }

  lemma AfterSame(sc: Scan, p: Preds, p': Preds, ci: Component, m: Coef)
    requires SamePreds(sc, p, p') && CodesDc(sc) && ci < sc.comps
    ensures DcPart(sc, p, ci, m) == DcPart(sc, p', ci, m)
    ensures SamePreds(sc, AfterDc(sc, p, ci, m), AfterDc(sc, p', ci, m))
  {
    assert p.last[ci] == p'.last[ci] && p.ctx[ci] == p'.ctx[ci];
  }

  lemma BlockSame(sc: Scan, p: Preds, p': Preds, ci: Component, z: ZBlock)
    requires SamePreds(sc, p, p') && ci < sc.comps
    ensures AllOwn(sc, BlockDecisions(sc, p, ci, z))
    ensures BlockDecisions(sc, p, ci, z) == BlockDecisions(sc, p', ci, z)
    ensures SamePreds(sc, AfterBlock(sc, p, ci, z), AfterBlock(sc, p', ci, z))
  {
    BlockOwn(sc, p, ci, z);
    if CodesDc(sc) {
      AfterSame(sc, p, p', ci, DcValue(sc, z));
    }
  }

  lemma {:induction false} McuSame(sc: Scan, p: Preds, p': Preds, ms: seq<Component>, zs: Mcu)
    requires SamePreds(sc, p, p') && |zs| == |ms| && Within(sc, ms)
    ensures AllOwn(sc, McuDecisions(sc, p, ms, zs))
    ensures McuDecisions(sc, p, ms, zs) == McuDecisions(sc, p', ms, zs)
    ensures SamePreds(sc, AfterMcu(sc, p, ms, zs), AfterMcu(sc, p', ms, zs))
    decreases |zs|
  {
    if zs != [] {
      var ci, z := ms[0], zs[0];
      BlockSame(sc, p, p', ci, z);
      McuSame(sc, AfterBlock(sc, p, ci, z), AfterBlock(sc, p', ci, z), ms[1..], zs[1..]);
      AllOwnConcat(sc, BlockDecisions(sc, p, ci, z), McuDecisions(sc, AfterBlock(sc, p, ci, z), ms[1..], zs[1..]));
    }
  }

  lemma {:induction false} ScanSame(code: SegmentCoder, sc: Scan, st: Stats, st': Stats, done: seq<Decision>,
                                    p: Preds, p': Preds, mcus: seq<Mcu>, togo: nat, num: RestartNum)
    requires IsArith(code) && Within(sc, sc.membership) && Fit(sc, mcus)
    requires SameStats(sc, st, st') && SamePreds(sc, p, p') && AllOwn(sc, done)
    ensures ScanBytes(code, sc, st, done, p, mcus, togo, num) == ScanBytes(code, sc, st', done, p', mcus, togo, num)
    decreases |mcus|, if RestartDue(sc, togo) then 1 else 0
  {
    SegmentSame(code, sc, st, st', done);
    if mcus == [] {
    } else if RestartDue(sc, togo) {
      assert Own(sc, FixedBin);
      ClearedSame(sc, code(st, done).1, code(st', done).1);
      RestartSame(sc, p, p');
      ScanSame(code, sc, Cleared(sc, code(st, done).1), Cleared(sc, code(st', done).1), [],
               RestartPreds(sc, p), RestartPreds(sc, p'), mcus, sc.restartInterval, (num + 1) % 8);
    } else {
      McuSame(sc, p, p', sc.membership, mcus[0]);
      var ds := McuDecisions(sc, p, sc.membership, mcus[0]);
      AllOwnConcat(sc, done, ds);
      ScanSame(code, sc, st, st', done + ds, AfterMcu(sc, p, sc.membership, mcus[0]),
               AfterMcu(sc, p', sc.membership, mcus[0]), mcus[1..], CountDown(sc, togo), num);
    }
  }

  /** The bytes behind a restart marker are the same, whatever was coded before it. */
  lemma RestartForgets(code: SegmentCoder, sc: Scan, st: Stats, st': Stats, p: Preds, p': Preds, mcus: seq<Mcu>,
                       num: RestartNum)
    requires IsArith(code) && Within(sc, sc.membership) && Fit(sc, mcus)
    requires st.tab == st'.tab && Stat(st, FixedBin) == Stat(st', FixedBin)
    ensures ScanBytes(code, sc, Cleared(sc, st), [], RestartPreds(sc, p), mcus, sc.restartInterval, num)
         == ScanBytes(code, sc, Cleared(sc, st'), [], RestartPreds(sc, p'), mcus, sc.restartInterval, num)
  {
    ClearedSame(sc, st, st');
    RestartSame(sc, p, p');
    ScanSame(code, sc, Cleared(sc, st), Cleared(sc, st'), [], RestartPreds(sc, p), RestartPreds(sc, p'), mcus,
             sc.restartInterval, num);
  }
}
