/** The Huffman encoder over a whole scan (jchuff.c): start_pass, the MCUs with the restart markers
    between them, and the end of the pass; the same in a gathering pass, which only counts. */
module HuffmanScanEncoder {
  import opened ArithTable
  import opened ArithModel
  import opened Segments
  import opened HuffmanItems
  import opened HuffmanEncoder
  import opened HuffmanScan

  /** All coefficients of the MCUs can be coded; `togo` MCUs are left in the open segment. */
  predicate AllInRange(sc: HuffScan, last: DcValues, mcus: seq<Mcu>, togo: nat)
    requires Fit(sc, mcus)
    decreases |mcus|, if RestartDue(sc, togo) then 1 else 0
  {
    if mcus == [] then true
    else if RestartDue(sc, togo) then AllInRange(sc, NOTHING.last, mcus, sc.restartInterval)
    else
      && OneInRange(sc, last, mcus[0])
      && AllInRange(sc, LastBehind(sc, last, mcus[0]), mcus[1..], CountDown(sc, togo))
  }

  predicate OneInRange(sc: HuffScan, last: DcValues, zs: Mcu)
    requires |zs| == |sc.membership|
  {
    match sc.Routine()
    case AcFirst => InRange(zs[0], sc.al, sc.ss, sc.se)
    case AcRefine => true
    case _ => McuInRange(sc, last, sc.membership, zs)
  }

  function LastBehind(sc: HuffScan, last: DcValues, zs: Mcu): DcValues
    requires |zs| == |sc.membership|
  {
    LastAfter(sc, last, sc.membership, zs)
  }

  lemma {:induction false} LastElsewhere(sc: HuffScan, last: DcValues, ms: seq<Component>, zs: Mcu, ci: Component)
    requires |ms| == |zs| && forall j :: 0 <= j < |ms| ==> ms[j] != ci
    ensures LastAfter(sc, last, ms, zs)[ci] == last[ci]
    decreases |zs|
  {
    if zs != [] {
      LastElsewhere(sc, NextLast(sc, last, ms[0], zs[0]), ms[1..], zs[1..], ci);
    }
  }

  /** The components that do not take part in the scan have prediction 0. */
  ghost predicate OthersZero(sc: HuffScan, last: DcValues) {
    forall ci: Component :: ci >= sc.comps ==> last[ci] == 0
  }

  lemma OthersStayZero(sc: HuffScan, last: DcValues, zs: Mcu)
    requires OthersZero(sc, last) && |zs| == |sc.membership|
    ensures OthersZero(sc, LastBehind(sc, last, zs))
  {
    forall ci: Component | ci >= sc.comps
      ensures LastBehind(sc, last, zs)[ci] == 0
    {
      LastElsewhere(sc, last, sc.membership, zs, ci);
    }
  }

  /** What the scan is to send, and whether its coefficients can be coded. */
  datatype ScanGoal = ScanGoal(lists: seq<seq<Item>>, inRange: bool)

  /** The encoder's position in the scan. */
  datatype Place = Place(segs: seq<Seg>, items: seq<Item>, s: Carried, togo: nat)

  ghost predicate AimsNow(sc: HuffScan, p: Place, mcus: seq<Mcu>, goal: ScanGoal, n: nat) {
    && n == 0 && Fit(sc, mcus) && OthersZero(sc, p.s.last)
    && goal.lists == ItemLists(p.segs) + Plan(sc, p.items, p.s, mcus, p.togo)
    && goal.inRange == AllInRange(sc, p.s.last, mcus, p.togo)
    && (IsAc(sc) ==> sc.membership == [0])
  }

  /** With these MCUs to come, the goal is reached (unfolded only on demand). */
  ghost predicate Aims(sc: HuffScan, p: Place, mcus: seq<Mcu>, goal: ScanGoal) {
    forall n {:trigger AimsNow(sc, p, mcus, goal, n)} :: n == 0 ==> AimsNow(sc, p, mcus, goal, n)
  }

  lemma AimsAtMcu(sc: HuffScan, p: Place, mcus: seq<Mcu>, goal: ScanGoal) returns (part: seq<Mcu>)
    requires Aims(sc, p, mcus, goal) && mcus != [] && !RestartDue(sc, p.togo)
    ensures Fit(sc, mcus) && |mcus[0]| == |sc.membership| && Fit(sc, part) && part != [] && part[0] == mcus[0]
    ensures part == mcus[..InSegment(sc, mcus, p.togo)]
    ensures goal.inRange ==> OneInRange(sc, p.s.last, mcus[0])
  {
    assert AimsNow(sc, p, mcus, goal, 0);
    part := mcus[..InSegment(sc, mcus, p.togo)];
  }

  lemma AimsBehindMcu(sc: HuffScan, p: Place, mcus: seq<Mcu>, goal: ScanGoal, part: seq<Mcu>, p1: Place)
    requires Aims(sc, p, mcus, goal) && mcus != [] && !RestartDue(sc, p.togo) && Fit(sc, mcus)
    requires part == mcus[..InSegment(sc, mcus, p.togo)] && part != [] && Fit(sc, part)
    requires |mcus[0]| == |sc.membership| && OneInRange(sc, p.s.last, mcus[0])
    requires p1.segs == p.segs && p1.togo == CountDown(sc, p.togo)
    requires p1.s.last == LastBehind(sc, p.s.last, mcus[0])
    requires p1.items + Owed(sc, p1.s, part[1..]) == p.items + Owed(sc, p.s, part)
    ensures Aims(sc, p1, mcus[1..], goal)
  {
    assert AimsNow(sc, p, mcus, goal, 0);
    PlanMcu(sc, p.items, p.s, mcus, p.togo, p1.items, p1.s);
    OthersStayZero(sc, p.s.last, mcus[0]);
    assert AimsNow(sc, p1, mcus[1..], goal, 0);
  }

  lemma AimsBehindMarker(sc: HuffScan, p: Place, mcus: seq<Mcu>, goal: ScanGoal, seg: Seg, p1: Place)
    requires Aims(sc, p, mcus, goal) && mcus != [] && RestartDue(sc, p.togo)
    requires Fit(sc, []) && seg.items == p.items + Owed(sc, p.s, [])
    requires p1.segs == p.segs + [seg] && p1.items == [] && p1.togo == sc.restartInterval && OthersZero(sc, p1.s.last)
    requires if IsAc(sc) then p1.s.e == 0 && p1.s.be == [] && p1.s.last == p.s.last else p1.s.last == NOTHING.last
    ensures Aims(sc, p1, mcus, goal)
  {
    assert AimsNow(sc, p, mcus, goal, 0);
    PlanRestart(sc, p.items, p.s, mcus, p.togo);
    FreshPlan(sc, p1.s, mcus);
    ListsGrow(ItemLists(p.segs), p.segs, seg, Plan(sc, [], p1.s, mcus, p1.togo));
    if IsAc(sc) {
      RangeIgnoresLast(sc, NOTHING.last, p1.s.last, mcus, sc.restartInterval);
    }
    assert AimsNow(sc, p1, mcus, goal, 0);
  }

  lemma FreshPlan(sc: HuffScan, s: Carried, mcus: seq<Mcu>)
    requires Fit(sc, mcus) && if IsAc(sc) then s.e == 0 && s.be == [] else s.last == NOTHING.last
    ensures Plan(sc, [], s, mcus, sc.restartInterval) == Plan(sc, [], NOTHING, mcus, sc.restartInterval)
  {
    var n := InSegment(sc, mcus, sc.restartInterval);
    assert Owed(sc, s, mcus[..n]) == Owed(sc, NOTHING, mcus[..n]);
  }

  lemma ListsGrow(lists: seq<seq<Item>>, segs: seq<Seg>, seg: Seg, more: seq<seq<Item>>)
    requires lists == ItemLists(segs)
    ensures lists + ([seg.items] + more) == ItemLists(segs + [seg]) + more
  {
  }

  /** Scans of AC coefficients make no predictions. */
  lemma {:induction false} RangeIgnoresLast(sc: HuffScan, last: DcValues, last1: DcValues, mcus: seq<Mcu>, togo: nat)
    requires Fit(sc, mcus) && IsAc(sc)
    ensures AllInRange(sc, last, mcus, togo) == AllInRange(sc, last1, mcus, togo)
    decreases |mcus|, if RestartDue(sc, togo) then 1 else 0
  {
    if mcus != [] && !RestartDue(sc, togo) {
      RangeIgnoresLast(sc, LastBehind(sc, last, mcus[0]), LastBehind(sc, last1, mcus[0]), mcus[1..], CountDown(sc, togo));
    }
  }

  lemma MarkedMore(segs: seq<Seg>, seg: Seg, start: seq<Byte>)
    ensures start + Marked(segs + [seg]) == (start + Marked(segs)) + WithMarker(seg, |segs|)
  {
    var all := segs + [seg];
    assert all[..|segs|] == segs && all[|segs|] == seg;
    MarkerAppended(start, Marked(segs), WithMarker(seg, |segs|));
  }

  ghost predicate AllCarry(t: Tables, segs: seq<Seg>) {
    segs == [] || (AllCarry(t, segs[..|segs| - 1]) && Carries(t, segs[|segs| - 1]))
  }

  lemma AllCarryMore(t: Tables, segs: seq<Seg>, seg: Seg)
    requires AllCarry(t, segs) && Carries(t, seg)
    ensures AllCarry(t, segs + [seg])
  {
    assert (segs + [seg])[..|segs|] == segs;
  }

  lemma {:induction false} IsCarried(t: Tables, segs: seq<Seg>, i: nat)
    requires AllCarry(t, segs) && i < |segs|
    ensures Carries(t, segs[i])
  {
    if i < |segs| - 1 {
      IsCarried(t, segs[..|segs| - 1], i);
    }
  }

  lemma SentGrows(sent0: seq<Byte>, sent1: seq<Byte>, start: seq<Byte>, segs: seq<Seg>, seg: Seg, num: RestartNum)
    requires sent0 == start + Marked(segs) && num == |segs| % 8
    requires sent1 == sent0 + Stuff(seg.data) + [0xFF, RST0 + num]
    ensures sent1 == start + Marked(segs + [seg])
  {
    MarkerAppended(sent0, Stuff(seg.data), [0xFF, RST0 + num]);
    MarkedMore(segs, seg, start);
  }

  lemma FlatMore(segs: seq<Seg>, seg: Seg)
    ensures Flat(ItemLists(segs + [seg])) == Flat(ItemLists(segs)) + seg.items
  {
    assert ItemLists(segs + [seg])[..|segs|] == ItemLists(segs);
  }

  lemma MarkerAppended(before: seq<Byte>, data: seq<Byte>, marker: seq<Byte>)
    ensures (before + data) + marker == before + (data + marker)
  {
  }

  class ScanEncoder {
    const enc: HuffEncoder
    var restartsToGo: nat
    var nextRestartNum: RestartNum
    ghost var segs: seq<Seg>           // the segments that have been closed
    ghost const start: seq<Byte>       // what had been sent before the scan

    /** start_pass_huff: the encoder is new. */
    constructor (enc: HuffEncoder, scan: HuffScan, ghost mcus: seq<Mcu>)
      requires enc.Valid() && enc.items == enc.earlier == [] && enc.eobrun == enc.be == 0 && !enc.badCoef
      requires enc.lastDcVal == NOTHING.last && enc.sink.trace == []
      requires Fit(scan, mcus) && (IsAc(scan) ==> scan.membership == [0] && enc.acTbl == AcNo(scan, 0))
      ensures this.enc == enc && start == enc.sent
      ensures Promises(scan, mcus, ScanGoal(ScanSegments(scan, mcus),
                                            AllInRange(scan, NOTHING.last, mcus, scan.restartInterval)))
    {
      this.enc := enc;
      start, segs := enc.sent, [];
      restartsToGo, nextRestartNum := scan.restartInterval, 0;
      new;
      assert start + [] == start;
      assert enc.CorrBits() == [];
      var goal := ScanGoal(ScanSegments(scan, mcus), AllInRange(scan, NOTHING.last, mcus, scan.restartInterval));
      assert ItemLists([]) + ScanSegments(scan, mcus) == ScanSegments(scan, mcus);
      assert AimsNow(scan, Standing(), mcus, goal, 0);
      assert SentNow(0);
    }

    ghost function Standing(): Place
      requires enc.be <= enc.bitBuffer.Length
      reads this, enc, enc.bitBuffer
    {
      Place(segs, enc.items, Carried(enc.lastDcVal, enc.eobrun, enc.CorrBits()), restartsToGo)
    }

    /** What has been sent, or counted. */
    ghost predicate SentNow(n: nat)
      reads this`segs, this`nextRestartNum, enc`earlier, enc`sent
    {
      && n == 0 && nextRestartNum == |segs| % 8 && enc.earlier == Flat(ItemLists(segs))
      && (!enc.gather ==> enc.sent == start + Marked(segs)
                          && AllCarry(enc.tables, segs))
    }

    ghost predicate Sent()
      reads this`segs, this`nextRestartNum, enc`earlier, enc`sent
    {
      forall n {:trigger SentNow(n)} :: n == 0 ==> SentNow(n)
    }

    ghost predicate Ready(scan: HuffScan)
      reads this, enc, enc.sink, enc.counts, enc.counts.dc, enc.counts.ac
    {
      && enc.Valid() && enc.RunOk() && Sent()
      && (if IsAc(scan) then enc.acTbl == AcNo(scan, 0) else enc.eobrun == 0)
    }

    /** With these MCUs to come, the goal will be reached. */
    ghost predicate Promises(scan: HuffScan, mcus: seq<Mcu>, goal: ScanGoal)
      reads this, enc, enc.sink, enc.counts, enc.counts.dc, enc.counts.ac, enc.bitBuffer
    {
      Ready(scan) && Aims(scan, Standing(), mcus, goal)
    }

    /** emit_restart_s or emit_restart_e, and the restart counters. */
    method EmitRestart(scan: HuffScan, ghost mcus: seq<Mcu>, ghost goal: ScanGoal)
      requires Promises(scan, mcus, goal) && mcus != [] && RestartDue(scan, restartsToGo)
      modifies this, enc, enc.sink, enc.counts, enc.counts.dc, enc.counts.ac
      ensures Promises(scan, mcus, goal) && !RestartDue(scan, restartsToGo) && enc.badCoef == old(enc.badCoef)
    {
      ghost var p := Standing();
      OpenFacts(scan, p, mcus, goal);
      ghost var seg := CloseSegment(scan);
      ResetPredictions(scan);
      restartsToGo := scan.restartInterval;
      AimsBehindMarker(scan, p, mcus, goal, seg, Standing());
    }

    lemma OpenFacts(scan: HuffScan, p: Place, mcus: seq<Mcu>, goal: ScanGoal)
      requires Aims(scan, p, mcus, goal)
      ensures Fit(scan, mcus) && OthersZero(scan, p.s.last)
    {
      assert AimsNow(scan, p, mcus, goal, 0);
    }

    /** The ends of band that are pending, the padding, and the marker. */
    method CloseSegment(scan: HuffScan) returns (ghost seg: Seg)
      requires Ready(scan)
      modifies this`segs, this`nextRestartNum, enc`items, enc`earlier, enc`sent, enc`badCode, enc`eobrun, enc`be,
               enc.sink, enc.counts, enc.counts.dc, enc.counts.ac
      ensures Ready(scan) && enc.items == [] && enc.eobrun == enc.be == 0 && enc.CorrBits() == []
      ensures segs == old(segs) + [seg]
      ensures seg.items == old(enc.items + Owed(scan, Carried(enc.lastDcVal, enc.eobrun, enc.CorrBits()), []))
    {
      FinishItems(scan);
      seg := SendMarker();
    }

    /** emit_eobrun: nothing is pending any more. */
    method FinishItems(scan: HuffScan)
      requires Ready(scan)
      modifies enc`items, enc`badCode, enc`eobrun, enc`be, enc.sink, enc.counts, enc.counts.dc, enc.counts.ac
      ensures enc.Valid() && enc.eobrun == enc.be == 0 && enc.CorrBits() == [] && Sent()
      ensures enc.items == old(enc.items + Owed(scan, Carried(enc.lastDcVal, enc.eobrun, enc.CorrBits()), []))
    {
      ghost var items0 := enc.items;
      assert items0 + [] == items0;
      enc.EmitEobrun();
    }

    method SendMarker() returns (ghost seg: Seg)
      requires enc.Valid() && Sent()
      modifies this`segs, this`nextRestartNum, enc`items, enc`earlier, enc`sent, enc.sink
      ensures enc.Valid() && Sent() && enc.items == [] && segs == old(segs) + [seg] && seg.items == old(enc.items)
    {
      assert SentNow(0);
      seg := enc.EmitMarker(nextRestartNum);
      Record(seg, old(enc.sent));
    }

    /** The restart counter steps on; the closed segment is kept. */
    method Record(ghost seg: Seg, ghost sent: seq<Byte>)
      requires enc.earlier == Flat(ItemLists(segs)) + seg.items && nextRestartNum == |segs| % 8
      requires !enc.gather ==> sent == start + Marked(segs) && AllCarry(enc.tables, segs) && Carries(enc.tables, seg)
                               && enc.sent == sent + Stuff(seg.data) + [0xFF, RST0 + nextRestartNum]
      modifies this`segs, this`nextRestartNum
      ensures Sent() && segs == old(segs) + [seg]
    {
      if !enc.gather {
        SentGrows(sent, enc.sent, start, segs, seg, nextRestartNum);
        AllCarryMore(enc.tables, segs, seg);
      }
      FlatMore(segs, seg);
      segs := segs + [seg];
      nextRestartNum := (nextRestartNum + 1) % 8;
      assert SentNow(0);
    }

    method ResetPredictions(scan: HuffScan)
      requires OthersZero(scan, enc.lastDcVal)
      modifies enc`lastDcVal
      ensures OthersZero(scan, enc.lastDcVal)
      ensures enc.lastDcVal == if scan.ss == 0 then NOTHING.last else old(enc.lastDcVal)
    {
      if scan.ss == 0 {
        for ci := 0 to scan.comps
          invariant forall i: Component :: enc.lastDcVal[i] == if i < ci then 0 else old(enc.lastDcVal[i])
        {
          enc.lastDcVal := enc.lastDcVal[ci := 0];
        }
        assert enc.lastDcVal == NOTHING.last by {
          forall i: Component
            ensures enc.lastDcVal[i] == NOTHING.last[i] == 0
          {
          }
        }
      }
    }

    /** encode_mcu and its variants. */
    method EncodeMcu(scan: HuffScan, blocks: seq<array<Coef>>, ghost mcus: seq<Mcu>, ghost goal: ScanGoal)
      requires Promises(scan, mcus, goal) && mcus != [] && enc.Shows(scan, blocks, mcus[0]) && !enc.badCoef
      requires forall j :: 0 <= j < |blocks| ==> blocks[j].Length == 64
      modifies this, enc, enc.sink, enc.counts, enc.counts.dc, enc.counts.ac, enc.bitBuffer
      ensures if enc.badCoef then !goal.inRange else Promises(scan, mcus[1..], goal)
    {
      if scan.restartInterval != 0 {
        if restartsToGo == 0 {
          EmitRestart(scan, mcus, goal);
        }
      }
      EncodeNextMcu(scan, blocks, mcus, goal);
    }

    method EncodeNextMcu(scan: HuffScan, blocks: seq<array<Coef>>, ghost mcus: seq<Mcu>, ghost goal: ScanGoal)
      requires Promises(scan, mcus, goal) && mcus != [] && enc.Shows(scan, blocks, mcus[0]) && !enc.badCoef
      requires !RestartDue(scan, restartsToGo)
      modifies this, enc, enc.sink, enc.counts, enc.counts.dc, enc.counts.ac, enc.bitBuffer
      ensures if enc.badCoef then !goal.inRange else Promises(scan, mcus[1..], goal)
    {
      ghost var p := Standing();
      ghost var part := AimsAtMcu(scan, p, mcus, goal);
      assert SentNow(0);
      EncodeBlocks(scan, blocks, part);
      if enc.badCoef {
        return;
      }
      if scan.restartInterval != 0 {
        restartsToGo := restartsToGo - 1;
      }
      assert SentNow(0);
      AimsBehindMcu(scan, p, mcus, goal, part, Standing());
    }

    /** finish_pass_huff; finish_pass_gather up to the point where the tables are generated. */
    method FinishPass(scan: HuffScan, ghost goal: ScanGoal) returns (ghost all: seq<Seg>)
      requires Promises(scan, [], goal)
      modifies enc`items, enc`badCode, enc`eobrun, enc`be, enc.sink, enc.counts, enc.counts.dc, enc.counts.ac
      ensures goal.inRange && all != [] && ItemLists(all) == goal.lists && enc.counts.Valid()
      ensures AllUsable(Flat(goal.lists))
      ensures if enc.gather then enc.counts.seen == Flat(goal.lists)
              else && enc.sink.dest == start + SegmentBytes(all)
                   && (enc.badCode <==> !HaveCodes(enc.tables, Flat(goal.lists)))
                   && forall i :: 0 <= i < |all| ==> Carries(enc.tables, all[i])
    {
      AimsEnd(scan, Standing(), goal);
      FinishItems(scan);
      assert AllUsable(enc.earlier + enc.items) by {
        assert enc.CodedAs(enc.items);
      }
      ghost var seg := enc.Flush();
      assert SentNow(0);
      FlatMore(segs, seg);
      LastSegment(segs, seg, start);
      if !enc.gather {
        AllCarryMore(enc.tables, segs, seg);
        forall i | 0 <= i < |segs| + 1
          ensures Carries(enc.tables, (segs + [seg])[i])
        {
          IsCarried(enc.tables, segs + [seg], i);
        }
      }
      all := segs + [seg];
    }

    /** The blocks of an MCU, the first one of those that remain in the segment. */
    method EncodeBlocks(scan: HuffScan, blocks: seq<array<Coef>>, ghost part: seq<Mcu>)
      requires Ready(scan) && Fit(scan, part) && part != [] && enc.Shows(scan, blocks, part[0]) && !enc.badCoef
      requires IsAc(scan) ==> scan.membership == [0]
      modifies enc`items, enc`badCode, enc`badCoef, enc`eobrun, enc`be, enc`lastDcVal,
               enc.sink, enc.counts, enc.counts.dc, enc.counts.ac, enc.bitBuffer
      ensures Ready(scan) && enc.badCoef == !OneInRange(scan, old(enc.lastDcVal), part[0])
      ensures !enc.badCoef ==>
                && enc.lastDcVal == LastBehind(scan, old(enc.lastDcVal), part[0])
                && enc.items + Owed(scan, Carried(enc.lastDcVal, enc.eobrun, enc.CorrBits()), part[1..])
                   == old(enc.items + Owed(scan, Carried(enc.lastDcVal, enc.eobrun, enc.CorrBits()), part))
    {
      ghost var rest, items0, last0 := part[1..], enc.items, enc.lastDcVal;
      if IsAc(scan) {
        BandsHead(scan, part);
        LastStays(scan, enc.lastDcVal, part[0]);
        EncodeBand(scan, blocks[0], Bands(scan, rest));
      } else {
        enc.EncodeBlocks(scan, blocks, part[0]);
        ItemsAssoc(items0, McuItems(scan, last0, scan.membership, part[0]), McusItems(scan, enc.lastDcVal, rest));
      }
    }

    method EncodeBand(scan: HuffScan, block: array<Coef>, ghost bs: seq<BandItems>)
      requires enc.Valid() && enc.RunOk() && enc.acTbl == AcNo(scan, 0) && IsAc(scan) && block.Length == 64 && !enc.badCoef
      modifies enc`items, enc`badCode, enc`badCoef, enc`eobrun, enc`be,
               enc.sink, enc.counts, enc.counts.dc, enc.counts.ac, enc.bitBuffer
      ensures enc.Valid() && enc.RunOk()
      ensures var z := ZigZag(scan, old(block[..]));
              && enc.badCoef == !OneInRange(scan, enc.lastDcVal, [z])
              && (!enc.badCoef ==> enc.items + Coming(enc.acTbl, bs, enc.eobrun, enc.CorrBits())
                                     == old(enc.Promised(BandOfBlock(scan, z), bs)))
    {
      if scan.Routine().AcFirst? {
        enc.EncodeAcFirst(scan, block, bs);
      } else {
        enc.EncodeAcRefine(scan, block, bs);
      }
    }
  }

  lemma PlanEnds(sc: HuffScan, items: seq<Item>, s: Carried, togo: nat)
    requires Fit(sc, [])
    ensures Plan(sc, items, s, [], togo) == [items + Owed(sc, s, [])]
  {
    var none: seq<Mcu> := [];
    assert none[..0] == [] && none[0..] == [];
  }

  lemma AimsEnd(sc: HuffScan, p: Place, goal: ScanGoal)
    requires Aims(sc, p, [], goal)
    ensures Fit(sc, []) && goal.inRange && goal.lists == ItemLists(p.segs) + [p.items + Owed(sc, p.s, [])]
  {
    assert AimsNow(sc, p, [], goal, 0);
    PlanEnds(sc, p.items, p.s, p.togo);
  }

  lemma LastSegment(segs: seq<Seg>, seg: Seg, start: seq<Byte>)
    ensures ItemLists(segs + [seg]) == ItemLists(segs) + [seg.items]
    ensures start + SegmentBytes(segs + [seg]) == (start + Marked(segs)) + Stuff(seg.data)
  {
    assert (segs + [seg])[..|segs|] == segs;
    MarkerAppended(start, Marked(segs), Stuff(seg.data));
  }

  lemma BandsHead(sc: HuffScan, part: seq<Mcu>)
    requires IsAc(sc) && Fit(sc, part) && part != [] && sc.membership == [0]
    ensures Bands(sc, part) == [BandOfBlock(sc, part[0][0])] + Bands(sc, part[1..])
  {
  }

  lemma {:induction false} LastStays(sc: HuffScan, last: DcValues, zs: Mcu)
    requires IsAc(sc) && |zs| == |sc.membership| == 1
    ensures LastBehind(sc, last, zs) == last
  {
    assert LastAfter(sc, NextLast(sc, last, sc.membership[0], zs[0]), sc.membership[1..], zs[1..]) == last;
  }
}
