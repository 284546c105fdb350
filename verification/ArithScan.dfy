/** Where the segments of a scan lie in its bytes, and what the decoder may expect in each. */
module ArithScan {
  import opened ArithTable
  import opened ArithCoding
  import opened ArithModel
  import opened ArithRoundTrip
  import opened Segments

  /** The decisions that are still to come in the current segment. */
  function SegmentDecisions(sc: Scan, p: Preds, mcus: seq<Mcu>, togo: nat): seq<Decision>
    decreases |mcus|
  {
    if mcus == [] || RestartDue(sc, togo) || |mcus[0]| != |sc.membership| then []
    else
      McuDecisions(sc, p, sc.membership, mcus[0])
      + SegmentDecisions(sc, AfterMcu(sc, p, sc.membership, mcus[0]), mcus[1..], CountDown(sc, togo))
  }

  /** The MCUs of the later segments. */
  function Later(sc: Scan, mcus: seq<Mcu>, togo: nat): (r: seq<Mcu>)
    ensures Fit(sc, mcus) ==> Fit(sc, r)
    ensures r != [] ==> sc.restartInterval != 0
    decreases |mcus|
  {
    if mcus == [] || RestartDue(sc, togo) then mcus else Later(sc, mcus[1..], CountDown(sc, togo))
  }

  function LaterPreds(sc: Scan, p: Preds, mcus: seq<Mcu>, togo: nat): Preds
    requires Fit(sc, mcus)
    decreases |mcus|
  {
    if mcus == [] || RestartDue(sc, togo) then p
    else LaterPreds(sc, AfterMcu(sc, p, sc.membership, mcus[0]), mcus[1..], CountDown(sc, togo))
  }

  /** The bytes behind the current segment, `st` being the statistics at its end. */
  ghost function LaterBytes(code: SegmentCoder, sc: Scan, st: Stats, p: Preds, mcus: seq<Mcu>, togo: nat,
                            num: RestartNum): seq<Byte>
    requires Fit(sc, mcus)
  {
    ScanBytes(code, sc, Cleared(sc, st), [], RestartPreds(sc, LaterPreds(sc, p, mcus, togo)),
              Later(sc, mcus, togo), sc.restartInterval, (num + 1) % 8)
  }

  /** A segment, and behind a restart marker the rest. */
  ghost function WithLater(code: SegmentCoder, sc: Scan, segment: (seq<Byte>, Stats), p: Preds, mcus: seq<Mcu>,
                           togo: nat, num: RestartNum): seq<Byte>
    requires Fit(sc, mcus)
  {
    if Later(sc, mcus, togo) == [] then segment.0
    else segment.0 + [0xFF, RST0 + num] + LaterBytes(code, sc, segment.1, p, mcus, togo, num)
  }

  lemma LaterMcu(code: SegmentCoder, sc: Scan, segment: (seq<Byte>, Stats), p: Preds, mcus: seq<Mcu>,
                 togo: nat, num: RestartNum)
    requires Fit(sc, mcus) && mcus != [] && !RestartDue(sc, togo)
    ensures WithLater(code, sc, segment, p, mcus, togo, num)
         == WithLater(code, sc, segment, AfterMcu(sc, p, sc.membership, mcus[0]), mcus[1..], CountDown(sc, togo), num)
  {
  }

  /** A scan consists of its segments. */
  lemma {:induction false} ScanSplits(code: SegmentCoder, sc: Scan, st: Stats, done: seq<Decision>, p: Preds,
                                      mcus: seq<Mcu>, togo: nat, num: RestartNum)
    requires Fit(sc, mcus)
    ensures ScanBytes(code, sc, st, done, p, mcus, togo, num)
         == WithLater(code, sc, code(st, done + SegmentDecisions(sc, p, mcus, togo)), p, mcus, togo, num)
    decreases |mcus|
  {
    if mcus == [] || RestartDue(sc, togo) {
      assert done + [] == done;
    } else {
      var ds := McuDecisions(sc, p, sc.membership, mcus[0]);
      var p1 := AfterMcu(sc, p, sc.membership, mcus[0]);
      var later := SegmentDecisions(sc, p1, mcus[1..], CountDown(sc, togo));
      ScanSplits(code, sc, st, done + ds, p1, mcus[1..], CountDown(sc, togo), num);
      AppendLater(done, ds, later);
      LaterMcu(code, sc, code(st, done + (ds + later)), p, mcus, togo, num);
    }
  }

  lemma AppendLater(a: seq<Decision>, b: seq<Decision>, c: seq<Decision>)
    ensures (a + b) + c == a + (b + c)
  {
  }

  function Marker(code: Byte): seq<Byte> {
    [0xFF, code]
  }

  lemma MarkerBehind(bytes: seq<Byte>, mark: Byte, more: seq<Byte>, term: Byte)
    ensures (bytes + [0xFF, mark] + more) + Marker(term) == (bytes + Marker(mark)) + (more + Marker(term))
  {
  }

  /** A marker that a decoder can find. */
  type MarkerByte = b: Byte | 0 < b < 0xFF witness 1

  /** What the decoder works towards: the predictions, the restart counters, the decisions to come
      in the open segment, the end of that segment (its goal, its marker, and where the input
      continues), and the marker `term` behind the scan. */
  datatype Outlook = Outlook(code: SegmentCoder, term: MarkerByte, p: Preds, togo: nat, num: RestartNum,
                             todo: seq<Decision>, goal: Goal, mark: Byte, behind: nat)

  /** Behind its marker the input holds the rest of the scan. */
  ghost predicate ExpectsNow(o: Outlook, sc: Scan, raw: seq<Byte>, mcus: seq<Mcu>, term: MarkerByte) {
    && Fit(sc, mcus)
    && o.todo == SegmentDecisions(sc, o.p, mcus, o.togo)
    && if Later(sc, mcus, o.togo) == [] then o.mark == term
       else o.mark == RST0 + o.num
            && At(raw, o.behind, LaterBytes(o.code, sc, o.goal.1, o.p, mcus, o.togo, o.num) + Marker(term))
  }

  /** The same, unfolded only by the lemmas below. */
  ghost predicate Expects(o: Outlook, sc: Scan, raw: seq<Byte>, mcus: seq<Mcu>) {
    forall t {:trigger ExpectsNow(o, sc, raw, mcus, t)} :: t == o.term ==> ExpectsNow(o, sc, raw, mcus, t)
  }

  /** After the last MCU comes the marker behind the scan. */
  lemma ExpectsEnd(o: Outlook, sc: Scan, raw: seq<Byte>)
    requires Expects(o, sc, raw, [])
    ensures o.mark == o.term
  {
    assert ExpectsNow(o, sc, raw, [], o.term);
  }

  /** The outlook after the next MCU. */
  lemma ExpectsMcu(o: Outlook, sc: Scan, raw: seq<Byte>, mcus: seq<Mcu>) returns (o1: Outlook)
    requires mcus != [] && !RestartDue(sc, o.togo) && Expects(o, sc, raw, mcus)
    ensures |mcus[0]| == |sc.membership| && Expects(o1, sc, raw, mcus[1..])
    ensures o.todo == McuDecisions(sc, o.p, sc.membership, mcus[0]) + o1.todo
    ensures o1 == o.(p := AfterMcu(sc, o.p, sc.membership, mcus[0]), togo := CountDown(sc, o.togo), todo := o1.todo)
  {
    assert ExpectsNow(o, sc, raw, mcus, o.term);
    var p1 := AfterMcu(sc, o.p, sc.membership, mcus[0]);
    o1 := o.(p := p1, togo := CountDown(sc, o.togo), todo := SegmentDecisions(sc, p1, mcus[1..], CountDown(sc, o.togo)));
  }

  lemma ExpectsMarker(o: Outlook, sc: Scan, raw: seq<Byte>, mcus: seq<Mcu>)
    requires mcus != [] && RestartDue(sc, o.togo) && Expects(o, sc, raw, mcus)
    ensures o.mark == RST0 + o.num && o.todo == []
    ensures Starts(o.code, sc, raw, o.behind, Cleared(sc, o.goal.1), RestartPreds(sc, o.p), mcus, (o.num + 1) % 8, o.term)
  {
    assert ExpectsNow(o, sc, raw, mcus, o.term);
  }

  /** A segment starts at position pos, with the statistics st and the predictions p. */
  ghost predicate Starts(code: SegmentCoder, sc: Scan, raw: seq<Byte>, pos: nat, st: Stats, p: Preds, mcus: seq<Mcu>,
                         num: RestartNum, term: MarkerByte)
  {
    && Fit(sc, mcus)
    && At(raw, pos, ScanBytes(code, sc, st, [], p, mcus, sc.restartInterval, num) + Marker(term))
  }

  /** At the start of a segment, the unstuffed input holds the answers to its decisions. */
  lemma OpenSegment(code: SegmentCoder, sc: Scan, raw: seq<Byte>, pos: nat, st: Stats, p: Preds, mcus: seq<Mcu>,
                    num: RestartNum, term: MarkerByte) returns (o: Outlook)
    requires IsArith(code) && Starts(code, sc, raw, pos, st, p, mcus, num, term)
    ensures pos <= |raw| && MarkerFrom(raw, pos) < |raw|
    ensures o.code == code && o.term == term && o.p == p && o.togo == sc.restartInterval && o.num == num
    ensures o.mark == raw[MarkerFrom(raw, pos)] && o.behind == MarkerFrom(raw, pos) + 1
    ensures Answers(DecStart(DataFrom(raw, pos)), st, o.todo, o.goal.0, o.goal.1)
    ensures Expects(o, sc, raw, mcus)
  {
    var togo := sc.restartInterval;
    var ds := SegmentDecisions(sc, p, mcus, togo);
    var mark := OpenData(code, sc, raw, pos, st, p, mcus, num, term);
    var d1 := RoundTrip(st, ds);
    o := Outlook(code, term, p, togo, num, ds, (d1, SegmentRun(st, ds).1), mark, MarkerFrom(raw, pos) + 1);
    assert ExpectsNow(o, sc, raw, mcus, term);
  }

  /** The data of the first segment as the decoder reads it, its marker, and what comes behind that. */
  lemma OpenData(code: SegmentCoder, sc: Scan, raw: seq<Byte>, pos: nat, st: Stats, p: Preds, mcus: seq<Mcu>,
                 num: RestartNum, term: MarkerByte) returns (mark: Byte)
    requires IsArith(code) && Starts(code, sc, raw, pos, st, p, mcus, num, term)
    ensures pos <= |raw| && MarkerFrom(raw, pos) < |raw| && mark == raw[MarkerFrom(raw, pos)]
    ensures var togo := sc.restartInterval;
            var (e, st1) := SegmentRun(st, SegmentDecisions(sc, p, mcus, togo));
            && DataFrom(raw, pos) == Finish(e)
            && if Later(sc, mcus, togo) == [] then mark == term
               else mark == RST0 + num
                    && At(raw, MarkerFrom(raw, pos) + 1, LaterBytes(code, sc, st1, p, mcus, togo, num) + Marker(term))
  {
    mark := OpenBytes(code, sc, raw, pos, st, p, mcus, num, term);
    Unstuff(Finish(SegmentRun(st, SegmentDecisions(sc, p, mcus, sc.restartInterval)).0), mark, raw, pos);
  }

  /** The bytes of the first segment, its marker, and what comes behind that. */
  lemma OpenBytes(code: SegmentCoder, sc: Scan, raw: seq<Byte>, pos: nat, st: Stats, p: Preds, mcus: seq<Mcu>,
                  num: RestartNum, term: MarkerByte) returns (mark: Byte)
    requires IsArith(code) && Starts(code, sc, raw, pos, st, p, mcus, num, term)
    ensures var togo := sc.restartInterval;
            var (e, st1) := SegmentRun(st, SegmentDecisions(sc, p, mcus, togo));
            var t := Stuff(Finish(e)) + Marker(mark);
            && At(raw, pos, t)
            && if Later(sc, mcus, togo) == [] then mark == term
               else mark == RST0 + num && At(raw, pos + |t|, LaterBytes(code, sc, st1, p, mcus, togo, num) + Marker(term))
  {
    var togo := sc.restartInterval;
    var ds, later := SegmentDecisions(sc, p, mcus, togo), Later(sc, mcus, togo);
    var data := Finish(SegmentRun(st, ds).0);
    var st1 := SegmentRun(st, ds).1;
    mark := if later == [] then term else RST0 + num;
    ScanSplits(code, sc, st, [], p, mcus, togo, num);
    assert [] + ds == ds;
    assert code(st, ds) == ArithSegment(st, ds);
    if later == [] {
      AtDrop(raw, pos, Stuff(data) + Marker(mark), []) by {
        assert Stuff(data) + Marker(mark) + [] == Stuff(data) + Marker(mark);
      }
    } else {
      var more := LaterBytes(code, sc, st1, p, mcus, togo, num);
      MarkerBehind(Stuff(data), mark, more, term);
      AtDrop(raw, pos, Stuff(data) + Marker(mark), more + Marker(term));
    }
  }
}
