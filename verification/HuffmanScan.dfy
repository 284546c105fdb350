/** The segments of a scan that is Huffman coded, as lists of items. */
module HuffmanScan {
  import opened ArithTable
  import opened ArithModel
  import opened PointTransform
  import opened Segments
  import opened HuffmanItems
  import opened HuffmanEncoder

  /** What the encoder carries from one MCU to the next. */
  datatype Carried = Carried(last: DcValues, e: nat, be: seq<Bit>)

  const NOTHING := Carried([0, 0, 0, 0], 0, [])

  /** The band of a block in a scan of AC coefficients. */
  function BandOfBlock(sc: HuffScan, z: ZBlock): BandItems {
    if sc.Routine().AcFirst? then FirstItems(AcNo(sc, 0), z, sc.al, sc.ss, sc.se, 0)
    else RefineItems(AcNo(sc, 0), z, sc.al, sc.ss, sc.se, 0, [], LastNew(z, sc.al, sc.ss, sc.se))
  }

  /** The bands of MCUs of one block each. */
  function Bands(sc: HuffScan, mcus: seq<Mcu>): (bs: seq<BandItems>)
    requires IsAc(sc) && Fit(sc, mcus)
    ensures |bs| == |mcus| && forall i :: 0 <= i < |bs| ==> bs[i] == BandOfBlock(sc, mcus[i][0])
  {
    seq(|mcus|, i requires 0 <= i < |mcus| => BandOfBlock(sc, mcus[i][0]))
  }

  function McusItems(sc: HuffScan, last: DcValues, mcus: seq<Mcu>): seq<Item>
    requires Fit(sc, mcus)
    decreases |mcus|
  {
    if mcus == [] then []
    else McuItems(sc, last, sc.membership, mcus[0])
         + McusItems(sc, LastAfter(sc, last, sc.membership, mcus[0]), mcus[1..])
  }

  /** What is still to be coded in a segment, if these MCUs remain in it. */
  function Owed(sc: HuffScan, s: Carried, mcus: seq<Mcu>): seq<Item>
    requires Fit(sc, mcus)
  {
    if IsAc(sc) then Coming(AcNo(sc, 0), Bands(sc, mcus), s.e, s.be) else McusItems(sc, s.last, mcus)
  }

  /** How many of the MCUs belong to the open segment. */
  function InSegment(sc: Scan, mcus: seq<Mcu>, togo: nat): (n: nat)
    ensures n <= |mcus|
  {
    if sc.restartInterval == 0 || |mcus| <= togo then |mcus| else togo
  }

  /** The items of the segments behind the open one. */
  function LaterSegments(sc: HuffScan, mcus: seq<Mcu>): seq<seq<Item>>
    requires Fit(sc, mcus)
    decreases |mcus|
  {
    if mcus == [] then []
    else
      var n := InSegment(sc, mcus, sc.restartInterval);
      [Owed(sc, NOTHING, mcus[..n])] + LaterSegments(sc, mcus[n..])
  }

  /** The items of the open segment and of those behind it, when `items` have been coded in it. */
  function Plan(sc: HuffScan, items: seq<Item>, s: Carried, mcus: seq<Mcu>, togo: nat): seq<seq<Item>>
    requires Fit(sc, mcus)
  {
    var n := InSegment(sc, mcus, togo);
    [items + Owed(sc, s, mcus[..n])] + LaterSegments(sc, mcus[n..])
  }

  /** The items of all segments of a scan. */
  function ScanSegments(sc: HuffScan, mcus: seq<Mcu>): seq<seq<Item>>
    requires Fit(sc, mcus)
  {
    Plan(sc, [], NOTHING, mcus, sc.restartInterval)
  }

  lemma PlanMcu(sc: HuffScan, items: seq<Item>, s: Carried, mcus: seq<Mcu>, togo: nat, items1: seq<Item>, s1: Carried)
    requires Fit(sc, mcus) && mcus != [] && !RestartDue(sc, togo)
    requires var part := mcus[..InSegment(sc, mcus, togo)];
             part != [] && items1 + Owed(sc, s1, part[1..]) == items + Owed(sc, s, part)
    ensures Plan(sc, items1, s1, mcus[1..], CountDown(sc, togo)) == Plan(sc, items, s, mcus, togo)
  {
    var n := InSegment(sc, mcus, togo);
    assert InSegment(sc, mcus[1..], CountDown(sc, togo)) == n - 1;
    assert mcus[1..][..n - 1] == mcus[..n][1..] && mcus[1..][n - 1..] == mcus[n..];
  }

  lemma PlanRestart(sc: HuffScan, items: seq<Item>, s: Carried, mcus: seq<Mcu>, togo: nat)
    requires Fit(sc, mcus) && mcus != [] && RestartDue(sc, togo)
    ensures Plan(sc, items, s, mcus, togo)
         == [items + Owed(sc, s, [])] + Plan(sc, [], NOTHING, mcus, sc.restartInterval)
  {
    var n := InSegment(sc, mcus, sc.restartInterval);
    assert mcus[..0] == [] && mcus[0..] == mcus;
    assert [] + Owed(sc, NOTHING, mcus[..n]) == Owed(sc, NOTHING, mcus[..n]);
  }

  /** All items of a list of segments. */
  function Flat(lists: seq<seq<Item>>): seq<Item> {
    if lists == [] then [] else Flat(lists[..|lists| - 1]) + lists[|lists| - 1]
  }

  // ------------------------------------------------------------------ bytes

  function ItemLists(segs: seq<Seg>): (lists: seq<seq<Item>>)
    ensures |lists| == |segs| && forall i :: 0 <= i < |segs| ==> lists[i] == segs[i].items
  {
    seq(|segs|, i requires 0 <= i < |segs| => segs[i].items)
  }

  /** Segment n, with the restart marker behind it. */
  function WithMarker(seg: Seg, n: nat): seq<Byte> {
    Stuff(seg.data) + [0xFF, 0xD0 + n % 8]
  }

  /** Segments, each with the restart marker behind it. */
  function Marked(segs: seq<Seg>): seq<Byte> {
    if segs == [] then []
    else
      var n := |segs| - 1;
      Marked(segs[..n]) + WithMarker(segs[n], n)
  }

  /** The bytes of a scan. */
  function SegmentBytes(segs: seq<Seg>): seq<Byte>
    requires segs != []
  {
    Marked(segs[..|segs| - 1]) + Stuff(segs[|segs| - 1].data)
  }

  /** Where segment i begins. */
  function StartOf(segs: seq<Seg>, base: nat, i: nat): nat
    requires i <= |segs|
  {
    base + |Marked(segs[..i])|
  }

  /** The code of the marker behind segment i. */
  function CodeBehind(segs: seq<Seg>, term: Byte, i: nat): Byte {
    if i + 1 == |segs| then term else RST0 + i % 8
  }

  lemma {:induction false} MarkedPrefix(raw: seq<Byte>, base: nat, segs: seq<Seg>, i: nat, m: nat)
    requires i <= m <= |segs| && At(raw, base, Marked(segs[..m]))
    ensures At(raw, base, Marked(segs[..i]))
    decreases m
  {
    if i < m {
      MarkedStep(segs, m - 1);
      AtDrop(raw, base, Marked(segs[..m - 1]), WithMarker(segs[m - 1], m - 1));
      MarkedPrefix(raw, base, segs, i, m - 1);
    }
  }

  lemma BytesAssoc(a: seq<Byte>, b: seq<Byte>, c: seq<Byte>)
    ensures (a + b) + c == a + (b + c)
  {
  }

  lemma MarkedStep(segs: seq<Seg>, i: nat)
    requires i < |segs|
    ensures Marked(segs[..i + 1]) == Marked(segs[..i]) + WithMarker(segs[i], i)
  {
    assert segs[..i + 1][..i] == segs[..i] && segs[..i + 1][i] == segs[i];
  }

  /** Segment i, and the marker behind it, stand where they should. */
  lemma SegmentAt(raw: seq<Byte>, base: nat, segs: seq<Seg>, term: Byte, i: nat)
    requires i < |segs| && At(raw, base, SegmentBytes(segs) + [0xFF, term])
    ensures At(raw, StartOf(segs, base, i), Stuff(segs[i].data) + [0xFF, CodeBehind(segs, term, i)])
    ensures i + 1 < |segs| ==> StartOf(segs, base, i + 1) == StartOf(segs, base, i) + |Stuff(segs[i].data)| + 2
  {
    var n := |segs| - 1;
    BytesAssoc(Marked(segs[..n]), Stuff(segs[n].data), [0xFF, term]);
    AtDrop(raw, base, Marked(segs[..n]), Stuff(segs[n].data) + [0xFF, term]);
    if i < n {
      MarkedPrefix(raw, base, segs, i + 1, n);
      MarkedAt(raw, base, segs, i);
    }
  }

  lemma MarkedAt(raw: seq<Byte>, base: nat, segs: seq<Seg>, i: nat)
    requires i < |segs| && At(raw, base, Marked(segs[..i + 1]))
    ensures At(raw, StartOf(segs, base, i), WithMarker(segs[i], i))
    ensures StartOf(segs, base, i + 1) == StartOf(segs, base, i) + |Stuff(segs[i].data)| + 2
  {
    MarkedStep(segs, i);
    AtDrop(raw, base, Marked(segs[..i]), WithMarker(segs[i], i));
  }

  /** At the start of segment i the input yields its data, and then the marker behind it. */
  lemma SegmentOpens(raw: seq<Byte>, base: nat, segs: seq<Seg>, term: Byte, i: nat)
    requires i < |segs| && At(raw, base, SegmentBytes(segs) + [0xFF, term]) && 0 < term < 0xFF
    ensures var p := StartOf(segs, base, i);
            && p <= |raw| && DataFrom(raw, p) == segs[i].data
            && MarkerFrom(raw, p) == p + |Stuff(segs[i].data)| + 1 < |raw|
            && raw[MarkerFrom(raw, p)] == CodeBehind(segs, term, i)
            && (i + 1 < |segs| ==> MarkerFrom(raw, p) + 1 == StartOf(segs, base, i + 1))
  {
    SegmentAt(raw, base, segs, term, i);
    Unstuff(segs[i].data, CodeBehind(segs, term, i), raw, StartOf(segs, base, i));
  }

  // ------------------------------------------------------------------ bands

  lemma {:induction false} FirstProper(tbl: HuffNo, z: ZBlock, al: nat, k: nat, se: Index, r: nat)
    requires k <= se || r > 0
    ensures var b := FirstItems(tbl, z, al, k, se, r); b.body == [] ==> b.tail.Some?
    decreases se + 1 - k
  {
    if k <= se {
      if Trunc(z[k], al) == 0 {
        FirstProper(tbl, z, al, k + 1, se, r + 1);
      } else {
        CoefLen(z[k], al);
        assert |RunItems(tbl, r, Trunc(z[k], al))| >= 2;
      }
    }
  }

  lemma {:induction false} RefineProper(tbl: HuffNo, z: ZBlock, al: nat, k: nat, se: Index, r: nat, br: seq<Bit>, eob: nat)
    requires k <= se || r > 0 || br != []
    ensures var b := RefineItems(tbl, z, al, k, se, r, br, eob); b.body == [] ==> b.tail.Some?
    decreases se + 1 - k, r
  {
    if k <= se {
      var v := Abs(Trunc(z[k], al));
      if v == 0 {
        RefineProper(tbl, z, al, k + 1, se, r + 1, br, eob);
      } else if r > 15 && k <= eob {
        RefineProper(tbl, z, al, k, se, r - 16, [], eob);
      } else if v > 1 || r > 15 {
        RefineProper(tbl, z, al, k + 1, se, r, br + [v % 2], eob);
      }
    }
  }

  /** Every band has items of its own or an end of band. */
  lemma ProperBands(sc: HuffScan, mcus: seq<Mcu>)
    requires IsAc(sc) && Fit(sc, mcus)
    ensures Proper(Bands(sc, mcus))
  {
    forall i | 0 <= i < |mcus|
      ensures Bands(sc, mcus)[i].body == [] ==> Bands(sc, mcus)[i].tail.Some?
    {
      var z := mcus[i][0];
      FirstProper(AcNo(sc, 0), z, sc.al, sc.ss, sc.se, 0);
      RefineProper(AcNo(sc, 0), z, sc.al, sc.ss, sc.se, 0, [], LastNew(z, sc.al, sc.ss, sc.se));
    }
  }
}
