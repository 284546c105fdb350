/** The Huffman decoder over a whole scan (jdhuff.c, with next_marker and read_restart_marker of
    jdmarker.c): segment after segment, on an input that arrives little by little. */
module HuffmanScanDecoder {
  import opened ArithTable
  import opened ArithModel
  import opened ArithBlocks
  import opened ArithScan
  import opened HuffmanCodes
  import opened BitStrings
  import opened BitReaderObject
  import opened Segments
  import opened HuffmanItems
  import opened HuffmanEobRuns
  import opened HuffmanEncoder
  import opened HuffmanDecoder
  import opened HuffmanMcuDecoder
  import opened HuffmanScan
  import opened HuffmanScanEncoder

  /** What the decoder may expect: the segments of the scan, which begin at `base`, the one that is
      open, the marker behind the scan, and the MCUs that remain in the open segment. */
  datatype ScanView = ScanView(t: Tables, sc: HuffScan, base: nat, segs: seq<Seg>, k: nat, term: MarkerByte, g: DecGoal)

  /** The segments of the scan and the marker behind it stand in the input. */
  ghost predicate StoredNow(v: ScanView, raw: seq<Byte>, n: nat) {
    && n == 0 && v.segs != [] && v.sc.Injective() && (IsAc(v.sc) ==> v.sc.membership == [0])
    && At(raw, v.base, SegmentBytes(v.segs) + Marker(v.term))
    && forall i :: 0 <= i < |v.segs| ==> Readable(v.t, v.segs[i])
  }

  ghost predicate ReadableNow(t: Tables, seg: Seg, n: nat) {
    n == 0 && Carries(t, seg) && HaveCodes(t, seg.items)
  }

  /** The bytes of the segment stand for its items, which have codes. */
  ghost predicate Readable(t: Tables, seg: Seg) {
    forall n {:trigger ReadableNow(t, seg, n)} :: n == 0 ==> ReadableNow(t, seg, n)
  }

  ghost predicate Stored(v: ScanView, raw: seq<Byte>) {
    forall n {:trigger StoredNow(v, raw, n)} :: n == 0 ==> StoredNow(v, raw, n)
  }

  lemma StoredSame(v: ScanView, w: ScanView, raw: seq<Byte>)
    requires Stored(v, raw) && w == v.(k := w.k, g := w.g)
    ensures Stored(w, raw)
  {
    assert StoredNow(v, raw, 0);
    assert StoredNow(w, raw, 0);
  }

  lemma OpensSame(v: ScanView, g: DecGoal, raw: seq<Byte>, end: nat)
    requires OpensHere(v, raw, end)
    ensures OpensHere(v.(g := g), raw, end)
  {
    assert OpensHereNow(v, raw, end);
    assert OpensHereNow(v.(g := g), raw, end);
  }

  ghost predicate SeesNow(v: ScanView, raw: seq<Byte>, end: nat, mcus: seq<Mcu>, togo: nat, n: nat) {
    && n == 0 && Fit(v.sc, mcus) && v.k < |v.segs| && v.g.sc == v.sc && v.g.t == v.t && Stored(v, raw)
    && v.g.part == mcus[..InSegment(v.sc, mcus, togo)]
    && ItemLists(v.segs)[v.k + 1..] == LaterSegments(v.sc, mcus[InSegment(v.sc, mcus, togo)..])
    && OpensHere(v, raw, end) && OthersZero(v.sc, v.g.last)
  }

  /** The open segment ends where the marker at `end` is. */
  ghost predicate OpensHere(v: ScanView, raw: seq<Byte>, end: nat) {
    forall e {:trigger OpensHereNow(v, raw, e)} :: e == end ==> OpensHereNow(v, raw, e)
  }

  ghost predicate OpensHereNow(v: ScanView, raw: seq<Byte>, end: nat) {
    && v.k < |v.segs| && StartOf(v.segs, v.base, v.k) <= |raw|
    && end == MarkerFrom(raw, StartOf(v.segs, v.base, v.k))
  }

  /** The MCUs are those of the open segment and of the segments behind it. */
  ghost predicate Sees(v: ScanView, raw: seq<Byte>, end: nat, mcus: seq<Mcu>, togo: nat) {
    forall n {:trigger SeesNow(v, raw, end, mcus, togo, n)} :: n == 0 ==> SeesNow(v, raw, end, mcus, togo, n)
  }

  lemma StoredOpens(v: ScanView, raw: seq<Byte>, end: nat)
    requires Stored(v, raw) && v.k < |v.segs| && OpensHere(v, raw, end)
    ensures end < |raw| && raw[end] == CodeBehind(v.segs, v.term, v.k)
    ensures v.k + 1 < |v.segs| ==> end + 1 == StartOf(v.segs, v.base, v.k + 1) <= |raw|
  {
    assert StoredNow(v, raw, 0) && OpensHereNow(v, raw, end);
    SegmentOpens(raw, v.base, v.segs, v.term, v.k);
  }

  /** The marker behind the open segment. */
  lemma MarkerSeen(v: ScanView, raw: seq<Byte>, end: nat, mcus: seq<Mcu>, togo: nat)
    requires Sees(v, raw, end, mcus, togo)
    ensures v.k < |v.segs| && end < |raw| && raw[end] == CodeBehind(v.segs, v.term, v.k)
    ensures mcus == [] ==> v.g.part == [] && raw[end] == v.term
    ensures mcus != [] && RestartDue(v.sc, togo) ==> v.g.part == [] && raw[end] == RST0 + v.k % 8
    ensures mcus != [] && !RestartDue(v.sc, togo) ==> v.g.part != [] && v.g.part[0] == mcus[0]
    ensures mcus != [] ==> |mcus[0]| == |v.sc.membership|
  {
    assert SeesNow(v, raw, end, mcus, togo, 0);
    StoredOpens(v, raw, end);
    var n := InSegment(v.sc, mcus, togo);
    assert |ItemLists(v.segs)[v.k + 1..]| == |v.segs| - (v.k + 1);
    if mcus == [] {
      assert mcus[n..] == [];
    } else if RestartDue(v.sc, togo) {
      assert mcus[n..] == mcus;
      assert |LaterSegments(v.sc, mcus)| >= 1;
    }
  }

  lemma SeesMore(v: ScanView, raw: seq<Byte>, end: nat, mcus: seq<Mcu>, togo: nat)
    requires Sees(v, raw, end, mcus, togo) && mcus != [] && !RestartDue(v.sc, togo)
    requires v.g.part != [] && |v.g.part[0]| == |v.sc.membership| && v.g.sc == v.sc
    ensures Sees(v.(g := NextGoal(v.g)), raw, end, mcus[1..], CountDown(v.sc, togo))
  {
    assert SeesNow(v, raw, end, mcus, togo, 0);
    var n := InSegment(v.sc, mcus, togo);
    assert InSegment(v.sc, mcus[1..], CountDown(v.sc, togo)) == n - 1;
    assert mcus[1..][..n - 1] == mcus[..n][1..] && mcus[1..][n - 1..] == mcus[n..];
    OthersStayZero(v.sc, v.g.last, v.g.part[0]);
    StoredSame(v, v.(g := NextGoal(v.g)), raw);
    OpensSame(v, NextGoal(v.g), raw, end);
    assert SeesNow(v.(g := NextGoal(v.g)), raw, end, mcus[1..], CountDown(v.sc, togo), 0);
  }

  /** A segment that begins: its bits stand for its MCUs. */
  lemma FreshPart(t: Tables, sc: HuffScan, part: seq<Mcu>, seg: Seg, last: DcValues) returns (g: DecGoal)
    requires Fit(sc, part) && sc.Injective() && Carries(t, seg) && HaveCodes(t, seg.items)
    requires seg.items == Owed(sc, NOTHING, part)
    requires if IsAc(sc) then sc.membership == [0] else last == NOTHING.last
    ensures g == DecGoal(t, sc, part, last, g.pad) && |g.pad| <= 7
    ensures AwaitsPart(g, last, 0, BytesBits(seg.data))
  {
    var bits, all := ItemsBits(t, seg.items), BytesBits(seg.data);
    var pad := all[|bits|..];
    assert all == bits + pad;
    g := DecGoal(t, sc, part, last, pad);
    if IsAc(sc) {
      ProperBands(sc, part);
      BandsStart(t, AcNo(sc, 0), Bands(sc, part), pad);
    }
    assert AwaitsPartNow(g, last, 0, all, 0);
  }

  /** The open segment has just begun, and the input yields `bits`. */
  lemma SegmentFresh(v: ScanView, raw: seq<Byte>, end: nat, bits: seq<Bit>, part: seq<Mcu>, last: DcValues)
    returns (g: DecGoal)
    requires Stored(v, raw) && v.k < |v.segs| && OpensAt(raw, StartOf(v.segs, v.base, v.k), end, bits)
    requires Fit(v.sc, part) && v.segs[v.k].items == Owed(v.sc, NOTHING, part)
    requires IsAc(v.sc) || last == NOTHING.last
    ensures g == DecGoal(v.t, v.sc, part, last, g.pad) && AwaitsPart(g, last, 0, bits) && OpensHere(v, raw, end)
  {
    assert StoredNow(v, raw, 0);
    assert OpensAtNow(raw, StartOf(v.segs, v.base, v.k), end, bits);
    SegmentOpens(raw, v.base, v.segs, v.term, v.k);
    assert OpensHereNow(v, raw, end);
    assert ReadableNow(v.t, v.segs[v.k], 0);
    g := FreshPart(v.t, v.sc, part, v.segs[v.k], last);
  }

  lemma SeesStart(v: ScanView, raw: seq<Byte>, end: nat, bits: seq<Bit>, mcus: seq<Mcu>, last: DcValues)
    returns (g: DecGoal)
    requires Stored(v, raw) && v.k < |v.segs| && OpensAt(raw, StartOf(v.segs, v.base, v.k), end, bits)
    requires Fit(v.sc, mcus) && OthersZero(v.sc, last) && (IsAc(v.sc) || last == NOTHING.last)
    requires ItemLists(v.segs)[v.k..] == Plan(v.sc, [], NOTHING, mcus, v.sc.restartInterval)
    ensures Sees(v.(g := g), raw, end, mcus, v.sc.restartInterval)
    ensures g.last == last && g.t == v.t && g.sc == v.sc && AwaitsPart(g, last, 0, bits)
  {
    var n := InSegment(v.sc, mcus, v.sc.restartInterval);
    FirstList(v.sc, v.segs, v.k, mcus);
    g := SegmentFresh(v, raw, end, bits, mcus[..n], last);
    StoredSame(v, v.(g := g), raw);
    OpensSame(v, g, raw, end);
    assert SeesNow(v.(g := g), raw, end, mcus, v.sc.restartInterval, 0);
  }

  lemma FirstList(sc: HuffScan, segs: seq<Seg>, k: nat, mcus: seq<Mcu>)
    requires k < |segs| && Fit(sc, mcus) && ItemLists(segs)[k..] == Plan(sc, [], NOTHING, mcus, sc.restartInterval)
    ensures var n := InSegment(sc, mcus, sc.restartInterval);
            segs[k].items == Owed(sc, NOTHING, mcus[..n]) && ItemLists(segs)[k + 1..] == LaterSegments(sc, mcus[n..])
  {
    var n := InSegment(sc, mcus, sc.restartInterval);
    var lists := ItemLists(segs);
    assert lists[k..][0] == lists[k] == segs[k].items && lists[k..][1..] == lists[k + 1..];
    assert [] + Owed(sc, NOTHING, mcus[..n]) == Owed(sc, NOTHING, mcus[..n]);
  }

  /** A segment opens at p: its marker, and its bits. */
  ghost predicate OpensAtNow(raw: seq<Byte>, p: nat, end: nat, bits: seq<Bit>) {
    p <= |raw| && end == MarkerFrom(raw, p) && bits == BytesBits(DataFrom(raw, p))
  }

  ghost predicate OpensAt(raw: seq<Byte>, p: nat, end: nat, bits: seq<Bit>) {
    forall e {:trigger OpensAtNow(raw, p, e, bits)} :: e == end ==> OpensAtNow(raw, p, e, bits)
  }

  lemma Opens(raw: seq<Byte>, p: nat, end: nat, buffer: nat, bits: seq<Bit>)
    requires p <= |raw| && MarkerIs(raw, p, end) && bits == BitsOf(buffer, 0) + BytesBits(DataFrom(raw, p))
    ensures OpensAt(raw, p, end, bits)
  {
    assert MarkerIsNow(raw, p, end);
    assert OpensAtNow(raw, p, end, bits);
  }

  /** Behind the restart marker the next segment begins. */
  lemma SeesRestart(v: ScanView, raw: seq<Byte>, end: nat, mcus: seq<Mcu>, togo: nat, last: DcValues, end1: nat,
                    bits: seq<Bit>)
    returns (g: DecGoal)
    requires Sees(v, raw, end, mcus, togo) && mcus != [] && RestartDue(v.sc, togo) && OthersZero(v.sc, last)
    requires (IsAc(v.sc) || last == NOTHING.last) && OpensAt(raw, end + 1, end1, bits)
    ensures g.last == last && g.t == v.t && g.sc == v.sc
    ensures Sees(v.(k := v.k + 1, g := g), raw, end1, mcus, v.sc.restartInterval)
    ensures AwaitsPart(g, last, 0, bits)
  {
    RestartSeen(v, raw, end, mcus, togo);
    StoredSame(v, v.(k := v.k + 1), raw);
    g := SeesStart(v.(k := v.k + 1), raw, end1, bits, mcus, last);
  }

  lemma RestartSeen(v: ScanView, raw: seq<Byte>, end: nat, mcus: seq<Mcu>, togo: nat)
    requires Sees(v, raw, end, mcus, togo) && mcus != [] && RestartDue(v.sc, togo)
    ensures v.k + 1 < |v.segs| && Fit(v.sc, mcus) && Stored(v, raw)
    ensures ItemLists(v.segs)[v.k + 1..] == Plan(v.sc, [], NOTHING, mcus, v.sc.restartInterval)
    ensures end + 1 == StartOf(v.segs, v.base, v.k + 1) <= |raw|
  {
    assert SeesNow(v, raw, end, mcus, togo, 0);
    assert mcus[0..] == mcus;
    NextPlan(v.sc, mcus);
    assert |ItemLists(v.segs)[v.k + 1..]| == |v.segs| - (v.k + 1);
    StoredOpens(v, raw, end);
  }

  lemma NextPlan(sc: HuffScan, mcus: seq<Mcu>)
    requires Fit(sc, mcus) && mcus != []
    ensures LaterSegments(sc, mcus) == Plan(sc, [], NOTHING, mcus, sc.restartInterval)
  {
    var n := InSegment(sc, mcus, sc.restartInterval);
    assert [] + Owed(sc, NOTHING, mcus[..n]) == Owed(sc, NOTHING, mcus[..n]);
  }

  lemma LastZero(v: ScanView, raw: seq<Byte>, end: nat, mcus: seq<Mcu>, togo: nat)
    requires Sees(v, raw, end, mcus, togo)
    ensures OthersZero(v.sc, v.g.last) && v.g.sc == v.sc
  {
    assert SeesNow(v, raw, end, mcus, togo, 0);
  }

  /** At the end of a segment only the padding is left. */
  lemma PartOver(g: DecGoal, lastDc: seq<int>, run: nat, bits: seq<Bit>)
    requires AwaitsPart(g, lastDc, run, bits) && g.part == []
    ensures bits == g.pad && lastDc == g.last && (IsAc(g.sc) ==> run == 0)
  {
    assert AwaitsPartNow(g, lastDc, run, bits, 0);
    if IsAc(g.sc) {
      BandsEnd(g.t, AcNo(g.sc, 0), run, bits, g.pad);
    }
    assert [] + g.pad == g.pad;
  }

  /** At a restart: the segment is over, and the marker that is due stands behind it. */
  lemma RestartComes(v: ScanView, raw: seq<Byte>, end: nat, mcus: seq<Mcu>, togo: nat, lastDc: seq<int>, run: nat,
                     bits: seq<Bit>)
    requires Sees(v, raw, end, mcus, togo) && mcus != [] && RestartDue(v.sc, togo) && AwaitsPart(v.g, lastDc, run, bits)
    ensures v.g.part == [] && end < |raw| && raw[end] == RST0 + v.k % 8 && lastDc == v.g.last
  {
    MarkerSeen(v, raw, end, mcus, togo);
    PartOver(v.g, lastDc, run, bits);
  }

  /** The padding may be discarded. */
  lemma SeesAgain(v: ScanView, raw: seq<Byte>, end: nat, mcus: seq<Mcu>, togo: nat, lastDc: seq<int>, run: nat, bits: seq<Bit>,
                  bits1: seq<Bit>) returns (w: ScanView)
    requires Sees(v, raw, end, mcus, togo) && AwaitsPart(v.g, lastDc, run, bits) && v.g.part == []
    ensures w == v.(g := v.g.(pad := bits1)) && Sees(w, raw, end, mcus, togo) && AwaitsPart(w.g, lastDc, run, bits1)
  {
    w := v.(g := v.g.(pad := bits1));
    assert SeesNow(v, raw, end, mcus, togo, 0);
    StoredSame(v, w, raw);
    OpensSame(v, w.g, raw, end);
    assert SeesNow(w, raw, end, mcus, togo, 0);
    assert AwaitsPartNow(v.g, lastDc, run, bits, 0);
    PartOver(v.g, lastDc, run, bits);
    assert [] + bits1 == bits1;
    if IsAc(v.sc) {
      BandsStart(v.g.t, AcNo(v.g.sc, 0), [], bits1);
    }
    assert AwaitsPartNow(w.g, lastDc, run, bits1, 0);
  }

  class ScanDecoder {
    const dec: HuffDecoder
    var restartsToGo: nat
    var nextRestartNum: RestartNum

    /** start_pass_huff_decoder: the decoder is new. */
    constructor (dec: HuffDecoder, scan: HuffScan)
      ensures this.dec == dec && restartsToGo == scan.restartInterval && nextRestartNum == 0
    {
      this.dec := dec;
      restartsToGo, nextRestartNum := scan.restartInterval, 0;
    }

    /** The input holds what an encoder sent for these MCUs. */
    ghost predicate Awaiting(scan: HuffScan, mcus: seq<Mcu>, v: ScanView)
      reads this, dec, dec.reader
    {
      && dec.Valid() && v.sc == scan && dec.AllInverted(v.t) && !dec.reader.insufficientData && v.g.t == v.t && v.g.sc == scan
      && AwaitsPart(v.g, dec.lastDcVal, dec.eobrun, dec.Ahead())
      && Sees(v, dec.reader.raw, dec.reader.end, mcus, restartsToGo) && nextRestartNum == v.k % 8
    }

    /** read_restart_marker: it fails while the marker has not arrived; `lost` means that another marker
        came, which stays unread. */
    method ReadRestartMarker() returns (ok: bool, lost: bool)
      requires dec.reader.Valid() && dec.reader.bitsLeft == 0
      modifies this`nextRestartNum, dec.reader`pos, dec.reader`unreadMarker, dec.reader`bitsLeft, dec.reader`end
      ensures dec.reader.Valid() && (!ok ==> dec.reader.Starved())
      ensures !ok ==> nextRestartNum == old(nextRestartNum) && dec.reader.end == old(dec.reader.end)
      ensures ok ==> old(dec.reader.end) < |dec.reader.raw|
                     && (lost <==> dec.reader.raw[old(dec.reader.end)] != RST0 + old(nextRestartNum))
      ensures ok && !lost ==> nextRestartNum == (old(nextRestartNum) + 1) % 8 && dec.reader.unreadMarker == 0
                              && dec.reader.pos == old(dec.reader.end) + 1 && dec.reader.bitsLeft == 0
      ensures ok && lost ==> nextRestartNum == old(nextRestartNum) && dec.reader.end == old(dec.reader.end)
                             && dec.reader.unreadMarker == dec.reader.raw[old(dec.reader.end)]
    {
      ok, lost := true, false;
      if dec.reader.unreadMarker == 0 {
        ok := dec.reader.NextMarker();
        if !ok {
          return;
        }
      }
      lost := dec.reader.unreadMarker != RST0 + nextRestartNum;
      if !lost {
        dec.reader.PassMarker();
        nextRestartNum := (nextRestartNum + 1) % 8;
      }
    }

    /** finish_pass_huff and read_restart_marker: the rest of the segment and its marker are passed. */
    method PassSegment() returns (ok: bool, lost: bool)
      requires dec.Valid()
      modifies this`nextRestartNum, dec`saved, dec.reader`pos, dec.reader`getBuffer, dec.reader`unreadMarker,
               dec.reader`bitsLeft, dec.reader`end
      ensures dec.Valid() && (!ok ==> dec.reader.Starved())
      ensures !ok ==> nextRestartNum == old(nextRestartNum) && dec.reader.end == old(dec.reader.end)
      ensures ok ==> old(dec.reader.end) < |dec.reader.raw|
                     && (lost <==> dec.reader.raw[old(dec.reader.end)] != RST0 + old(nextRestartNum))
      ensures ok && !lost ==> nextRestartNum == (old(nextRestartNum) + 1) % 8 && dec.reader.unreadMarker == 0
                              && dec.saved.pos == old(dec.reader.end) + 1 && dec.saved.bitsLeft == 0
      ensures ok && lost ==> nextRestartNum == old(nextRestartNum) && dec.reader.end == old(dec.reader.end)
                             && dec.reader.unreadMarker == dec.reader.raw[old(dec.reader.end)]
    {
      dec.Load();
      dec.reader.bitsLeft := 0;
      ok, lost := ReadRestartMarker();
      dec.Save();
    }

    /** process_restart; it can be called again as soon as more bytes have arrived. */
    method ProcessRestart(scan: HuffScan, ghost mcus: seq<Mcu>, ghost v: ScanView, ghost on: bool)
      returns (ok: bool, lost: bool, ghost w: ScanView)
      requires dec.Valid() && RestartDue(scan, restartsToGo)
      requires on ==> mcus != [] && Awaiting(scan, mcus, v)
      modifies this, dec`saved, dec`lastDcVal, dec`eobrun, dec.reader`pos, dec.reader`getBuffer, dec.reader`unreadMarker,
               dec.reader`bitsLeft, dec.reader`insufficientData, dec.reader`end
      ensures dec.Valid() && (!ok ==> dec.reader.Starved())
      ensures on ==> Awaiting(scan, mcus, w) && w.term == v.term && (ok ==> !lost)
      ensures ok && !lost ==> !RestartDue(scan, restartsToGo)
    {
      w := v;
      ghost var bits, raw, end := dec.Ahead(), dec.reader.raw, dec.reader.end;
      if on {
        RestartComes(v, raw, end, mcus, restartsToGo, dec.lastDcVal, dec.eobrun, bits);
      }
      ok, lost := PassSegment();
      if !ok || lost {
        if on {
          w := StillAwaiting(scan, mcus, v, bits);
        }
      } else {
        w := Reopen(scan, mcus, v, end, on);
      }
    }

    /** As long as the marker has not arrived. */
    lemma StillAwaiting(scan: HuffScan, mcus: seq<Mcu>, v: ScanView, bits: seq<Bit>) returns (w: ScanView)
      requires dec.Valid() && v.sc == scan && dec.AllInverted(v.t) && !dec.reader.insufficientData
      requires v.g.t == v.t && v.g.sc == scan && v.g.part == [] && nextRestartNum == v.k % 8
      requires AwaitsPart(v.g, dec.lastDcVal, dec.eobrun, bits) && Sees(v, dec.reader.raw, dec.reader.end, mcus, restartsToGo)
      ensures Awaiting(scan, mcus, w) && w.term == v.term
    {
      w := SeesAgain(v, dec.reader.raw, dec.reader.end, mcus, restartsToGo, dec.lastDcVal, dec.eobrun, bits, dec.Ahead());
    }

    /** Behind the marker. */
    method Reopen(scan: HuffScan, ghost mcus: seq<Mcu>, ghost v: ScanView, ghost end: nat, ghost on: bool)
      returns (ghost w: ScanView)
      requires dec.Valid() && RestartDue(scan, restartsToGo)
      requires on ==> mcus != [] && v.sc == scan && dec.AllInverted(v.t) && !dec.reader.insufficientData
                      && dec.lastDcVal == v.g.last && Sees(v, dec.reader.raw, end, mcus, restartsToGo)
                      && nextRestartNum == (v.k + 1) % 8
                      && dec.reader.unreadMarker == 0 && dec.saved.pos == end + 1 && dec.saved.bitsLeft == 0
      modifies this`restartsToGo, dec`lastDcVal, dec`eobrun, dec.reader`insufficientData
      ensures dec.Valid() && (on ==> Awaiting(scan, mcus, w) && w.term == v.term)
      ensures !RestartDue(scan, restartsToGo)
    {
      w := v;
      if on {
        LastZero(v, dec.reader.raw, end, mcus, restartsToGo);
        Opens(dec.reader.raw, dec.saved.pos, dec.reader.end, dec.saved.getBuffer, dec.Ahead());
        var g := SeesRestart(v, dec.reader.raw, end, mcus, restartsToGo, NOTHING.last, dec.reader.end, dec.Ahead());
        w := v.(k := v.k + 1, g := g);
      }
      Reset(scan);
    }

    /** The state at the start of a segment. */
    method Reset(scan: HuffScan)
      requires dec.Valid()
      modifies this`restartsToGo, dec`lastDcVal, dec`eobrun, dec.reader`insufficientData
      ensures dec.Valid() && dec.eobrun == 0 && restartsToGo == scan.restartInterval
      ensures dec.reader.insufficientData <==> old(dec.reader.insufficientData) && dec.reader.unreadMarker != 0
      ensures forall i: Component :: dec.lastDcVal[i] == if i < scan.comps then 0 else old(dec.lastDcVal[i])
      ensures (forall i: Component :: i >= scan.comps ==> old(dec.lastDcVal[i]) == 0) ==> dec.lastDcVal == NOTHING.last
    {
      ResetPredictions(scan);
      dec.eobrun := 0;
      restartsToGo := scan.restartInterval;
      if dec.reader.unreadMarker == 0 {
        dec.reader.insufficientData := false;
      }
    }

    method ResetPredictions(scan: HuffScan)
      requires |dec.lastDcVal| == 4
      modifies dec`lastDcVal
      ensures |dec.lastDcVal| == 4 && forall i: Component :: dec.lastDcVal[i] == if i < scan.comps then 0 else old(dec.lastDcVal[i])
    {
      for ci := 0 to scan.comps
        invariant |dec.lastDcVal| == 4
        invariant forall i: Component :: dec.lastDcVal[i] == if i < ci then 0 else old(dec.lastDcVal[i])
      {
        dec.lastDcVal := dec.lastDcVal[ci := 0];
      }
    }

    /** A call that is suspended has come to where bytes are missing. */
    lemma BytesMissing(v: ScanView, mcus: seq<Mcu>)
      requires dec.reader.Starved() && Sees(v, dec.reader.raw, dec.reader.end, mcus, restartsToGo)
      ensures dec.reader.avail < |dec.reader.raw|
    {
      dec.reader.StarvedIs();
      MarkerSeen(v, dec.reader.raw, dec.reader.end, mcus, restartsToGo);
    }

    /** decode_mcu and its variants.  As long as the input holds what an encoder sent, every MCU is
        rebuilt, in spite of suspensions; and a call is suspended only where it finds too few bits. */
    method DecodeMcu(scan: HuffScan, blocks: seq<array<Jcoef>>, ghost vals: seq<seq<Jcoef>>, ghost mcus: seq<Mcu>,
                     ghost v: ScanView, ghost on: bool)
      returns (ok: bool, lost: bool, ghost after: seq<seq<Jcoef>>, ghost w: ScanView)
      requires dec.Valid() && Distinct(blocks) && |blocks| == |scan.membership| && Hold(blocks, vals)
      requires on ==> mcus != [] && Awaiting(scan, mcus, v) && McuWaiting(scan, mcus[0], vals)
      modifies this, dec`saved, dec`lastDcVal, dec`eobrun, dec.reader`pos, dec.reader`getBuffer, dec.reader`unreadMarker,
               dec.reader`bitsLeft, dec.reader`insufficientData, dec.reader`end, blocks
      ensures dec.Valid() && Hold(blocks, after)
      ensures on ==> w.term == v.term && !lost && (dec.reader.avail == |dec.reader.raw| ==> ok)
      ensures !ok ==> dec.reader.Starved()
      ensures on && !ok ==> Awaiting(scan, mcus, w) && McuAgain(scan, mcus[0], vals, after)
      ensures on && ok ==> Awaiting(scan, mcus[1..], w) && McuWaiting(scan, mcus[0], vals)
                           && after == DecodedMcu(scan, mcus[0], vals)
    {
      ok, lost, after, w := true, false, vals, v;
      if scan.restartInterval != 0 {
        if restartsToGo == 0 {
          ok, lost, w := ProcessRestart(scan, mcus, v, on);
          if !ok {
            lost := false;
            if on {
              BytesMissing(w, mcus);
            }
            return;
          }
          if lost {
            return;
          }
        }
      }
      ok, after, w := DecodeNextMcu(scan, blocks, vals, mcus, w, on);
    }

    method DecodeNextMcu(scan: HuffScan, blocks: seq<array<Jcoef>>, ghost vals: seq<seq<Jcoef>>, ghost mcus: seq<Mcu>,
                         ghost v: ScanView, ghost on: bool)
      returns (ok: bool, ghost after: seq<seq<Jcoef>>, ghost w: ScanView)
      requires dec.Valid() && Distinct(blocks) && |blocks| == |scan.membership| && Hold(blocks, vals)
      requires on ==> mcus != [] && Awaiting(scan, mcus, v) && McuWaiting(scan, mcus[0], vals)
      requires !RestartDue(scan, restartsToGo)
      modifies this, dec`saved, dec`lastDcVal, dec`eobrun, dec.reader`pos, dec.reader`getBuffer, dec.reader`unreadMarker,
               dec.reader`bitsLeft, dec.reader`insufficientData, blocks
      ensures dec.Valid() && Hold(blocks, after)
      ensures on ==> w.term == v.term && (dec.reader.avail == |dec.reader.raw| ==> ok)
      ensures !ok ==> dec.reader.Starved()
      ensures on && !ok ==> Awaiting(scan, mcus, w) && McuAgain(scan, mcus[0], vals, after)
      ensures on && ok ==> Awaiting(scan, mcus[1..], w) && McuWaiting(scan, mcus[0], vals)
                           && after == DecodedMcu(scan, mcus[0], vals)
    {
      w := v;
      if on {
        MarkerSeen(v, dec.reader.raw, dec.reader.end, mcus, restartsToGo);
      }
      ok, after := HuffmanMcuDecoder.DecodeMcu(dec, scan, blocks, v.g, vals, on);
      if ok {
        w := CountMcu(scan, mcus, v, on);
      } else if on {
        BytesMissing(v, mcus);
      }
    }

    /** One MCU less to the next restart marker. */
    method CountMcu(scan: HuffScan, ghost mcus: seq<Mcu>, ghost v: ScanView, ghost on: bool) returns (ghost w: ScanView)
      requires dec.Valid() && !RestartDue(scan, restartsToGo)
      requires on ==> && mcus != [] && v.sc == scan && dec.AllInverted(v.t) && !dec.reader.insufficientData
                      && v.g.t == v.t && v.g.sc == scan && v.g.part != [] && |v.g.part[0]| == |scan.membership|
                      && AwaitsPart(NextGoal(v.g), dec.lastDcVal, dec.eobrun, dec.Ahead())
                      && Sees(v, dec.reader.raw, dec.reader.end, mcus, restartsToGo) && nextRestartNum == v.k % 8
      modifies this`restartsToGo
      ensures dec.Valid() && (on ==> w.term == v.term && Awaiting(scan, mcus[1..], w))
    {
      w := v;
      if on {
        SeesMore(v, dec.reader.raw, dec.reader.end, mcus, restartsToGo);
        w := v.(g := NextGoal(v.g));
      }
      if scan.restartInterval != 0 {
        restartsToGo := restartsToGo - 1;
      }
    }
  }
}
