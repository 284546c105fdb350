/** Whole scans through the Huffman coder: the decoder rebuilds what the encoder was given, restart
    markers, suspensions and optimal tables and all. */
module HuffmanWholeScan {
  import opened ArithTable
  import opened ArithModel
  import opened ArithBlocks
  import opened ArithScan
  import opened ArithWholeScan
  import opened HuffmanDerived
  import opened BitStrings
  import opened BitSinkObject
  import opened BitReaderObject
  import opened Segments
  import opened HuffmanItems
  import opened HuffmanEncoder
  import opened HuffmanDecoder
  import opened HuffmanMcuDecoder
  import opened HuffmanScan
  import opened HuffmanScanEncoder
  import opened HuffmanScanDecoder
  import opened HuffmanMerge
  import opened HuffmanScanTables
  import opened HuffmanSymbols

  /** The coefficients of all MCUs can be coded. */
  predicate Codable(sc: HuffScan, mcus: seq<Mcu>)
    requires Fit(sc, mcus)
  {
    AllInRange(sc, NOTHING.last, mcus, sc.restartInterval)
  }

  /** start_pass, encode_mcu for every MCU, finish_pass; it fails if a coefficient cannot be coded. */
  method EncodeScan(scan: HuffScan, enc: HuffEncoder, image: seq<seq<Block>>) returns (ok: bool, ghost segs: seq<Seg>)
    requires enc.Valid() && enc.items == enc.earlier == [] && enc.eobrun == enc.be == 0 && !enc.badCoef
    requires enc.lastDcVal == NOTHING.last && enc.sink.trace == []
    requires IsAc(scan) ==> scan.membership == [0] && enc.acTbl == AcNo(scan, 0)
    requires forall i :: 0 <= i < |image| ==> |image[i]| == |scan.membership|
    modifies enc, enc.sink, enc.counts, enc.counts.dc, enc.counts.ac, enc.bitBuffer
    ensures ok <==> Codable(scan, McusOf(scan, image))
    ensures ok ==> segs != [] && ItemLists(segs) == ScanSegments(scan, McusOf(scan, image)) && enc.counts.Valid()
    ensures ok ==> AllUsable(Flat(ScanSegments(scan, McusOf(scan, image))))
    ensures ok && enc.gather ==> enc.counts.seen == Flat(ScanSegments(scan, McusOf(scan, image)))
    ensures ok && !enc.gather ==>
              && enc.sink.dest == old(enc.sent) + SegmentBytes(segs)
              && (enc.badCode <==> !HaveCodes(enc.tables, Flat(ScanSegments(scan, McusOf(scan, image)))))
              && forall i :: 0 <= i < |segs| ==> Carries(enc.tables, segs[i])
  {
    ghost var mcus := McusOf(scan, image);
    var pass := new ScanEncoder(enc, scan, mcus);
    ghost var goal := ScanGoal(ScanSegments(scan, mcus), Codable(scan, mcus));
    segs := [];
    for i := 0 to |image|
      invariant pass.enc == enc && pass.start == old(enc.sent) && fresh(pass)
      invariant !enc.badCoef && pass.Promises(scan, mcus[i..], goal)
    {
      var rows := EncoderBlocks(scan, image[i]);
      assert mcus[i..][1..] == mcus[i + 1..];
      pass.EncodeMcu(scan, rows, mcus[i..], goal);
      if enc.badCoef {
        return false, segs;
      }
    }
    segs := pass.FinishPass(scan, goal);
    ok := true;
  }

  // ------------------------------------------------------------------ decoding

  /** The bytes that arrive in the end, of `cap` in all: those there are and those that are to come. */
  function InAll(avail: nat, arrivals: seq<nat>, cap: nat): nat
    decreases arrivals
  {
    if arrivals == [] then (if avail <= cap then avail else cap) else InAll(avail + arrivals[0], arrivals[1..], cap)
  }

  lemma {:induction false} InAllCapped(avail: nat, arrivals: seq<nat>, cap: nat)
    requires avail >= cap
    ensures InAll(avail, arrivals, cap) == cap
    decreases arrivals
  {
    if arrivals != [] {
      InAllCapped(avail + arrivals[0], arrivals[1..], cap);
    }
  }

  /** It is the sum of them, unless that is more than there are. */
  lemma {:induction false} InAllSums(avail: nat, arrivals: seq<nat>, cap: nat)
    ensures InAll(avail, arrivals, cap) == if avail + Arriving(arrivals) <= cap then avail + Arriving(arrivals) else cap
    decreases arrivals
  {
    if arrivals != [] {
      InAllSums(avail + arrivals[0], arrivals[1..], cap);
    }
  }

  function Arriving(arrivals: seq<nat>): nat {
    if arrivals == [] then 0 else arrivals[0] + Arriving(arrivals[1..])
  }

  /** More bytes arrive; this does not change what the decoder may expect. */
  method Arrive(pass: ScanDecoder, arrivals: seq<nat>, scan: HuffScan, ghost mcus: seq<Mcu>, ghost v: ScanView)
    requires arrivals != [] && pass.Awaiting(scan, mcus, v)
    modifies pass.dec.reader`avail
    ensures pass.Awaiting(scan, mcus, v)
    ensures InAll(pass.dec.reader.avail, arrivals[1..], |pass.dec.reader.raw|)
         == InAll(old(pass.dec.reader.avail), arrivals, |pass.dec.reader.raw|)
  {
    ghost var ahead := pass.dec.Ahead();
    var reader := pass.dec.reader;
    var all := reader.avail + arrivals[0];
    reader.avail := if all <= |reader.raw| then all else |reader.raw|;
    assert pass.dec.Ahead() == ahead;
    if all > |reader.raw| {
      InAllCapped(all, arrivals[1..], |reader.raw|);
      InAllCapped(|reader.raw|, arrivals[1..], |reader.raw|);
    }
  }

  lemma AgainTwice(sc: Scan, zs: Mcu, a: seq<seq<Jcoef>>, b: seq<seq<Jcoef>>, c: seq<seq<Jcoef>>)
    requires McuAgain(sc, zs, a, b) && McuAgain(sc, zs, b, c)
    ensures McuAgain(sc, zs, a, c)
  {
  }

  lemma AgainStarts(sc: Scan, zs: Mcu, a: seq<seq<Jcoef>>)
    requires McuWaiting(sc, zs, a)
    ensures McuAgain(sc, zs, a, a)
  {
  }

  /** decode_mcu on fresh arrays, called again whenever it has been suspended and more bytes have
      arrived, as long as some do: `arrivals` says how many come each time. */
  method DecodeArriving(scan: HuffScan, pass: ScanDecoder, before: seq<JBlock>, arrivals: seq<nat>,
                        ghost mcus: seq<Mcu>, ghost v: ScanView)
    returns (ok: bool, after: seq<seq<Jcoef>>, left: seq<nat>, ghost w: ScanView)
    requires |before| == |scan.membership| && mcus != [] && pass.Awaiting(scan, mcus, v)
    requires McuWaiting(scan, mcus[0], before)
    modifies pass, pass.dec, pass.dec.reader
    ensures pass.dec.Valid() && w.term == v.term
    ensures InAll(pass.dec.reader.avail, left, |pass.dec.reader.raw|)
         == InAll(old(pass.dec.reader.avail), arrivals, |pass.dec.reader.raw|)
    ensures !ok ==> left == [] && pass.dec.reader.avail != |pass.dec.reader.raw|
    ensures ok ==> pass.Awaiting(scan, mcus[1..], w) && McuWaiting(scan, mcus[0], before)
                   && after == DecodedMcu(scan, mcus[0], before)
  {
    var rows := DecoderBlocks(before);
    ghost var vals: seq<seq<Jcoef>> := before;
    AgainStarts(scan, mcus[0], before);
    left, after, w := arrivals, [], v;
    ok, vals, w := DecodeOnce(scan, pass, rows, before, vals, mcus, w);
    while !ok && left != []
      invariant fresh(rows) && Distinct(rows) && |rows| == |scan.membership| && Hold(rows, vals)
      invariant InAll(pass.dec.reader.avail, left, |pass.dec.reader.raw|)
             == InAll(old(pass.dec.reader.avail), arrivals, |pass.dec.reader.raw|)
      invariant w.term == v.term && Underway(scan, pass, before, vals, mcus, w, ok)
      decreases |left|, !ok
    {
      assert UnderwayNow(scan, pass, before, vals, mcus, w, false);
      Arrive(pass, left, scan, mcus, w);
      left := left[1..];
      ok, vals, w := DecodeOnce(scan, pass, rows, before, vals, mcus, w);
    }
    assert UnderwayNow(scan, pass, before, vals, mcus, w, ok);
    after := Contents(rows);
  }

  /** The MCU has been decoded, or the arrays can be decoded into again when more bytes have arrived. */
  ghost predicate Underway(scan: HuffScan, pass: ScanDecoder, before: seq<JBlock>, vals: seq<seq<Jcoef>>, mcus: seq<Mcu>,
                           w: ScanView, ok: bool)
    reads pass, pass.dec, pass.dec.reader
  {
    forall b {:trigger UnderwayNow(scan, pass, before, vals, mcus, w, b)} :: b == ok ==>
      UnderwayNow(scan, pass, before, vals, mcus, w, b)
  }

  ghost predicate UnderwayNow(scan: HuffScan, pass: ScanDecoder, before: seq<JBlock>, vals: seq<seq<Jcoef>>, mcus: seq<Mcu>,
                              w: ScanView, ok: bool)
    reads pass, pass.dec, pass.dec.reader
  {
    && mcus != [] && pass.dec.Valid()
    && if ok then pass.Awaiting(scan, mcus[1..], w) && McuWaiting(scan, mcus[0], before)
                  && vals == DecodedMcu(scan, mcus[0], before)
       else pass.Awaiting(scan, mcus, w) && McuAgain(scan, mcus[0], before, vals)
            && pass.dec.reader.avail != |pass.dec.reader.raw|
  }

  method DecodeOnce(scan: HuffScan, pass: ScanDecoder, rows: seq<array<Jcoef>>, ghost before: seq<JBlock>,
                    ghost vals: seq<seq<Jcoef>>, ghost mcus: seq<Mcu>, ghost v: ScanView)
    returns (ok: bool, ghost after: seq<seq<Jcoef>>, ghost w: ScanView)
    requires mcus != [] && pass.Awaiting(scan, mcus, v) && McuAgain(scan, mcus[0], before, vals)
    requires Distinct(rows) && |rows| == |scan.membership| && Hold(rows, vals)
    modifies pass, pass.dec, pass.dec.reader`pos, pass.dec.reader`getBuffer, pass.dec.reader`unreadMarker,
             pass.dec.reader`bitsLeft, pass.dec.reader`insufficientData, pass.dec.reader`end, rows
    ensures Hold(rows, after) && w.term == v.term && Underway(scan, pass, before, after, mcus, w, ok)
  {
    var lost;
    ok, lost, after, w := pass.DecodeMcu(scan, rows, vals, mcus, v, true);
    if !ok {
      AgainTwice(scan, mcus[0], before, vals, after);
    }
    assert UnderwayNow(scan, pass, before, after, mcus, w, ok);
  }

  /** decode_mcu for every MCU of a scan; `before` holds the contents of the blocks.  It fails only if not
      all bytes ever arrive. */
  method DecodeScan(scan: HuffScan, pass: ScanDecoder, before: seq<seq<JBlock>>, arrivals: seq<nat>,
                    ghost mcus: seq<Mcu>, ghost v: ScanView)
    returns (ok: bool, after: seq<seq<seq<Jcoef>>>)
    requires forall i :: 0 <= i < |before| ==> |before[i]| == |scan.membership|
    requires pass.Awaiting(scan, mcus, v) && |mcus| == |before|
    requires forall i :: 0 <= i < |mcus| ==> McuWaiting(scan, mcus[i], before[i])
    modifies pass, pass.dec, pass.dec.reader
    ensures pass.dec.Valid()
    ensures !ok ==> InAll(old(pass.dec.reader.avail), arrivals, |pass.dec.reader.raw|) < |pass.dec.reader.raw|
    ensures ok ==> |after| == |before| && forall i :: 0 <= i < |before| ==>
              McuWaiting(scan, mcus[i], before[i]) && after[i] == DecodedMcu(scan, mcus[i], before[i])
    ensures ok ==> pass.dec.reader.end < |pass.dec.reader.raw| && pass.dec.reader.raw[pass.dec.reader.end] == v.term
  {
    ghost var w := v;
    var left := arrivals;
    ok, after := true, [];
    var i: nat := 0;
    while i < |before|
      invariant i <= |before| && |after| == i
      invariant InAll(pass.dec.reader.avail, left, |pass.dec.reader.raw|)
             == InAll(old(pass.dec.reader.avail), arrivals, |pass.dec.reader.raw|)
      invariant pass.Awaiting(scan, mcus[i..], w) && w.term == v.term
      invariant forall j :: 0 <= j < i ==>
                  McuWaiting(scan, mcus[j], before[j]) && after[j] == DecodedMcu(scan, mcus[j], before[j])
    {
      var vals;
      assert mcus[i..][1..] == mcus[i + 1..];
      ok, vals, left, w := DecodeArriving(scan, pass, before[i], left, mcus[i..], w);
      if !ok {
        return;
      }
      after := after + [vals];
      i := i + 1;
    }
    MarkerSeen(w, pass.dec.reader.raw, pass.dec.reader.end, [], pass.restartsToGo);
  }

  // ------------------------------------------------------------------ there and back

  /** What comes of a scan: an error of the encoder (a table that is not accepted, an optimal code that
      is too long, a coefficient that is out of range, a symbol without a code), not enough input,
      or the blocks. */
  datatype Outcome = BadTable | LengthOverflow | BadCoefficient | MissingCode | Starved
                   | Rebuilt(blocks: seq<seq<seq<Jcoef>>>)

  lemma {:induction false} EachHasCodes(t: Tables, lists: seq<seq<Item>>, i: nat)
    requires HaveCodes(t, Flat(lists)) && i < |lists|
    ensures HaveCodes(t, lists[i])
    decreases |lists|
  {
    var n := |lists| - 1;
    HaveCodesConcat(t, Flat(lists[..n]), lists[n]);
    if i < n {
      EachHasCodes(t, lists[..n], i);
    }
  }

  /** The image fits the scan, and the blocks can receive it. */
  ghost predicate Sendable(scan: HuffScan, image: seq<seq<Block>>, before: seq<seq<JBlock>>) {
    && scan.Injective() && |image| == |before|
    && (forall i :: 0 <= i < |image| ==> |image[i]| == |before[i]| == |scan.membership|)
    && forall i :: 0 <= i < |image| ==> McuWaiting(scan, McuOf(scan, image[i]), before[i])
  }

  /** The blocks are those that the scan makes of `before`. */
  ghost predicate Delivered(scan: HuffScan, image: seq<seq<Block>>, before: seq<seq<JBlock>>, after: seq<seq<seq<Jcoef>>>) {
    && |after| == |image| == |before|
    && forall i :: 0 <= i < |image| ==>
         McuWaiting(scan, McuOf(scan, image[i]), before[i]) && after[i] == DecodedMcu(scan, McuOf(scan, image[i]), before[i])
  }

  /** The segments of the scan coded with these tables, with the marker behind them. */
  ghost predicate Carry(t: Tables, segs: seq<Seg>, scan: HuffScan, image: seq<seq<Block>>, bytes: seq<Byte>, term: MarkerByte)
    requires forall i :: 0 <= i < |image| ==> |image[i]| == |scan.membership|
  {
    && segs != [] && ItemLists(segs) == ScanSegments(scan, McusOf(scan, image)) && bytes == SegmentBytes(segs) + Marker(term)
    && HaveCodes(t, Flat(ItemLists(segs))) && forall i :: 0 <= i < |segs| ==> Carries(t, segs[i])
  }

  /** A fresh decoder on the bytes of a scan. */
  method DecodeFresh(scan: HuffScan, slots: HuffSlots, bytes: seq<Byte>, before: seq<seq<JBlock>>, avail: nat,
                     arrivals: seq<nat>, ghost t: Tables, ghost segs: seq<Seg>, ghost image: seq<seq<Block>>,
                     ghost term: MarkerByte)
    returns (r: Outcome)
    requires Derives(t, scan, slots) && Sendable(scan, image, before) && Carry(t, segs, scan, image, bytes, term)
    ensures if r.Rebuilt? then Delivered(scan, image, before, r.blocks)
            else r.Starved? && avail + Arriving(arrivals) < |bytes|
  {
    ghost var v := FreshView(scan, t, segs, bytes, image, term);
    var pass := OpenDecoder(scan, slots, bytes, avail, t, McusOf(scan, image), v);
    InAllSums(if avail <= |bytes| then avail else |bytes|, arrivals, |bytes|);
    var ok, after := DecodeScan(scan, pass, before, arrivals, McusOf(scan, image), v);
    r := if ok then Rebuilt(after) else Starved;
  }

  /** start_pass_huff_decoder. */
  method OpenDecoder(scan: HuffScan, slots: HuffSlots, bytes: seq<Byte>, avail: nat, ghost t: Tables, ghost mcus: seq<Mcu>,
                     ghost v: ScanView)
    returns (pass: ScanDecoder)
    requires Derives(t, scan, slots) && v.t == t && v.sc == scan && v.g.t == t && v.g.sc == scan && v.k == 0
    requires Sees(v, bytes, MarkerFrom(bytes, 0), mcus, scan.restartInterval)
    requires AwaitsPart(v.g, NOTHING.last, 0, BytesBits(DataFrom(bytes, 0)))
    ensures pass.Awaiting(scan, mcus, v) && pass.dec.reader.raw == bytes
    ensures pass.dec.reader.avail == if avail <= |bytes| then avail else |bytes|
    ensures fresh(pass) && fresh(pass.dec) && fresh(pass.dec.reader)
  {
    var ok, d := DeriveDecoderTables(scan, slots);
    AllBothInverted(t, scan, slots, d);
    var reader := new BitReader(bytes, 0, if avail <= |bytes| then avail else |bytes|);
    var dec := new HuffDecoder(reader, d.dc, d.ac);
    pass := new ScanDecoder(dec, scan);
    assert dec.Ahead() == BytesBits(DataFrom(bytes, 0)) by {
      assert [] + BytesBits(DataFrom(bytes, 0)) == BytesBits(DataFrom(bytes, 0));
    }
  }

  lemma AllBothInverted(t: Tables, scan: HuffScan, slots: HuffSlots, d: DecoderTables)
    requires Derives(t, scan, slots) && |d.dc| == |d.ac| == NUM_HUFF_TBLS && SoundUpTo(d, scan, slots, scan.comps)
    ensures forall i: HuffNo :: Inverts(d.dc[i], t.dc[i]) && Inverts(d.ac[i], t.ac[i]) && SoundDc(d.dc[i]) && Sound(d.ac[i])
  {
    forall i: HuffNo
      ensures Inverts(d.dc[i], t.dc[i]) && Inverts(d.ac[i], t.ac[i]) && SoundDc(d.dc[i]) && Sound(d.ac[i])
    {
      BothInverted(t, scan, slots, d, i);
    }
  }

  lemma FreshView(scan: HuffScan, t: Tables, segs: seq<Seg>, bytes: seq<Byte>, image: seq<seq<Block>>, term: MarkerByte)
    returns (v: ScanView)
    requires scan.Injective() && forall i :: 0 <= i < |image| ==> |image[i]| == |scan.membership|
    requires Carry(t, segs, scan, image, bytes, term)
    ensures v.t == t && v.sc == scan && v.g.t == t && v.g.sc == scan && v.k == 0 && v.term == term
    ensures Sees(v, bytes, MarkerFrom(bytes, 0), McusOf(scan, image), scan.restartInterval)
    ensures AwaitsPart(v.g, NOTHING.last, 0, BytesBits(DataFrom(bytes, 0)))
  {
    v := ScanView(t, scan, 0, segs, 0, term, DecGoal(t, scan, [], NOTHING.last, []));
    assert ItemLists(segs)[0..] == ItemLists(segs) && segs[..0] == [];
    StoredFresh(v, bytes);
    assert OpensAtNow(bytes, 0, MarkerFrom(bytes, 0), BytesBits(DataFrom(bytes, 0)));
    var g := SeesStart(v, bytes, MarkerFrom(bytes, 0), BytesBits(DataFrom(bytes, 0)), McusOf(scan, image), NOTHING.last);
    v := v.(g := g);
  }

  lemma StoredFresh(v: ScanView, bytes: seq<Byte>)
    requires v.sc.Injective() && v.segs != [] && v.base == 0 && bytes == SegmentBytes(v.segs) + Marker(v.term)
    requires HaveCodes(v.t, Flat(ItemLists(v.segs))) && forall i :: 0 <= i < |v.segs| ==> Carries(v.t, v.segs[i])
    requires IsAc(v.sc) ==> v.sc.membership == [0]
    ensures Stored(v, bytes)
  {
    forall i | 0 <= i < |v.segs|
      ensures Readable(v.t, v.segs[i])
    {
      EachHasCodes(v.t, ItemLists(v.segs), i);
      assert ReadableNow(v.t, v.segs[i], 0);
    }
    assert StoredNow(v, bytes, 0);
  }

  /** An encoder at the start of a pass. */
  method FreshEncoder(scan: HuffScan, t: Tables, gather: bool) returns (enc: HuffEncoder)
    requires ShortCodes(t)
    ensures enc.Valid() && enc.items == enc.earlier == [] && enc.sent == [] && enc.eobrun == enc.be == 0
    ensures !enc.badCoef && !enc.badCode && enc.lastDcVal == NOTHING.last && enc.sink.trace == []
    ensures enc.tables == t && enc.gather == gather && enc.acTbl == AcNo(scan, 0)
    ensures fresh(enc) && fresh(enc.sink) && fresh(enc.counts) && fresh(enc.counts.dc) && fresh(enc.counts.ac)
    ensures fresh(enc.bitBuffer)
  {
    var sink := new BitSink([]);
    var counts := new SymbolCounts();
    enc := new HuffEncoder(sink, counts, t, gather, AcNo(scan, 0));
  }

  /** The tables have a code for each symbol of the scan. */
  predicate AllListed(scan: HuffScan, slots: HuffSlots, image: seq<seq<Block>>)
    requires forall i :: 0 <= i < |image| ==> |image[i]| == |scan.membership|
  {
    var its := Flat(ScanSegments(scan, McusOf(scan, image)));
    forall i :: 0 <= i < |its| ==> Lists(scan, slots, its[i])
  }

  /** The bytes are those of the scan, with codes from these table slots. */
  ghost predicate Encoded(scan: HuffScan, slots: HuffSlots, image: seq<seq<Block>>, bytes: seq<Byte>, term: MarkerByte)
    requires forall i :: 0 <= i < |image| ==> |image[i]| == |scan.membership|
  {
    exists t: Tables, segs: seq<Seg> :: Derives(t, scan, slots) && Carry(t, segs, scan, image, bytes, term)
  }

  /** A scan with given tables, coded and decoded; only the tables that it needs matter.  Whatever the image, the restart interval, and the
      times at which the input arrives, either the encoder reports why it cannot code the image, or
      some of the bytes it sent never arrive, or the blocks become what the scan makes of them. */
  method Transmit(scan: HuffScan, slots: HuffSlots, image: seq<seq<Block>>, before: seq<seq<JBlock>>, avail: nat,
                  arrivals: seq<nat>, term: MarkerByte)
    returns (r: Outcome, bytes: seq<Byte>)
    requires Sendable(scan, image, before) && (IsAc(scan) ==> scan.membership == [0])
    ensures !r.LengthOverflow? && (r.BadTable? <==> !AllAccepted(scan, slots))
    ensures r.BadCoefficient? <==> AllAccepted(scan, slots) && !Codable(scan, McusOf(scan, image))
    ensures r.MissingCode? <==> AllAccepted(scan, slots) && Codable(scan, McusOf(scan, image)) && !AllListed(scan, slots, image)
    ensures r.Starved? || r.Rebuilt? ==> Encoded(scan, slots, image, bytes, term)
    ensures r.Starved? ==> avail + Arriving(arrivals) < |bytes|
    ensures r.Rebuilt? ==> Delivered(scan, image, before, r.blocks)
  {
    bytes := [];
    var t := DeriveEncoderTables(scan, slots);
    if t.None? {
      return BadTable, bytes;
    }
    ghost var segs;
    r, bytes, segs := SendScan(scan, slots, t.value, image, term);
    if r.Starved? {
      assert Carry(t.value, segs, scan, image, bytes, term);
      r := DecodeFresh(scan, slots, bytes, before, avail, arrivals, t.value, segs, image, term);
    }
  }

  /** The encoder's part: the bytes of the scan (the outcome is then still Starved), or an error. */
  method SendScan(scan: HuffScan, slots: HuffSlots, t: Tables, image: seq<seq<Block>>, term: MarkerByte)
    returns (r: Outcome, bytes: seq<Byte>, ghost segs: seq<Seg>)
    requires Derives(t, scan, slots) && (IsAc(scan) ==> scan.membership == [0])
    requires forall i :: 0 <= i < |image| ==> |image[i]| == |scan.membership|
    ensures r.BadCoefficient? || r.MissingCode? || r.Starved?
    ensures r.BadCoefficient? <==> !Codable(scan, McusOf(scan, image))
    ensures r.MissingCode? <==> Codable(scan, McusOf(scan, image)) && !AllListed(scan, slots, image)
    ensures r.Starved? ==> Carry(t, segs, scan, image, bytes, term)
  {
    CodesAreShort(t, scan, slots);
    var inRange, coded;
    inRange, coded, bytes, segs := WriteScan(scan, t, image, term);
    HaveCodesListed(t, scan, slots, Flat(ScanSegments(scan, McusOf(scan, image))));
    r := if !inRange then BadCoefficient else if !coded then MissingCode else Starved;
  }

  method WriteScan(scan: HuffScan, t: Tables, image: seq<seq<Block>>, term: MarkerByte)
    returns (inRange: bool, coded: bool, bytes: seq<Byte>, ghost segs: seq<Seg>)
    requires ShortCodes(t) && (IsAc(scan) ==> scan.membership == [0])
    requires forall i :: 0 <= i < |image| ==> |image[i]| == |scan.membership|
    ensures inRange <==> Codable(scan, McusOf(scan, image))
    ensures inRange ==> (coded <==> HaveCodes(t, Flat(ScanSegments(scan, McusOf(scan, image)))))
    ensures inRange && coded ==> Carry(t, segs, scan, image, bytes, term)
  {
    var enc := FreshEncoder(scan, t, false);
    inRange, segs := EncodeScan(scan, enc, image);
    coded, bytes := !enc.badCode, enc.sink.dest + Marker(term);
    if inRange {
      assert enc.sink.dest == SegmentBytes(segs);
    }
  }

  /** The counts of each table stay below the limit of jpeg_gen_optimal_table. */
  ghost predicate Countable(scan: HuffScan, image: seq<seq<Block>>)
    requires forall i :: 0 <= i < |image| ==> |image[i]| == |scan.membership|
  {
    forall isDc: bool, tbl: HuffNo :: Tally(Flat(ScanSegments(scan, McusOf(scan, image))), isDc, tbl) < MAX_WEIGHT
  }

  /** start_pass and finish_pass of a gathering pass: the tables for the scan replace those in its slots; none if
      an optimal code is too long or a coefficient cannot be coded. */
  method GatherScan(scan: HuffScan, slots: HuffSlots, image: seq<seq<Block>>) returns (inRange: bool, r: Option<HuffSlots>)
    requires image != [] && forall i :: 0 <= i < |image| ==> |image[i]| == |scan.membership|
    requires forall ci: Component :: ci < scan.comps ==> ci in scan.membership
    requires Countable(scan, image) && (IsAc(scan) ==> scan.membership == [0])
    ensures inRange <==> Codable(scan, McusOf(scan, image))
    ensures r.Some? ==> inRange && MadeFor(scan, slots, r.value, Flat(ScanSegments(scan, McusOf(scan, image))))
    ensures r.Some? ==> AllAccepted(scan, r.value) && AllListed(scan, r.value, image)
    ensures inRange && r.None? ==> SomeOverflow(scan, Flat(ScanSegments(scan, McusOf(scan, image))))
    ensures SomeMustOverflow(scan, Flat(ScanSegments(scan, McusOf(scan, image)))) ==> r.None?
  {
    inRange, r := false, None;
    var counts := GatherCounts(scan, image);
    if counts.Some? {
      inRange := true;
      ComponentsUse(scan, image);
      r := FinishGather(scan, counts.value, slots);
      if r.Some? {
        TablesServe(scan, image, slots, r.value);
      }
    }
  }

  /** The symbols of the scan are counted; none if a coefficient cannot be coded. */
  method GatherCounts(scan: HuffScan, image: seq<seq<Block>>) returns (r: Option<SymbolCounts>)
    requires forall i :: 0 <= i < |image| ==> |image[i]| == |scan.membership|
    requires IsAc(scan) ==> scan.membership == [0]
    ensures r.Some? <==> Codable(scan, McusOf(scan, image))
    ensures r.Some? ==> fresh(r.value.dc) && fresh(r.value.ac) && r.value.Valid() && AllUsable(r.value.seen)
                        && r.value.seen == Flat(ScanSegments(scan, McusOf(scan, image)))
  {
    var none := CTable(seq(256, _ => 0), seq(256, _ => 0));
    var enc := FreshEncoder(scan, TableSet([none, none, none, none], [none, none, none, none]), true);
    var ok;
    ghost var segs;
    ok, segs := EncodeScan(scan, enc, image);
    r := if ok then Some(enc.counts) else None;
  }

  lemma TablesServe(scan: HuffScan, image: seq<seq<Block>>, was: HuffSlots, slots: HuffSlots)
    requires forall i :: 0 <= i < |image| ==> |image[i]| == |scan.membership|
    requires MadeFor(scan, was, slots, Flat(ScanSegments(scan, McusOf(scan, image))))
    ensures AllAccepted(scan, slots) && AllListed(scan, slots, image)
  {
    SymbolsListed(scan, McusOf(scan, image), was, slots);
  }

  lemma ComponentsUse(scan: HuffScan, image: seq<seq<Block>>)
    requires image != [] && forall i :: 0 <= i < |image| ==> |image[i]| == |scan.membership|
    requires forall ci: Component :: ci < scan.comps ==> ci in scan.membership
    requires Countable(scan, image)
    ensures forall ci: Component :: ci < scan.comps ==> Makeable(scan, Flat(ScanSegments(scan, McusOf(scan, image))), ci)
  {
    forall ci: Component | ci < scan.comps
      ensures Makeable(scan, Flat(ScanSegments(scan, McusOf(scan, image))), ci)
    {
      ComponentUses(scan, image, ci);
    }
  }

  lemma ComponentUses(scan: HuffScan, image: seq<seq<Block>>, ci: Component)
    requires image != [] && forall i :: 0 <= i < |image| ==> |image[i]| == |scan.membership|
    requires ci < scan.comps && ci in scan.membership && Countable(scan, image)
    ensures Makeable(scan, Flat(ScanSegments(scan, McusOf(scan, image))), ci)
  {
    if CodesDc(scan) {
      assert NeedsDc(scan, DcNo(scan, ci));
      EachNeeded(scan, McusOf(scan, image), true, ci);
    }
    if scan.Last() != 0 {
      assert NeedsAc(scan, AcNo(scan, ci));
      EachNeeded(scan, McusOf(scan, image), false, ci);
    }
  }

  /** With less symbols than this for each table, no table overflows. */
  lemma SmallScansNeverOverflow(scan: HuffScan, image: seq<seq<Block>>)
    requires forall i :: 0 <= i < |image| ==> |image[i]| == |scan.membership|
    requires forall isDc: bool, tbl: HuffNo :: Tally(Flat(ScanSegments(scan, McusOf(scan, image))), isDc, tbl) < 9227464
    ensures !SomeOverflow(scan, Flat(ScanSegments(scan, McusOf(scan, image))))
  {
    var its := Flat(ScanSegments(scan, McusOf(scan, image)));
    forall isDc: bool, tbl: HuffNo
      ensures !Overflows(its, isDc, tbl)
    {
      assert Tally(its, isDc, tbl) < 9227464;
      FewNeverOverflow(its, isDc, tbl);
    }
  }

  /** A scan with tables made for it, whatever was in the slots: unless the code of a table is too long, the pass that
      writes the scan never meets a symbol without a code, and what it writes is decoded to the blocks. */
  method TransmitOptimized(scan: HuffScan, was: HuffSlots, image: seq<seq<Block>>, before: seq<seq<JBlock>>, avail: nat,
                           arrivals: seq<nat>, term: MarkerByte)
    returns (r: Outcome, bytes: seq<Byte>)
    requires Sendable(scan, image, before) && (IsAc(scan) ==> scan.membership == [0])
    requires image != [] && forall ci: Component :: ci < scan.comps ==> ci in scan.membership
    requires Countable(scan, image)
    ensures !r.BadTable? && !r.MissingCode?
    ensures r.LengthOverflow? ==> SomeOverflow(scan, Flat(ScanSegments(scan, McusOf(scan, image))))
    ensures !r.BadCoefficient? && SomeMustOverflow(scan, Flat(ScanSegments(scan, McusOf(scan, image)))) ==> r.LengthOverflow?
    ensures r.BadCoefficient? <==> !Codable(scan, McusOf(scan, image))
    ensures r.Starved? ==> avail + Arriving(arrivals) < |bytes|
    ensures r.Rebuilt? ==> Delivered(scan, image, before, r.blocks)
  {
    bytes := [];
    var inRange, slots := GatherScan(scan, was, image);
    if !inRange {
      return BadCoefficient, bytes;
    }
    if slots.None? {
      return LengthOverflow, bytes;
    }
    r, bytes := Transmit(scan, slots.value, image, before, avail, arrivals, term);
  }
}
