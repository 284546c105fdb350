/** A whole scan through the arithmetic coder: the decoder rebuilds what the encoder was given,
    restart markers and all. */
module ArithWholeScan {
  import opened ArithTable
  import opened ArithCoding
  import opened ArithModel
  import opened ArithBlocks
  import opened ArithScan
  import opened ArithCoderObject
  import opened ArithDecoderObject
  import opened ArithMcuEncoder
  import opened ArithMcuDecoder

  /** A block in the order in which it is stored. */
  type Block = b: seq<Coef> | |b| == 64 witness seq(64, _ => 0)

  type JBlock = b: seq<Jcoef> | |b| == 64 witness seq(64, _ => 0)

  function McuOf(sc: Scan, blocks: seq<Block>): (zs: Mcu)
    ensures |zs| == |blocks|
  {
    seq(|blocks|, i requires 0 <= i < |blocks| => ZigZag(sc, blocks[i]))
  }

  function McusOf(sc: Scan, image: seq<seq<Block>>): (mcus: seq<Mcu>)
    ensures |mcus| == |image| && forall i :: 0 <= i < |image| ==> mcus[i] == McuOf(sc, image[i])
  {
    seq(|image|, i requires 0 <= i < |image| => McuOf(sc, image[i]))
  }

  method MakeArray<T(0)>(s: seq<T>) returns (a: array<T>)
    ensures fresh(a) && a[..] == s
  {
    a := new T[|s|];
    for i := 0 to |s|
      invariant a[..i] == s[..i]
    {
      a[i] := s[i];
    }
  }

  method EncoderBlocks(sc: Scan, blocks: seq<Block>) returns (rows: seq<array<Coef>>)
    ensures fresh(rows) && |rows| == |blocks|
    ensures forall j :: 0 <= j < |rows| ==> rows[j].Length == 64 && rows[j][..] == blocks[j]
  {
    rows := [];
    for i := 0 to |blocks|
      invariant fresh(rows) && |rows| == i
      invariant forall j :: 0 <= j < i ==> rows[j].Length == 64 && rows[j][..] == blocks[j]
    {
      var row := MakeArray(blocks[i]);
      rows := rows + [row];
    }
  }

  /** start_pass, encode_mcu for every MCU, finish_pass. */
  method EncodeScan(scan: Scan, enc: McuEncoder, image: seq<seq<Block>>, ghost code: SegmentCoder)
    requires enc.Valid() && IsArith(code) && forall i :: 0 <= i < |image| ==> |image[i]| == |scan.membership|
    modifies enc, enc.coder, enc.coder.opening
    ensures enc.coder.dest == old(enc.coder.dest)
              + ScanBytes(code, scan, Cleared(scan, old(enc.coder.Model())), [], RestartPreds(scan, old(enc.Predictors())),
                          McusOf(scan, image), scan.restartInterval, 0)
  {
    ghost var mcus := McusOf(scan, image);
    ghost var bytes := enc.StartPass(scan, code, mcus);
    for i := 0 to |image|
      invariant enc.Promises(code, scan, mcus[i..], bytes)
    {
      var rows := EncoderBlocks(scan, image[i]);
      assert mcus[i..][1..] == mcus[i + 1..];
      enc.EncodeMcu(scan, rows, code, mcus[i..], bytes);
    }
    enc.FinishPass(scan, code, bytes);
  }

  /** Fresh arrays with the given contents, for one MCU. */
  method DecoderBlocks(vals: seq<JBlock>) returns (rows: seq<array<Jcoef>>)
    ensures fresh(rows) && |rows| == |vals| && Distinct(rows) && Hold(rows, vals)
  {
    rows := [];
    for i := 0 to |vals|
      invariant fresh(rows) && |rows| == i && DistinctNow(rows)
      invariant forall j :: 0 <= j < i ==> rows[j][..] == vals[j]
    {
      var row := MakeArray(vals[i]);
      rows := rows + [row];
    }
    assert rows[..|rows|] == rows;
  }

  method Contents(rows: seq<array<Jcoef>>) returns (vals: seq<seq<Jcoef>>)
    ensures |vals| == |rows| && forall j :: 0 <= j < |rows| ==> vals[j] == rows[j][..]
  {
    vals := [];
    for i := 0 to |rows|
      invariant |vals| == i && forall j :: 0 <= j < i ==> vals[j] == rows[j][..]
    {
      vals := vals + [rows[i][..]];
    }
  }

  /** decode_mcu on fresh arrays that hold `vals`. */
  method DecodeFrom(scan: Scan, dec: McuDecoder, vals: seq<JBlock>, ghost on: bool, ghost mcus: seq<Mcu>, ghost o: Outlook)
    returns (ok: bool, after: seq<seq<Jcoef>>, ghost o1: Outlook)
    requires dec.Valid(scan) && |vals| == |scan.membership|
    requires on ==> mcus != [] && dec.Awaits(scan, mcus, o) && AllPrimed(scan, mcus[0], vals)
    modifies dec, dec.dec, dec.dec.closing
    ensures ok ==> dec.Valid(scan)
    ensures on ==> ok && AllPrimed(scan, mcus[0], vals) && after == AllDecoded(scan, mcus[0], vals, |vals|)
    ensures on ==> dec.Awaits(scan, mcus[1..], o1) && o1.term == o.term
  {
    var rows := DecoderBlocks(vals);
    ok, o1 := dec.DecodeMcu(scan, rows, vals, on, mcus, o);
    after := Contents(rows);
    if on {
      assert ReceivedNow(scan, rows, mcus[0], vals);
    }
  }

  /** start_pass, and decode_mcu for every MCU; `before` holds the contents of the blocks. */
  method DecodeScan(scan: Scan, dec: McuDecoder, before: seq<seq<JBlock>>,
                    ghost on: bool, ghost mcus: seq<Mcu>, ghost o: Outlook)
    returns (ok: bool, after: seq<seq<seq<Jcoef>>>)
    requires dec.Shape() && dec.dec.InputOk() && dec.dec.unreadMarker == 0
    requires forall i :: 0 <= i < |before| ==> |before[i]| == |scan.membership|
    requires on ==> dec.Agrees(o.p) && IsArith(o.code) && scan.Injective()
    requires on ==> Starts(o.code, scan, dec.dec.raw, dec.dec.pos, Cleared(scan, dec.dec.Model()),
                           RestartPreds(scan, o.p), mcus, 0, o.term)
    requires on ==> |mcus| == |before| && forall i :: 0 <= i < |mcus| ==> AllPrimed(scan, mcus[i], before[i])
    modifies dec, dec.dec, dec.dec.closing
    ensures on ==> ok && |after| == |before|
    ensures on ==> forall i :: 0 <= i < |before| ==>
              AllPrimed(scan, mcus[i], before[i]) && after[i] == AllDecoded(scan, mcus[i], before[i], |before[i]|)
    ensures on ==> dec.dec.InputOk() && dec.dec.MarkerCode() == o.term
  {
    ghost var o1 := dec.StartPass(scan, on, mcus, o);
    ok, after := true, [];
    var i: nat := 0;
    while i < |before|
      invariant dec.Valid(scan) && i <= |before| && |after| == i
      invariant on ==> dec.Awaits(scan, mcus[i..], o1) && o1.term == o.term
      invariant on ==> Rebuilt(scan, mcus, before, after)
    {
      var vals;
      assert on ==> mcus[i..][1..] == mcus[i + 1..];
      ok, vals, o1 := DecodeFrom(scan, dec, before[i], on, if on then mcus[i..] else [], o1);
      if !ok {
        return;
      }
      after := after + [vals];
      i := i + 1;
    }
    if on {
      ExpectsEnd(o1, scan, dec.dec.raw);
      assert dec.dec.EndsAt(dec.dec.closing.behind, dec.dec.closing.code);
    }
  }

  /** The blocks of the first MCUs have become what decoding makes of them. */
  ghost predicate Rebuilt(scan: Scan, mcus: seq<Mcu>, before: seq<seq<JBlock>>, after: seq<seq<seq<Jcoef>>>)
    requires |after| <= |before| == |mcus|
  {
    forall j :: 0 <= j < |after| ==>
      AllPrimed(scan, mcus[j], before[j]) && after[j] == AllDecoded(scan, mcus[j], before[j], |before[j]|)
  }

  /** The predictions of a coder that has just been created. */
  const NO_PREDS: Preds := Preds([0, 0, 0, 0], [0, 0, 0, 0])

  /** A scan that follows the creation of the coder. */
  ghost function FirstScan(tab: Table, scan: Scan, mcus: seq<Mcu>): seq<Byte>
    requires Fit(scan, mcus)
  {
    ScanBytes(ArithSegment, scan, Cleared(scan, FreshStats(tab)), [], RestartPreds(scan, NO_PREDS), mcus,
              scan.restartInterval, 0)
  }

  method EncodeFirst(tab: Table, scan: Scan, image: seq<seq<Block>>) returns (bytes: seq<Byte>)
    requires forall i :: 0 <= i < |image| ==> |image[i]| == |scan.membership|
    ensures bytes == FirstScan(tab, scan, McusOf(scan, image))
  {
    var coder := new ArithCoder(tab);
    var enc := new McuEncoder(coder);
    EncodeScan(scan, enc, image, ArithSegment);
    bytes := coder.dest;
  }

  method DecodeFirst(tab: Table, scan: Scan, raw: seq<Byte>, before: seq<seq<JBlock>>,
                     ghost on: bool, ghost mcus: seq<Mcu>, ghost term: MarkerByte)
    returns (ok: bool, after: seq<seq<seq<Jcoef>>>)
    requires forall i :: 0 <= i < |before| ==> |before[i]| == |scan.membership|
    requires on ==> scan.Injective() && Fit(scan, mcus) && raw == FirstScan(tab, scan, mcus) + Marker(term)
    requires on ==> |mcus| == |before| && forall i :: 0 <= i < |mcus| ==> AllPrimed(scan, mcus[i], before[i])
    ensures on ==> ok && |after| == |before|
    ensures on ==> forall i :: 0 <= i < |before| ==>
              AllPrimed(scan, mcus[i], before[i]) && after[i] == AllDecoded(scan, mcus[i], before[i], |before[i]|)
  {
    var reader := new ArithDecoder(tab, raw, 0);
    var dec := new McuDecoder(reader);
    assert reader.EndsAt(reader.closing.behind, reader.closing.code);
    ghost var o := Outlook(ArithSegment, term, NO_PREDS, 0, 0, [], (DecStart([]), FreshStats(tab)), 0, 0);
    ok, after := DecodeScan(scan, dec, before, on, mcus, o);
  }

  /** What is coded with a fresh encoder is decoded by a fresh decoder, whatever the coefficients,
      the conditioning values and the restart interval: every block ends up as Decoded says. */
  method Transmit(tab: Table, scan: Scan, image: seq<seq<Block>>, before: seq<seq<JBlock>>, term: MarkerByte)
    returns (ok: bool, after: seq<seq<seq<Jcoef>>>)
    requires scan.Injective() && |image| == |before|
    requires forall i :: 0 <= i < |image| ==> |image[i]| == |before[i]| == |scan.membership|
    requires forall i :: 0 <= i < |image| ==> AllPrimed(scan, McuOf(scan, image[i]), before[i])
    ensures ok && |after| == |image|
    ensures forall i :: 0 <= i < |image| ==>
              AllPrimed(scan, McuOf(scan, image[i]), before[i])
              && after[i] == AllDecoded(scan, McuOf(scan, image[i]), before[i], |before[i]|)
  {
    var bytes := EncodeFirst(tab, scan, image);
    ok, after := DecodeFirst(tab, scan, bytes + Marker(term), before, true, McusOf(scan, image), term);
  }
}
