/** Reading a file of several scans (jdinput.c, jdapistd.c and decompress_data of jdcoefct.c): each scan is stored
    over the arrays that the scans before it have left, and an output pass can run while scans are still to
    come, forcing the input to stay ahead of it. */
module BufferedImage {
  import opened SizeArithmetic
  import opened ArithWholeScan
  import opened BlockLayout
  import opened McuBuilders
  import opened CoefInput
  import opened CoefOutput

  // ------------------------------------------------------------------ what the scans make of the arrays

  /** A scan of the file: its MCUs, as the entropy decoder delivers them, and what it makes of a block. */
  datatype CodedScan = CodedScan(s: BlockScan, decode: Decoding, mcus: seq<seq<Block>>, dct: Place -> Block)

  ghost predicate GoodScans(f: Frame, scans: seq<CodedScan>) {
    forall i :: 0 <= i < |scans| ==> scans[i].s.f == f && scans[i].mcus == AllMcus(scans[i].s, scans[i].dct)
  }

  /** The arrays hold every component, padded to whole MCUs. */
  ghost predicate HasArrays(f: Frame, image: map<Place, JBlock>) {
    forall p: Place :: p.c < |f.planes| && p.row < f.total * f.planes[p.c].v && p.col < f.across * f.planes[p.c].h ==> p in image
  }

  lemma ArraysHaveRoom(s: BlockScan, image: map<Place, JBlock>)
    requires HasArrays(s.f, image)
    ensures HasRoom(s, image)
  {
    forall p: Place | Covered(s, p)
      ensures p in image
    {
      var j :| 0 <= j < |s.sel| && CoveredIn(s, j, p);
      assert s.f.Fits(PlaneAt(s, j));
    }
  }

  lemma ArraysHaveRow(f: Frame, image: map<Place, JBlock>, r: nat)
    requires HasArrays(f, image)
    ensures forall p: Place :: RealIn(f, r, p) ==> p in image
  {
    forall p: Place | RealIn(f, r, p)
      ensures p in image
    {
      assert f.Fits(f.planes[p.c]);
    }
  }

  /** A scan decodes each block that it covers from what the block held. */
  ghost function AfterScan(scan: CodedScan, image: map<Place, JBlock>): (now: map<Place, JBlock>)
    ensures now.Keys == image.Keys
  {
    map p | p in image ::
      if Covered(scan.s, p) then scan.decode(Padded(scan.s.f, scan.dct, p), image[p]) else image[p]
  }

  /** The arrays after the first n scans. */
  ghost function ImageAfter(scans: seq<CodedScan>, image: map<Place, JBlock>, n: nat): (now: map<Place, JBlock>)
    requires n <= |scans|
    ensures now.Keys == image.Keys
  {
    if n == 0 then image else AfterScan(scans[n - 1], ImageAfter(scans, image, n - 1))
  }

  /** At least the first lo scans have left these contents in the block, and at most the first hi. */
  ghost predicate LeftBy(scans: seq<CodedScan>, image: map<Place, JBlock>, b: JBlock, p: Place, lo: nat, hi: nat)
    requires hi <= |scans| && p in image
  {
    exists n :: lo <= n <= hi && b == ImageAfter(scans, image, n)[p]
  }

  /** Exactly the real blocks of iMCU row r, each as at least the first lo scans have left it, and at most the
      first hi. */
  ghost predicate RowBetween(f: Frame, scans: seq<CodedScan>, image: map<Place, JBlock>, row: map<Place, JBlock>, r: nat,
                             lo: nat, hi: nat)
    requires hi <= |scans|
  {
    && (forall p: Place :: p in row <==> RealIn(f, r, p))
    && forall p: Place :: p in row ==> p in image && LeftBy(scans, image, row[p], p, lo, hi)
  }

  /** Each row given is such a row. */
  ghost predicate RowsBetween(f: Frame, scans: seq<CodedScan>, image: map<Place, JBlock>, rows: seq<map<Place, JBlock>>,
                              lo: nat, hi: nat)
    requires hi <= |scans|
  {
    forall r :: 0 <= r < |rows| ==> RowBetween(f, scans, image, rows[r], r, lo, hi)
  }

  /** The input is ahead of this iMCU row of the output pass for scan `output`. */
  predicate Ahead(inputScan: nat, inputRow: nat, output: nat, outputRow: nat) {
    inputScan > output || (inputScan == output && inputRow > outputRow)
  }

  /** A block of an iMCU row that the input has passed has been visited. */
  lemma PassedIsVisited(s: BlockScan, r: nat, now: nat, y: nat, m: nat, p: Place)
    requires r < now && RealIn(s.f, r, p) && Covered(s, p)
    ensures Visited(s, now, y, m, p)
  {
    var j :| 0 <= j < |s.sel| && CoveredIn(s, j, p);
    var v := PlaneAt(s, j).v;
    Scale(r + 1, now, v);
    Scale(now, now + y, v);
    assert (r + 1) * v == r * v + v;
    assert VisitedIn(s, now, y, m, j, p);
  }

  lemma VisitedIsCovered(s: BlockScan, r: nat, y: nat, m: nat, p: Place)
    ensures Visited(s, r, y, m, p) ==> Covered(s, p)
  {
  }

  // ------------------------------------------------------------------ the decompressor

  /** What consume_input returns; EoiExpected is an error exit. */
  datatype Progress = Suspended | ReachedSos | ReachedEoi | RowCompleted | ScanCompleted | EoiExpected

  /** What decompress_data returns, with the blocks given to the inverse DCT. */
  datatype Output = Waits | Refused | Gives(row: map<Place, JBlock>, last: bool)

  /** Markers and MCUs of the scans behind the first n. */
  ghost function LaterUnits(scans: seq<CodedScan>, n: nat): nat
    requires n <= |scans|
    decreases |scans| - n
  {
    if n == |scans| then 0 else 1 + |scans[n].mcus| + LaterUnits(scans, n + 1)
  }

  /** Numbers of the scan being read and of the scan for which output is made, EOI, what is at hand, and what
      is still to be read. */
  datatype InputPosition = InputPosition(inputScan: nat, outputScan: nat, eoi: bool, available: nat, remaining: nat)

  /** What is found between two scans: after EOI nothing more; otherwise the next marker, if it is at hand.  Behind
      a scan with all components of a sequential frame, only EOI is expected. */
  function AtMarkers(scans: nat, multiple: bool, was: InputPosition): Progress {
    if was.available == 0 && !was.eoi then Suspended
    else if was.eoi || was.inputScan == scans then ReachedEoi
    else if multiple then ReachedSos else EoiExpected
  }

  /** Units at hand have been read, and the number of the scan for which output is made is changed only by EOI,
      to that of the last scan. */
  predicate Reads(scans: nat, was: InputPosition, now: InputPosition) {
    && was.inputScan <= now.inputScan && (was.eoi ==> now.eoi)
    && now.outputScan == (if now.eoi && was.outputScan > scans then scans else was.outputScan)
    && now.remaining + was.available == was.remaining + now.available && now.remaining <= was.remaining
  }

  /** The same, with units that have come to hand in the meantime. */
  predicate ReadsOn(scans: nat, was: InputPosition, now: InputPosition) {
    && was.inputScan <= now.inputScan && (was.eoi ==> now.eoi) && now.remaining <= was.remaining
    && now.outputScan == if now.eoi && was.outputScan > scans then scans else was.outputScan
  }

  class Decompressor {
    const f: Frame
    const scans: seq<CodedScan>             // the scans of the file
    const hasMultipleScans: bool
    const coef: InputController
    ghost const image: map<Place, JBlock>   // the arrays before the first scan
    var inputScanNumber: nat
    var outputScanNumber: nat
    var outputImcuRow: nat
    var inMarkers: bool                     // consume_input is consume_markers
    var eoiReached: bool
    var available: nat                      // MCUs, and markers between scans, at hand

    /** The markers up to the first SOS have been read. */
    constructor (scans: seq<CodedScan>, progressive: bool, image: map<Place, JBlock>)
      requires scans != [] && GoodScans(scans[0].s.f, scans) && HasArrays(scans[0].s.f, image)
      ensures f == scans[0].s.f && this.scans == scans && this.image == image && fresh(coef)
      ensures hasMultipleScans == (progressive || |scans[0].s.sel| < |scans[0].s.f.planes|)
      ensures Valid() && inputScanNumber == outputScanNumber == 1 && outputImcuRow == 0 && !eoiReached && available == 0
      ensures Remaining() == LaterUnits(scans, 0)
    {
      ArraysHaveRoom(scans[0].s, image);
      RowsAreSome(scans[0].s, 0);
      f, this.scans, this.image := scans[0].s.f, scans, image;
      hasMultipleScans := progressive || |scans[0].s.sel| < |scans[0].s.f.planes|;
      coef := new InputController(scans[0].s, scans[0].decode, image, scans[0].mcus, scans[0].dct);
      inputScanNumber, outputScanNumber, outputImcuRow := 1, 1, 0;
      inMarkers, eoiReached, available := false, false, 0;
      new;
      assert ImageAfter(scans, image, 0) == image;
      assert Reading(1);
    }

    ghost predicate Valid()
      reads this, coef
    {
      && 1 <= inputScanNumber <= |scans| && (inputScanNumber > 1 ==> hasMultipleScans)
      && 1 <= outputScanNumber && outputImcuRow <= f.total
      && (eoiReached ==> inMarkers && inputScanNumber == |scans| && outputScanNumber <= |scans|)
      && coef.inputImcuRow <= f.total && (inMarkers <==> coef.inputImcuRow == f.total)
      && forall n: nat {:trigger Reading(n)} :: n == inputScanNumber ==> Reading(n)
    }

    /** The coefficient controller is in scan n, or has just completed it. */
    ghost predicate Reading(n: nat)
      requires 1 <= n <= |scans|
      reads coef
    {
      var scan := scans[n - 1];
      && coef.f == f && GoodScans(f, scans) && HasArrays(f, image)
      && coef.Valid() && coef.s == scan.s && coef.decode == scan.decode && coef.dct == scan.dct
      && coef.start == ImageAfter(scans, image, n - 1)
    }

    /** What is still to be read, in MCUs and markers. */
    ghost function Remaining(): nat
      requires inputScanNumber <= |scans|
      reads this, coef
    {
      1 + |coef.input| + LaterUnits(scans, inputScanNumber) - (if eoiReached then 1 else 0)
    }

    /** Where the input is. */
    ghost function Input(): InputPosition
      requires inputScanNumber <= |scans|
      reads this, coef
    {
      InputPosition(inputScanNumber, outputScanNumber, eoiReached, available, Remaining())
    }

    /** The arrays hold all of the scans that have been completed. */
    lemma ScanStored()
      requires Valid() && inMarkers
      ensures coef.wholeImage == ImageAfter(scans, image, inputScanNumber) && coef.input == []
    {
      assert Reading(inputScanNumber);
      assert coef.wholeImage.Keys == image.Keys;
    }

    /** consume_input: consume_data, or consume_markers between scans. */
    method ConsumeInput() returns (code: Progress)
      requires Valid()
      modifies this`inputScanNumber, this`outputScanNumber, this`inMarkers, this`eoiReached, this`available, coef
      ensures Valid() && Reads(|scans|, old(Input()), Input())
      ensures code.Suspended? ==> available == 0 && inputScanNumber == old(inputScanNumber)
      ensures !code.Suspended? && !code.EoiExpected? && !old(eoiReached) ==> Remaining() < old(Remaining())
      ensures code.RowCompleted? || code.ScanCompleted? ==>
                inputScanNumber == old(inputScanNumber) && coef.inputImcuRow == old(coef.inputImcuRow) + 1
      ensures code.ScanCompleted? <==> !old(inMarkers) && coef.inputImcuRow == old(coef.inputImcuRow) + 1 == f.total
      ensures code.RowCompleted? <==> !old(inMarkers) && coef.inputImcuRow == old(coef.inputImcuRow) + 1 < f.total
      ensures !old(inMarkers) && code.Suspended? <==> !old(inMarkers) && coef.inputImcuRow == old(coef.inputImcuRow)
      ensures old(inMarkers) ==> code == AtMarkers(|scans|, hasMultipleScans, old(Input()))
      ensures code.ReachedSos? ==> inputScanNumber == old(inputScanNumber) + 1 && hasMultipleScans && !inMarkers
      ensures (code.ReachedEoi? <==> eoiReached) && (code.ReachedEoi? ==> inMarkers && coef.inputImcuRow == f.total)
      ensures code.EoiExpected? ==>
                inMarkers && !hasMultipleScans && 1 == inputScanNumber < |scans| && unchanged(this) && unchanged(coef)
    {
      if inMarkers {
        code := ConsumeMarkers();
      } else {
        assert Reading(inputScanNumber);
        var done, left := coef.ConsumeData(available);
        available := left;
        inMarkers := coef.inputImcuRow == f.total;
        assert Reading(inputScanNumber);
        code := if !done then Suspended else if inMarkers then ScanCompleted else RowCompleted;
      }
    }

    /** consume_markers, between scans and behind the last. */
    method ConsumeMarkers() returns (code: Progress)
      requires Valid() && inMarkers
      modifies this`inputScanNumber, this`outputScanNumber, this`inMarkers, this`eoiReached, this`available, coef
      ensures Valid() && Reads(|scans|, old(Input()), Input())
      ensures code.Suspended? || code.ReachedSos? || code.ReachedEoi? || code.EoiExpected?
      ensures code.Suspended? ==> available == 0 && inputScanNumber == old(inputScanNumber)
      ensures !code.Suspended? && !code.EoiExpected? && !old(eoiReached) ==> Remaining() < old(Remaining())
      ensures code == AtMarkers(|scans|, hasMultipleScans, old(Input()))
      ensures code.ReachedSos? ==> inputScanNumber == old(inputScanNumber) + 1 && hasMultipleScans && !inMarkers
      ensures (code.ReachedEoi? <==> eoiReached) && (code.ReachedEoi? ==> inMarkers && coef.inputImcuRow == f.total)
      ensures code.EoiExpected? ==>
                inMarkers && !hasMultipleScans && 1 == inputScanNumber < |scans| && unchanged(this) && unchanged(coef)
    {
      if eoiReached {
        return ReachedEoi;
      }
      if available == 0 {
        return Suspended;
      }
      if inputScanNumber < |scans| {
        if !hasMultipleScans {
          return EoiExpected;
        }
        StartInputPass();
        return ReachedSos;
      }
      available, eoiReached := available - 1, true;
      if outputScanNumber > inputScanNumber {
        outputScanNumber := inputScanNumber;
      }
      return ReachedEoi;
    }

    /** The next SOS, and start_input_pass. */
    method StartInputPass()
      requires Valid() && inMarkers && available > 0 && inputScanNumber < |scans| && hasMultipleScans
      modifies this`inputScanNumber, this`inMarkers, this`available, coef
      ensures Valid() && inputScanNumber == old(inputScanNumber) + 1 && !eoiReached && !inMarkers
      ensures Remaining() == old(Remaining()) - 1 && available == old(available) - 1
    {
      ScanStored();
      assert Reading(inputScanNumber);
      var scan := scans[inputScanNumber];
      ArraysHaveRoom(scan.s, coef.wholeImage);
      coef.StartInputPass(scan.s, scan.decode, scan.mcus, scan.dct);
      available, inputScanNumber, inMarkers := available - 1, inputScanNumber + 1, false;
      assert Reading(inputScanNumber);
    }

    /** A block that the input has passed holds what at least the first outputScanNumber scans have left. */
    lemma BlockIsLate(p: Place)
      requires Valid() && Ahead(inputScanNumber, coef.inputImcuRow, outputScanNumber, outputImcuRow)
      requires RealIn(f, outputImcuRow, p)
      ensures p in coef.wholeImage && p in image
      ensures LeftBy(scans, image, coef.wholeImage[p], p, outputScanNumber, inputScanNumber)
    {
      var n := inputScanNumber;
      assert Reading(n);
      var scan := scans[n - 1];
      ArraysHaveRow(f, image, outputImcuRow);
      if inMarkers {
        ScanStored();
        assert coef.wholeImage[p] == ImageAfter(scans, image, n)[p];
      } else {
        KeysKept(scan.s, scan.dct, scan.decode, coef.start, coef.wholeImage, coef.inputImcuRow, coef.mcuVertOffset, coef.mcuCtr);
        assert DecodedNow(scan.s, scan.dct, scan.decode, coef.start, coef.wholeImage, coef.inputImcuRow, coef.mcuVertOffset,
                          coef.mcuCtr);
        if Covered(scan.s, p) && n == outputScanNumber {
          PassedIsVisited(scan.s, outputImcuRow, coef.inputImcuRow, coef.mcuVertOffset, coef.mcuCtr, p);
        }
        VisitedIsCovered(scan.s, coef.inputImcuRow, coef.mcuVertOffset, coef.mcuCtr, p);
        assert coef.wholeImage[p] == ImageAfter(scans, image, n)[p] || coef.wholeImage[p] == ImageAfter(scans, image, n - 1)[p];
      }
    }

    lemma BlocksAreLate()
      requires Valid() && Ahead(inputScanNumber, coef.inputImcuRow, outputScanNumber, outputImcuRow)
      ensures forall p :: RealIn(f, outputImcuRow, p) ==>
                p in coef.wholeImage && p in image
                && LeftBy(scans, image, coef.wholeImage[p], p, outputScanNumber, inputScanNumber)
    {
      forall p | RealIn(f, outputImcuRow, p)
        ensures p in coef.wholeImage && p in image
        ensures LeftBy(scans, image, coef.wholeImage[p], p, outputScanNumber, inputScanNumber)
      {
        BlockIsLate(p);
      }
    }

    /** Behind EOI, the output cannot wait for a scan that does not come. */
    lemma EoiIsAhead()
      requires Valid() && eoiReached && outputImcuRow < f.total
      ensures Ahead(inputScanNumber, coef.inputImcuRow, outputScanNumber, outputImcuRow)
    {
    }

    /** Force some input to be done if the output is getting ahead of it. */
    method ForceInput() returns (code: Progress)
      requires Valid() && outputImcuRow < f.total
      modifies this`inputScanNumber, this`outputScanNumber, this`inMarkers, this`eoiReached, this`available, coef
      ensures Valid() && Reads(|scans|, old(Input()), Input())
      ensures code.Suspended? ==> available == 0
      ensures code.EoiExpected? ==> !hasMultipleScans && 1 == inputScanNumber < |scans| && outputScanNumber > 1
      ensures code.Suspended? || code.EoiExpected? || Ahead(inputScanNumber, coef.inputImcuRow, outputScanNumber, outputImcuRow)
    {
      code := RowCompleted;
      while !Ahead(inputScanNumber, coef.inputImcuRow, outputScanNumber, outputImcuRow)
        invariant Valid() && Reads(|scans|, old(Input()), Input())
        invariant !code.Suspended? && !code.EoiExpected?
        decreases Remaining()
      {
        if eoiReached {
          EoiIsAhead();
        }
        code := ConsumeInput();
        if code.Suspended? || code.EoiExpected? {
          return;
        }
      }
    }

    /** decompress_data: once the input is ahead, a row of blocks is given. */
    method DecompressData() returns (r: Output)
      requires Valid() && outputImcuRow < f.total
      modifies this, coef
      ensures Valid() && Reads(|scans|, old(Input()), Input())
      ensures outputImcuRow == old(outputImcuRow) + (if r.Gives? then 1 else 0)
      ensures r.Waits? ==> available == 0
      ensures r.Refused? ==> !hasMultipleScans && 1 == inputScanNumber < |scans| && outputScanNumber > 1
      ensures r.Gives? ==> RowBetween(f, scans, image, r.row, old(outputImcuRow), outputScanNumber, inputScanNumber)
                           && r.last == (outputImcuRow == f.total)
    {
      var code := ForceInput();
      if code.Suspended? {
        return Waits;
      }
      if code.EoiExpected? {
        return Refused;
      }
      var row := GiveImcuRow();
      outputImcuRow := outputImcuRow + 1;
      return Gives(row, outputImcuRow == f.total);
    }

    method GiveImcuRow() returns (row: map<Place, JBlock>)
      requires Valid() && outputImcuRow < f.total
      requires Ahead(inputScanNumber, coef.inputImcuRow, outputScanNumber, outputImcuRow)
      ensures RowBetween(f, scans, image, row, outputImcuRow, outputScanNumber, inputScanNumber)
    {
      BlocksAreLate();
      row := OutputFromArrays(f, coef.wholeImage, outputImcuRow);
    }

    /** jpeg_start_output and start_output_pass: a pass for a scan, which need not have been read. */
    method StartOutput(scanNumber: int)
      requires Valid()
      modifies this`outputScanNumber, this`outputImcuRow
      ensures Valid() && outputImcuRow == 0 && Input() == old(Input()).(outputScan := outputScanNumber)
      ensures outputScanNumber as int == if scanNumber <= 0 then 1
                                         else if eoiReached && scanNumber > |scans| then |scans| else scanNumber
    {
      var n := if scanNumber <= 0 then 1 else scanNumber;
      outputScanNumber := if eoiReached && n > inputScanNumber then inputScanNumber else n;
      outputImcuRow := 0;
    }

    /** The calls of an output pass, each after `arrivals` more units have come to hand: the rows that are given,
        in order.  Main result: every real block of the image is given once, as at least the first
        outputScanNumber scans have left it, and the pass is complete once enough calls find something to read. */
    method OutputPass(arrivals: seq<nat>) returns (rows: seq<map<Place, JBlock>>, refused: bool)
      requires Valid() && outputImcuRow == 0
      modifies this, coef
      ensures Valid() && |rows| == outputImcuRow
      ensures outputScanNumber == if eoiReached && old(outputScanNumber) > |scans| then |scans| else old(outputScanNumber)
      ensures RowsBetween(f, scans, image, rows, outputScanNumber, inputScanNumber)
      ensures refused ==> !hasMultipleScans && |scans| > 1 && outputScanNumber > 1
      ensures AllSome(arrivals) && !refused && |arrivals| >= f.total + old(Remaining()) ==> |rows| == f.total
    {
      rows, refused := [], false;
      for i := 0 to |arrivals|
        invariant Valid() && |rows| == outputImcuRow && ReadsOn(|scans|, old(Input()), Input())
        invariant RowsBetween(f, scans, image, rows, outputScanNumber, inputScanNumber)
        invariant refused ==> !hasMultipleScans && |scans| > 1 && outputScanNumber > 1
        invariant AllSome(arrivals) && !refused ==> |rows| == f.total || |rows| + old(Remaining()) >= i + Remaining()
      {
        if outputImcuRow < f.total && !refused {
          ghost var before := Input();
          available := available + arrivals[i];
          var r := DecompressData();
          RowsKept(f, scans, image, rows, before.outputScan, outputScanNumber, before.inputScan, inputScanNumber);
          if r.Gives? {
            NextRowBetween(f, scans, image, rows, r.row, outputScanNumber, inputScanNumber);
            rows := rows + [r.row];
          }
          refused := r.Refused?;
        }
      }
    }

    /** jpeg_start_decompress without buffered-image mode: all scans are read before the output. */
    method StartDecompress() returns (done: bool)
      requires Valid()
      modifies this`inputScanNumber, this`outputScanNumber, this`inMarkers, this`eoiReached, this`available, coef
      ensures Valid() && Remaining() + old(available) == old(Remaining()) + available && Remaining() <= old(Remaining())
      ensures if done then outputScanNumber == inputScanNumber && (hasMultipleScans ==> eoiReached) else available == 0
    {
      if hasMultipleScans {
        var code := Suspended;
        done := false;
        while !done
          invariant Valid() && Remaining() + old(available) == old(Remaining()) + available && Remaining() <= old(Remaining())
          invariant done ==> eoiReached
          decreases !done, Remaining()
        {
          code := ConsumeInput();
          if code.Suspended? {
            return false;
          }
          done := code.ReachedEoi?;
        }
      }
      outputScanNumber, done := inputScanNumber, true;
    }

    /** The calls of it, each after `arrivals` more units have come to hand. */
    method ReadFile(arrivals: seq<nat>) returns (done: bool)
      requires Valid()
      modifies this, coef
      ensures Valid() && outputImcuRow == old(outputImcuRow) && Remaining() <= old(Remaining())
      ensures done && hasMultipleScans ==> eoiReached && inputScanNumber == outputScanNumber == |scans|
      ensures AllSome(arrivals) && |arrivals| > old(Remaining()) ==> done
    {
      done := false;
      for i := 0 to |arrivals|
        invariant Valid() && outputImcuRow == old(outputImcuRow) && Remaining() <= old(Remaining())
        invariant done && hasMultipleScans ==> eoiReached && inputScanNumber == outputScanNumber == |scans|
        invariant AllSome(arrivals) ==> done || old(Remaining()) >= i + Remaining()
      {
        if !done {
          available := available + arrivals[i];
          done := StartDecompress();
        }
      }
    }
  }

  /** What has been given stays right as the input goes on. */
  lemma RowsKept(f: Frame, scans: seq<CodedScan>, image: map<Place, JBlock>, rows: seq<map<Place, JBlock>>,
                 lo: nat, lo1: nat, hi: nat, hi1: nat)
    requires lo1 <= lo && hi <= hi1 <= |scans|
    requires RowsBetween(f, scans, image, rows, lo, hi)
    ensures RowsBetween(f, scans, image, rows, lo1, hi1)
  {
  }

  lemma NextRowBetween(f: Frame, scans: seq<CodedScan>, image: map<Place, JBlock>, rows: seq<map<Place, JBlock>>,
                   row: map<Place, JBlock>, lo: nat, hi: nat)
    requires hi <= |scans| && RowsBetween(f, scans, image, rows, lo, hi)
    requires RowBetween(f, scans, image, row, |rows|, lo, hi)
    ensures RowsBetween(f, scans, image, rows + [row], lo, hi)
  {
  }

  /** Main result: if a single scan holds all components, then decompress_onepass gives to the inverse DCT, row
      by row, exactly what decompress_data gives when the scan is stored in arrays that were zero, wherever the
      input of either is suspended. */
  method BothWaysTheSame(scan: CodedScan, progressive: bool, image: map<Place, JBlock>, rooms: seq<nat>, arrivals: seq<nat>)
    returns (direct: seq<map<Place, JBlock>>, stored: seq<map<Place, JBlock>>)
    requires scan.mcus == AllMcus(scan.s, scan.dct) && forall c :: 0 <= c < |scan.s.f.planes| ==> c in scan.s.sel
    requires HasArrays(scan.s.f, image) && forall p :: p in image ==> image[p] == ZERO_BLOCK
    ensures forall r :: 0 <= r < |direct| && r < |stored| ==> direct[r] == stored[r]
    ensures AllSome(rooms) && |rooms| >= scan.s.f.total + |scan.mcus| ==> |direct| == scan.s.f.total
    ensures AllSome(arrivals) && |arrivals| > scan.s.f.total + |scan.mcus| ==> |stored| == scan.s.f.total
  {
    var one := new OnePassController(scan.s, scan.decode, scan.mcus, scan.dct);
    direct := one.RunScan(rooms);
    var all := new Decompressor([scan], progressive, image);
    var refused;
    stored, refused := all.OutputPass(arrivals);
    forall r | 0 <= r < |direct| && r < |stored|
      ensures direct[r] == stored[r]
    {
      RowsAgree(scan, image, r, direct[r], stored[r]);
    }
  }

  lemma RowsAgree(scan: CodedScan, image: map<Place, JBlock>, r: nat, direct: map<Place, JBlock>, stored: map<Place, JBlock>)
    requires r < scan.s.f.total && forall c :: 0 <= c < |scan.s.f.planes| ==> c in scan.s.sel
    requires forall p :: p in image ==> image[p] == ZERO_BLOCK
    requires ImcuRowShown(scan.s, scan.dct, scan.decode, direct, r)
    requires RowBetween(scan.s.f, [scan], image, stored, r, 1, 1)
    ensures direct == stored
  {
    forall p | RealIn(scan.s.f, r, p)
      ensures p in direct && p in stored && direct[p] == stored[p]
    {
      OneScan(scan, image, r, p, stored[p]);
    }
  }

  lemma OneScan(scan: CodedScan, image: map<Place, JBlock>, r: nat, p: Place, b: JBlock)
    requires r < scan.s.f.total && RealIn(scan.s.f, r, p) && p.c in scan.s.sel && p in image && image[p] == ZERO_BLOCK
    requires LeftBy([scan], image, b, p, 1, 1)
    ensures b == scan.decode(Padded(scan.s.f, scan.dct, p), ZERO_BLOCK)
  {
    var j :| 0 <= j < |scan.s.sel| && scan.s.sel[j] == p.c;
    assert scan.s.f.Fits(PlaneAt(scan.s, j));
    assert CoveredIn(scan.s, j, p);
    assert ImageAfter([scan], image, 0) == image;
    assert b == ImageAfter([scan], image, 1)[p];
  }
}
