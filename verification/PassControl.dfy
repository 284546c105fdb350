/** The pass machine of the compressor: the master control (jcmaster.c) and the loop that runs the passes
    (jpeg_finish_compress of jcapimin.c), for compression and for transcoding. */
module PassControl {
  import opened ScanScript

  datatype Coder = HuffmanCoder | ArithmeticCoder

  /** What the application asked for; an empty script stands for none, and a script has been accepted. */
  datatype Request = Request(script: seq<ScanSpec>, progressive: bool, optimize: bool, arith: bool, blockSize: nat,
                             transcode: bool)
  {
    /** After jinit_c_master_control, a script that is not there is one scan. */
    function NumScans(): (n: nat)
      ensures n >= 1
    {
      if script == [] then 1 else |script|
    }

    /** progressive_mode, which is cleared if there is no script. */
    predicate Progressive() {
      progressive && script != []
    }

    /** Arithmetic coding takes place if it is wanted and optimisation is not. */
    predicate UsesArith() {
      arith && !optimize
    }

    function Coder(): Coder {
      if UsesArith() then ArithmeticCoder else HuffmanCoder
    }

    /** Tables are made for each scan: on request, or because default tables are not expected to fit. */
    predicate Optimizes() {
      optimize || (!arith && (Progressive() || 1 < blockSize < 8))
    }

    /** A Huffman DC refinement scan, which needs no table. */
    predicate RefinesDc(k: nat)
      requires k < NumScans()
    {
      Progressive() && script[k].ss == 0 && script[k].ah != 0
    }

    /** A pass over scan k only gathers statistics; the first pass of a compression always does. */
    predicate Gathers(k: nat)
      requires k < NumScans()
    {
      Optimizes() && (!RefinesDc(k) || (k == 0 && !transcode))
    }
  }

  /** What happens, in order: statistics for a scan are gathered, headers are written, a scan is coded; and which coder
      does it. */
  datatype Event = Gathered(scan: nat, coder: Coder) | FrameHeader | ScanHeader(scan: nat) | Coded(scan: nat, coder: Coder) | Trailer

  // ------------------------------------------------------------------ what is to happen

  function GatherEvents(q: Request, k: nat): seq<Event>
    requires k < q.NumScans()
  {
    if q.Gathers(k) then [Gathered(k, q.Coder())] else []
  }

  function FrameEvents(k: nat): seq<Event> {
    if k == 0 then [FrameHeader] else []
  }

  /** Everything for the first n scans. */
  function Log(q: Request, n: nat): seq<Event>
    requires n <= q.NumScans()
  {
    if n == 0 then []
    else Log(q, n - 1) + GatherEvents(q, n - 1) + FrameEvents(n - 1) + [ScanHeader(n - 1), Coded(n - 1, q.Coder())]
  }

  lemma LogGrows(q: Request, k: nat, coder: Coder)
    requires k < q.NumScans() && coder == q.Coder()
    ensures Log(q, k) + (GatherEvents(q, k) + FrameEvents(k) + [ScanHeader(k)]) + [Coded(k, coder)] == Log(q, k + 1)
  {
    assert [ScanHeader(k)] + [Coded(k, coder)] == [ScanHeader(k), Coded(k, coder)];
    Regroup(Log(q, k), GatherEvents(q, k), FrameEvents(k), [ScanHeader(k)], [Coded(k, coder)]);
  }

  lemma Regroup(a: seq<Event>, b: seq<Event>, c: seq<Event>, d: seq<Event>, e: seq<Event>)
    ensures a + (b + c + d) + e == a + b + c + (d + e)
  {
  }

  /** The scans whose headers were written, in order. */
  function Headers(log: seq<Event>): seq<nat> {
    if log == [] then []
    else Headers(log[..|log| - 1]) + if log[|log| - 1].ScanHeader? then [log[|log| - 1].scan] else []
  }

  function Frames(log: seq<Event>): nat {
    if log == [] then 0
    else Frames(log[..|log| - 1]) + if log[|log| - 1].FrameHeader? then 1 else 0
  }

  lemma HeadersMore(log: seq<Event>, e: Event)
    ensures Headers(log + [e]) == Headers(log) + if e.ScanHeader? then [e.scan] else []
    ensures Frames(log + [e]) == Frames(log) + if e.FrameHeader? then 1 else 0
  {
    assert (log + [e])[..|log|] == log;
  }

  predicate LastGathered(log: seq<Event>, j: int, i: int, k: nat) {
    0 <= j < i <= |log| && log[j] == Gathered(k, HuffmanCoder) && forall m :: j < m < i ==> !log[m].Gathered?
  }

  /** Position i may follow what is before it: no scan header or scan comes before the frame header, and a
      scan is coded directly behind its header, with tables made from its own statistics.  Only the Huffman coder
      gathers statistics, and it codes the scans unless arithmetic coding is wanted without optimisation. */
  ghost predicate Follows(q: Request, log: seq<Event>, i: nat)
    requires i < |log|
  {
    match log[i]
    case ScanHeader(k) => FrameHeader in log[..i]
    case Gathered(k, coder) => k < q.NumScans() && coder.HuffmanCoder? && !q.UsesArith()
    case Coded(k, coder) => k < q.NumScans() && i >= 1 && log[i - 1] == ScanHeader(k)
                            && (coder.ArithmeticCoder? <==> q.UsesArith())
                            && (q.Gathers(k) ==> exists j :: LastGathered(log, j, i, k))
    case _ => true
  }

  ghost predicate Orderly(q: Request, log: seq<Event>) {
    forall i :: 0 <= i < |log| ==> Follows(q, log, i)
  }

  lemma OneMore(q: Request, log: seq<Event>, e: Event)
    requires Orderly(q, log) && Follows(q, log + [e], |log|)
    ensures Orderly(q, log + [e])
  {
    forall i | 0 <= i < |log|
      ensures Follows(q, log + [e], i)
    {
      assert Follows(q, log, i) && (log + [e])[..i] == log[..i];
      if log[i].Coded? && q.Gathers(log[i].scan) {
        var j :| LastGathered(log, j, i, log[i].scan);
        assert LastGathered(log + [e], j, i, log[i].scan);
      }
    }
  }

  lemma StillGathered(log: seq<Event>, e: Event, j: int, k: nat)
    requires LastGathered(log, j, |log|, k) && !e.Gathered?
    ensures LastGathered(log + [e], j, |log| + 1, k)
  {
  }

  /** The events of scan k, one after the other. */
  lemma ScanIsOrderly(q: Request, log: seq<Event>, k: nat)
    requires k < q.NumScans() && Orderly(q, log) && (k > 0 ==> FrameHeader in log)
    ensures var all := log + GatherEvents(q, k) + FrameEvents(k) + [ScanHeader(k), Coded(k, q.Coder())];
            Orderly(q, all) && FrameHeader in all
  {
    var gathered := log + GatherEvents(q, k);
    var framed := gathered + FrameEvents(k);
    var headed := framed + [ScanHeader(k)];
    if q.Gathers(k) {
      OneMore(q, log, Gathered(k, HuffmanCoder));
      assert LastGathered(gathered, |log|, |gathered|, k);
    } else {
      assert gathered == log;
    }
    if k == 0 {
      OneMore(q, gathered, FrameHeader);
      assert framed[|gathered|] == FrameHeader;
      if q.Gathers(k) {
        StillGathered(gathered, FrameHeader, |log|, k);
      }
    } else {
      assert framed == gathered;
    }
    assert FrameHeader in framed && headed[..|framed|] == framed;
    OneMore(q, framed, ScanHeader(k));
    if q.Gathers(k) {
      StillGathered(framed, ScanHeader(k), |log|, k);
    }
    CodedBehind(q, headed, k, |log|);
    assert headed + [Coded(k, q.Coder())] == framed + [ScanHeader(k), Coded(k, q.Coder())];
  }

  lemma CodedBehind(q: Request, log: seq<Event>, k: nat, j: nat)
    requires k < q.NumScans() && Orderly(q, log) && |log| >= 1 && log[|log| - 1] == ScanHeader(k)
    requires q.Gathers(k) ==> LastGathered(log, j, |log|, k)
    ensures Orderly(q, log + [Coded(k, q.Coder())])
  {
    var all := log + [Coded(k, q.Coder())];
    if q.Gathers(k) {
      assert LastGathered(all, j, |log|, k);
    }
    OneMore(q, log, Coded(k, q.Coder()));
  }

  lemma ScanHeadersOnce(q: Request, log: seq<Event>, k: nat)
    requires k < q.NumScans()
    ensures var all := log + GatherEvents(q, k) + FrameEvents(k) + [ScanHeader(k), Coded(k, q.Coder())];
            Headers(all) == Headers(log) + [k] && Frames(all) == Frames(log) + if k == 0 then 1 else 0
  {
    var gathered := log + GatherEvents(q, k);
    var framed := gathered + FrameEvents(k);
    assert gathered == if q.Gathers(k) then log + [Gathered(k, q.Coder())] else log;
    assert framed == if k == 0 then gathered + [FrameHeader] else gathered;
    HeadersMore(log, Gathered(k, q.Coder()));
    HeadersMore(gathered, FrameHeader);
    HeadersMore(framed, ScanHeader(k));
    HeadersMore(framed + [ScanHeader(k)], Coded(k, q.Coder()));
    assert framed + [ScanHeader(k)] + [Coded(k, q.Coder())] == framed + [ScanHeader(k), Coded(k, q.Coder())];
  }

  /** Main result about the order of events: each scan header is written exactly once, in the order of the
      script; the frame header is written once, before any of them; each scan is coded directly behind its
      header, with tables made from its own statistics, and by the coder that was asked for. */
  lemma {:induction false} LogIsRight(q: Request, n: nat)
    requires n <= q.NumScans()
    ensures Headers(Log(q, n)) == seq(n, i => i) && Frames(Log(q, n)) == if n == 0 then 0 else 1
    ensures Orderly(q, Log(q, n)) && (n > 0 ==> FrameHeader in Log(q, n))
  {
    if n != 0 {
      LogIsRight(q, n - 1);
      ScanIsOrderly(q, Log(q, n - 1), n - 1);
      ScanHeadersOnce(q, Log(q, n - 1), n - 1);
    }
  }

  // ------------------------------------------------------------------ the compressor

  datatype PassType = MainPass | HuffOptPass | OutputPass
  datatype GlobalState = Start | Scanning | WriteCoefs
  datatype BufferMode = PassThru | SaveAndPass | CrankDest

  /** How a call ends; BadBufferMode and NotCompiled are what a coefficient controller without the buffer
      for the mode, and an arithmetic coder asked for statistics, would report. */
  datatype Status = Done | BadState | TooLittleData | BadBufferMode | NotCompiled

  class Compressor {
    const q: Request
    const imageHeight: nat
    var optimizeCoding: bool
    var arithCode: bool
    var coder: Coder                // the entropy coder that has been initialised
    var wholeImage: bool            // the coefficient controller has the full buffer
    var passType: PassType
    var passNumber: nat
    var totalPasses: nat
    var numScans: nat
    var progressiveMode: bool
    var ss: int                     // Ss and Ah of the scan whose parameters are set up
    var ah: int
    var scanNumber: nat
    var callPassStartup: bool
    var isLastPass: bool
    var selected: int               // the scan whose parameters are set up
    var gathering: bool             // what the entropy coder was started for
    var bufferMode: BufferMode      // and the coefficient controller
    var globalState: GlobalState
    var nextScanline: nat
    var log: seq<Event>

    constructor (q: Request, imageHeight: nat)
      requires imageHeight > 0
      ensures this.q == q && this.imageHeight == imageHeight && globalState.Start? && log == []
    {
      this.q, this.imageHeight := q, imageHeight;
      globalState, log, nextScanline := Start, [], 0;
      selected, ss, ah := -1, 0, 0;
    }

    // ---------------------------------------------------------------- what holds

    /** pass_number follows from the scan and the kind of pass. */
    predicate Numbers()
      reads this
    {
      && optimizeCoding == q.Optimizes() && (progressiveMode <==> q.Progressive()) && numScans == q.NumScans()
      && (arithCode <==> q.arith && !q.optimize) && (coder.ArithmeticCoder? <==> arithCode)
      && totalPasses == (if optimizeCoding then 2 * q.NumScans() else q.NumScans())
      && (wholeImage <==> q.transcode || totalPasses > 1)
      && scanNumber <= q.NumScans()
      && passNumber == if !optimizeCoding then scanNumber else if passType.OutputPass? then 2 * scanNumber + 1 else 2 * scanNumber
    }

    /** Between passes: everything for the scans before scanNumber has happened, and before an output pass
        also what a gathering pass does. */
    predicate Between()
      reads this
    {
      && Numbers() && NextKind()
      && log == if OutputDue() then Log(q, scanNumber) + GatherEvents(q, scanNumber) else Log(q, scanNumber)
    }

    /** The statistics for scan scanNumber have been gathered, and the scan is to be coded. */
    predicate OutputDue()
      reads this
    {
      passType.OutputPass? && optimizeCoding && scanNumber < q.NumScans()
    }

    predicate NextKind()
      reads this
    {
      && (passType.MainPass? ==> !q.transcode && scanNumber == 0)
      && (passType.HuffOptPass? ==> optimizeCoding && (q.transcode || scanNumber > 0))
      && (passType.OutputPass? ==> q.transcode || optimizeCoding || scanNumber > 0)
      && (isLastPass <==> scanNumber == q.NumScans())
      && (passType.OutputPass? && optimizeCoding ==>
            scanNumber < q.NumScans() && selected == scanNumber && q.Gathers(scanNumber))
    }

    /** Within a pass, after its start. */
    predicate Within()
      reads this
    {
      && Numbers() && Kind()
      && (if gathering || callPassStartup then log == Log(q, scanNumber)
          else log == Log(q, scanNumber)
                      + (GatherEvents(q, scanNumber) + FrameEvents(scanNumber) + [ScanHeader(scanNumber)]))
    }

    predicate Kind()
      reads this
    {
      && scanNumber < q.NumScans() && selected == scanNumber
      && (passType.MainPass? ==> !q.transcode && scanNumber == 0)
      && (passType.HuffOptPass? ==> optimizeCoding)
      && (isLastPass <==> passNumber == totalPasses - 1)
      && gathering == (optimizeCoding && !passType.OutputPass?)
      && (gathering ==> q.Gathers(scanNumber))
      && (callPassStartup ==> passType.MainPass? && !gathering)
      && bufferMode == if !passType.MainPass? then CrankDest else if totalPasses > 1 then SaveAndPass else PassThru
    }

    // ---------------------------------------------------------------- jcmaster.c

    /** The settings that jinit_c_master_control derives from the request, and the choice of the coder. */
    method DeriveSettings()
      modifies this`optimizeCoding, this`arithCode, this`coder, this`progressiveMode, this`numScans
      ensures optimizeCoding == q.Optimizes() && (progressiveMode <==> q.Progressive()) && numScans == q.NumScans()
      ensures (arithCode <==> q.arith && !q.optimize) && (coder.ArithmeticCoder? <==> arithCode)
    {
      optimizeCoding, arithCode := q.optimize, q.arith;
      progressiveMode, numScans := q.progressive, |q.script|;
      if q.script == [] {
        progressiveMode, numScans := false, 1;
      }
      if optimizeCoding {
        arithCode := false;
      } else if !arithCode && (progressiveMode || 1 < q.blockSize < 8) {
        optimizeCoding := true;
      }
      coder := if arithCode then ArithmeticCoder else HuffmanCoder;
    }

    /** jinit_c_master_control, and the choice of the coefficient buffer. */
    method InitMasterControl()
      modifies this
      ensures Between() && scanNumber == 0 && globalState == old(globalState) && nextScanline == old(nextScanline)
      ensures passType == if !q.transcode then MainPass else if q.Optimizes() then HuffOptPass else OutputPass
      ensures log == [] && !callPassStartup
    {
      isLastPass, callPassStartup := false, false;
      DeriveSettings();
      FirstPass();
      log := [];
    }

    /** Where the passes begin, and how many there will be. */
    method FirstPass()
      requires optimizeCoding == q.Optimizes() && numScans == q.NumScans() && !isLastPass
      modifies this`passType, this`scanNumber, this`passNumber, this`totalPasses, this`wholeImage
      ensures passType == if !q.transcode then MainPass else if q.Optimizes() then HuffOptPass else OutputPass
      ensures scanNumber == passNumber == 0 && totalPasses == if optimizeCoding then 2 * q.NumScans() else q.NumScans()
      ensures wholeImage <==> q.transcode || totalPasses > 1
    {
      if q.transcode {
        passType := if optimizeCoding then HuffOptPass else OutputPass;
      } else {
        passType := MainPass;
      }
      scanNumber, passNumber := 0, 0;
      totalPasses := if optimizeCoding then numScans * 2 else numScans;
      wholeImage := q.transcode || numScans > 1 || optimizeCoding;
    }

    /** select_scan_parameters */
    method SelectScanParameters()
      requires Numbers() && scanNumber < q.NumScans()
      modifies this`selected, this`ss, this`ah
      ensures selected == scanNumber && (ss == 0 && ah != 0 <==> q.RefinesDc(scanNumber))
    {
      selected, ss, ah := scanNumber, 0, 0;
      if progressiveMode {
        ss, ah := q.script[scanNumber].ss, q.script[scanNumber].ah;
      }
    }

    /** start_pass of the entropy coder. */
    method StartEntropy(gather: bool) returns (r: Status)
      modifies this`gathering
      ensures r == (if gather && coder.ArithmeticCoder? then NotCompiled else Done) && gathering == gather
    {
      gathering := gather;
      r := if gather && coder.ArithmeticCoder? then NotCompiled else Done;
    }

    /** start_pass_coef, of jccoefct.c and of jctrans.c. */
    method StartCoef(mode: BufferMode) returns (r: Status)
      modifies this`bufferMode
      ensures r == Done <==> if q.transcode then mode.CrankDest? else mode.PassThru? <==> !wholeImage
      ensures (r == Done || r == BadBufferMode) && bufferMode == mode
    {
      bufferMode := mode;
      if q.transcode {
        r := if mode.CrankDest? then Done else BadBufferMode;
      } else {
        match mode {
          case PassThru => r := if wholeImage then BadBufferMode else Done;
          case SaveAndPass => r := if wholeImage then Done else BadBufferMode;
          case CrankDest => r := if wholeImage then Done else BadBufferMode;
        }
      }
    }

    /** start_pass of both. */
    method StartBoth(gather: bool, mode: BufferMode) returns (r: Status)
      modifies this`gathering, this`bufferMode
      ensures r == Done <==> !(gather && coder.ArithmeticCoder?)
                             && if q.transcode then mode.CrankDest? else mode.PassThru? <==> !wholeImage
      ensures r == Done ==> gathering == gather && bufferMode == mode
    {
      r := StartEntropy(gather);
      if r == Done {
        r := StartCoef(mode);
      }
    }

    method WriteFrameHeader()
      modifies this`log
      ensures log == old(log) + [FrameHeader]
    {
      log := log + [FrameHeader];
    }

    method WriteScanHeader()
      requires selected >= 0
      modifies this`log
      ensures log == old(log) + [ScanHeader(selected)]
    {
      log := log + [ScanHeader(selected)];
    }

    /** The start of a data-output pass in prepare_for_pass. */
    method StartOutput() returns (r: Status)
      requires Numbers() && scanNumber < q.NumScans() && passType.OutputPass? && wholeImage
      requires optimizeCoding ==> selected == scanNumber
      requires log == Log(q, scanNumber) + GatherEvents(q, scanNumber)
      modifies this`selected, this`ss, this`ah, this`gathering, this`bufferMode, this`log, this`callPassStartup,
               this`isLastPass
      ensures r == Done && Within() && passType.OutputPass? && !callPassStartup && !gathering
    {
      r := BeginOutput();
      if r == Done {
        WriteHeaders();
      }
    }

    /** The scan is set up, and the controllers are started. */
    method BeginOutput() returns (r: Status)
      requires Numbers() && scanNumber < q.NumScans() && passType.OutputPass? && wholeImage
      requires optimizeCoding ==> selected == scanNumber
      modifies this`selected, this`ss, this`ah, this`gathering, this`bufferMode, this`callPassStartup, this`isLastPass
      ensures r == Done && Numbers() && Kind() && !callPassStartup && !gathering
    {
      if !optimizeCoding {
        SelectScanParameters();
      }
      callPassStartup := false;
      isLastPass := passNumber == totalPasses - 1;
      r := StartBoth(false, CrankDest);
    }

    /** The frame header before the first scan, and the scan header. */
    method WriteHeaders()
      requires selected == scanNumber < q.NumScans() && log == Log(q, scanNumber) + GatherEvents(q, scanNumber)
      modifies this`log
      ensures log == Log(q, scanNumber) + (GatherEvents(q, scanNumber) + FrameEvents(scanNumber) + [ScanHeader(scanNumber)])
    {
      if scanNumber == 0 {
        WriteFrameHeader();
      }
      WriteScanHeader();
      HeadersBehind(Log(q, scanNumber), GatherEvents(q, scanNumber), scanNumber);
    }

    static lemma HeadersBehind(log: seq<Event>, gathered: seq<Event>, k: nat)
      ensures log + gathered + FrameEvents(k) + [ScanHeader(k)] == log + (gathered + FrameEvents(k) + [ScanHeader(k)])
      ensures k != 0 ==> log + gathered + FrameEvents(k) == log + gathered
    {
    }

    /** prepare_for_pass: it never meets a controller or coder that is not prepared for the pass. */
    method PrepareForPass() returns (r: Status)
      requires Between() && !isLastPass
      modifies this`passType, this`passNumber, this`selected, this`ss, this`ah, this`gathering, this`bufferMode, this`log,
               this`callPassStartup, this`isLastPass
      ensures r == Done && Within() && scanNumber == old(scanNumber) && passNumber >= old(passNumber)
      ensures callPassStartup <==> passType.MainPass? && !optimizeCoding
      ensures old(passType.MainPass?) <==> passType.MainPass?
    {
      r := Done;
      match passType {
        case MainPass =>
          SelectScanParameters();
          r := StartBoth(optimizeCoding, if totalPasses > 1 then SaveAndPass else PassThru);
          callPassStartup := !optimizeCoding;
          isLastPass := passNumber == totalPasses - 1;
        case HuffOptPass =>
          SelectScanParameters();
          if ss != 0 || ah == 0 {
            r := StartBoth(true, CrankDest);
            callPassStartup := false;
            isLastPass := passNumber == totalPasses - 1;
          } else {
            passType, passNumber := OutputPass, passNumber + 1;
            r := StartOutput();
          }
        case OutputPass =>
          r := StartOutput();
      }
    }

    /** pass_startup */
    method PassStartup()
      requires Within() && callPassStartup
      modifies this`callPassStartup, this`log
      ensures Within() && !callPassStartup
    {
      callPassStartup := false;
      WriteFrameHeader();
      WriteScanHeader();
      assert log == Log(q, 0) + (GatherEvents(q, 0) + FrameEvents(0) + [ScanHeader(0)]);
    }

    /** finish_pass of the entropy coder: it has coded the scan or gathered its statistics. */
    method FinishEntropy()
      requires Within() && !callPassStartup
      modifies this`log
      ensures log == if gathering then Log(q, scanNumber) + GatherEvents(q, scanNumber) else Log(q, scanNumber + 1)
    {
      if gathering {
        log := log + [Gathered(selected, coder)];
      } else {
        LogGrows(q, scanNumber, coder);
        log := log + [Coded(selected, coder)];
      }
    }

    /** finish_pass_master; the entropy coder has coded the scan or gathered its statistics. */
    method FinishPass()
      requires Within() && !callPassStartup
      modifies this`passType, this`scanNumber, this`passNumber, this`log
      ensures Between() && passNumber == old(passNumber) + 1
    {
      FinishEntropy();
      NextPass();
    }

    /** The next pass is that which codes the scan, or the first for the next scan. */
    method NextPass()
      requires Numbers() && Kind()
      modifies this`passType, this`scanNumber, this`passNumber
      ensures Numbers() && NextKind() && passNumber == old(passNumber) + 1
      ensures scanNumber == (if gathering then old(scanNumber) else old(scanNumber) + 1) && (OutputDue() <==> gathering)
    {
      match passType {
        case MainPass =>
          passType := OutputPass;
          if !optimizeCoding {
            scanNumber := scanNumber + 1;
          }
        case HuffOptPass =>
          passType := OutputPass;
        case OutputPass =>
          if optimizeCoding {
            passType := HuffOptPass;
          }
          scanNumber := scanNumber + 1;
      }
      passNumber := passNumber + 1;
    }

    // ---------------------------------------------------------------- jcapistd.c, jctrans.c, jcapimin.c

    /** A first pass of a compression is under way, or none has begun in transcoding. */
    predicate Compressing()
      reads this
    {
      match globalState
      case Start => true
      case Scanning => !q.transcode && Within() && passType.MainPass? && (nextScanline > 0 ==> !callPassStartup)
      case WriteCoefs => q.transcode && Between() && scanNumber == 0
    }

    /** jpeg_start_compress */
    method StartCompress() returns (r: Status)
      requires Compressing() && !q.transcode
      modifies this
      ensures Compressing()
      ensures if old(globalState).Start? then r == Done && globalState.Scanning? && nextScanline == 0
              else r == BadState && unchanged(this)
    {
      if !globalState.Start? {
        return BadState;
      }
      InitMasterControl();
      r := PrepareForPass();
      nextScanline, globalState := 0, Scanning;
    }

    /** jpeg_write_coefficients */
    method WriteCoefficients() returns (r: Status)
      requires Compressing() && q.transcode
      modifies this
      ensures Compressing()
      ensures if old(globalState).Start? then r == Done && globalState.WriteCoefs? && nextScanline == 0
              else r == BadState && unchanged(this)
    {
      if !globalState.Start? {
        return BadState;
      }
      InitMasterControl();
      nextScanline, globalState := 0, WriteCoefs;
      r := Done;
    }

    /** jpeg_write_scanlines, and jpeg_write_raw_data; the first pass takes `taken` of the lines. */
    method WriteScanlines(taken: nat) returns (r: Status)
      requires Compressing() && (globalState.Scanning? ==> nextScanline + taken <= imageHeight)
      modifies this`callPassStartup, this`log, this`nextScanline
      ensures Compressing()
      ensures if globalState.Scanning? then r == Done && nextScanline == old(nextScanline) + taken
              else r == BadState && unchanged(this)
    {
      if !globalState.Scanning? {
        return BadState;
      }
      if callPassStartup {
        PassStartup();
      }
      nextScanline := nextScanline + taken;
      r := Done;
    }

    /** jpeg_finish_compress.  Main result: the loop ends, and all headers, statistics and scans have come in
        the right order; it fails only before the image is complete or out of turn. */
    method FinishCompress() returns (r: Status)
      requires Compressing() && imageHeight > 0
      modifies this
      ensures r == if globalState.Start? then BadState
                   else if globalState.Scanning? && nextScanline < imageHeight then TooLittleData else Done
      ensures globalState == old(globalState) && nextScanline == old(nextScanline)
      ensures if r == Done then log == Log(q, q.NumScans()) + [Trailer] else unchanged(this)
    {
      if globalState.Scanning? {
        if nextScanline < imageHeight {
          return TooLittleData;
        }
        FinishPass();
      } else if !globalState.WriteCoefs? {
        return BadState;
      }
      while !isLastPass
        invariant Between() && globalState == old(globalState) && nextScanline == old(nextScanline)
        decreases totalPasses - passNumber
      {
        r := PrepareForPass();
        if r != Done {
          return;
        }
        FinishPass();
      }
      log := log + [Trailer];
      r := Done;
    }
  }
}
