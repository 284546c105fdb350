/** What a whole script delivers: the scans that it makes (jcmaster.c), the checks of the decoder at the start
    of each (start_pass of jdhuff.c and jdarith.c), and the coefficients after the last one. */
module ScriptDelivery {
  import opened ArithModel
  import opened ArithBlocks
  import opened PointTransform
  import opened ScanScript
  import opened SizeArithmetic

  // ------------------------------------------------------------------ start_pass of the decoders

  /** The parameters that the decoder does not reject. */
  predicate Decodable(s: ScanSpec, lim: int) {
    && (if s.ss == 0 then s.se == 0 else s.ss <= s.se <= lim && |s.comps| == 1)
    && (s.ah != 0 ==> s.ah - 1 == s.al) && s.al <= 13
  }

  /** The scan continues what the decoder has seen of component c. */
  predicate Expected(before: seq<ScanSpec>, s: ScanSpec, c: int) {
    && (s.ss != 0 ==> LastAl(before, c, 0) >= 0)
    && forall i :: s.ss <= i <= s.se ==> s.ah == if LastAl(before, c, i) < 0 then 0 else LastAl(before, c, i)
  }

  /** The scan draws no warning about a bogus progression. */
  predicate Quiet(before: seq<ScanSpec>, s: ScanSpec) {
    forall j :: 0 <= j < |s.comps| ==> Expected(before, s, s.comps[j])
  }

  /** One component of a scan: its progression status is checked and updated. */
  method CheckStatus(bits: array2<int>, ghost before: seq<ScanSpec>, s: ScanSpec, j: nat, ncomps: nat) returns (quiet: bool)
    requires GoodComponents(s, ncomps) && j < |s.comps| && 0 <= s.ss <= s.se < DCTSIZE2
    requires TracksPart(bits, before, s, j, ncomps)
    modifies bits
    ensures quiet <==> Expected(before, s, s.comps[j])
    ensures TracksPart(bits, before, s, j + 1, ncomps)
  {
    NotEarlier(s, j);
    var c := s.comps[j];
    quiet := !(s.ss != 0 && bits[c, 0] < 0);
    var coefi := s.ss;
    while coefi <= s.se
      invariant s.ss <= coefi <= s.se + 1
      invariant quiet <==> (s.ss != 0 ==> LastAl(before, c, 0) >= 0)
                           && forall i :: s.ss <= i < coefi ==>
                                s.ah == if LastAl(before, c, i) < 0 then 0 else LastAl(before, c, i)
      invariant forall c1, i :: 0 <= c1 < ncomps && 0 <= i < DCTSIZE2 ==>
        bits[c1, i] == if (c1 in s.comps[..j] && s.ss <= i <= s.se) || (c1 == c && s.ss <= i < coefi) then s.al
                       else LastAl(before, c1, i)
    {
      var expected := if bits[c, coefi] < 0 then 0 else bits[c, coefi];
      if s.ah != expected {
        quiet := false;
      }
      bits[c, coefi] := s.al;
      coefi := coefi + 1;
    }
  }

  /** start_pass for a progressive scan, whose parameters come from unsigned bytes: the bit positions
      are recorded in any case; `quiet` means that there was no warning. */
  method StartScan(bits: array2<int>, ghost before: seq<ScanSpec>, s: ScanSpec, ncomps: nat, lim: int)
    returns (ok: bool, quiet: bool)
    requires GoodComponents(s, ncomps) && 0 <= s.ss && 0 <= s.ah && 0 <= s.al && lim < DCTSIZE2
    requires Tracks(bits, before, ncomps)
    modifies bits
    ensures ok <==> Decodable(s, lim)
    ensures ok ==> Tracks(bits, before + [s], ncomps) && (quiet <==> Quiet(before, s))
    ensures !ok ==> !quiet && Tracks(bits, before, ncomps)
  {
    ok, quiet := true, true;
    if s.ss == 0 {
      if s.se != 0 {
        return false, false;
      }
    } else {
      if s.se < s.ss || s.se > lim {
        return false, false;
      }
      if |s.comps| != 1 {
        return false, false;
      }
    }
    if s.ah != 0 {
      if s.ah - 1 != s.al {
        return false, false;
      }
    }
    if s.al > 13 {
      return false, false;
    }
    for ci := 0 to |s.comps|
      invariant TracksPart(bits, before, s, ci, ncomps)
      invariant quiet <==> forall j :: 0 <= j < ci ==> Expected(before, s, s.comps[j])
    {
      var fine := CheckStatus(bits, before, s, ci, ncomps);
      quiet := quiet && fine;
    }
    TracksWhole(bits, before, s, ncomps);
  }

  /** A sequential scan draws no warning that it is not one; `lim` is the decoder's lim_Se.  (The arithmetic
      decoder does not look for a baseline frame, which is never arithmetic.) */
  predicate LooksSequential(s: ScanSpec, baseline: bool, lim: int) {
    s.ss == s.ah == s.al == 0 && (baseline || s.se < DCTSIZE2 ==> s.se == lim)
  }

  /** start_pass for either kind of frame. */
  method StartPass(bits: array2<int>, ghost before: seq<ScanSpec>, s: ScanSpec, ncomps: nat, progressive: bool,
                   baseline: bool, lim: int) returns (ok: bool, quiet: bool)
    requires GoodComponents(s, ncomps) && 0 <= s.ss && 0 <= s.ah && 0 <= s.al && lim < DCTSIZE2
    requires progressive ==> Tracks(bits, before, ncomps)
    modifies bits
    ensures ok <==> (progressive ==> Decodable(s, lim))
    ensures ok ==> (quiet <==> if progressive then Quiet(before, s) else LooksSequential(s, baseline, lim))
    ensures ok && progressive ==> Tracks(bits, before + [s], ncomps)
    ensures !progressive ==> forall c, i :: 0 <= c < bits.Length0 && 0 <= i < bits.Length1 ==> bits[c, i] == old(bits[c, i])
  {
    if progressive {
      ok, quiet := StartScan(bits, before, s, ncomps, lim);
    } else {
      ok := true;
      quiet := !(s.ss != 0 || s.ah != 0 || s.al != 0 || ((baseline || s.se < DCTSIZE2) && s.se != lim));
    }
  }

  /** The block size that the decoder derives, or 0 if it rejects Se: `se` is that of the first SOS, which is a
      pseudo SOS in a progressive frame with other blocks than 8x8. */
  function SeenBlockSize(baseline: bool, progressive: bool, pseudo: bool, se: int): nat {
    if baseline || (progressive && !pseudo) then 8
    else
      match se
      case 0 => 1 case 3 => 2 case 8 => 3 case 15 => 4 case 24 => 5 case 35 => 6 case 48 => 7 case 63 => 8
      case 80 => 9 case 99 => 10 case 120 => 11 case 143 => 12 case 168 => 13 case 195 => 14 case 224 => 15 case 255 => 16
      case _ => 0
  }

  /** The decoder derives the block size of the encoder, and so its lim_Se. */
  lemma BlockSizeSeen(blockSize: nat, baseline: bool, progressive: bool)
    requires 1 <= blockSize <= 16 && (baseline ==> blockSize == 8)
    ensures SeenBlockSize(baseline, progressive, progressive && blockSize != 8, blockSize * blockSize - 1) == blockSize
  {
    if blockSize <= 4 {
    } else if blockSize <= 8 {
    } else if blockSize <= 12 {
    }
  }

  // ------------------------------------------------------------------ the scans of a script

  /** The script as it is used: reduced for blocks smaller than 8x8. */
  function Used(script: seq<ScanSpec>, blockSize: nat): seq<ScanSpec> {
    if blockSize < 8 then Reduced(script, LimSe(blockSize)) else script
  }

  /** select_scan_parameters: what is written into the scan header. */
  function Selected(s: ScanSpec, progressive: bool, blockSize: nat): ScanSpec {
    if progressive then s else s.(ss := 0, se := blockSize * blockSize - 1, ah := 0, al := 0)
  }

  /** The scans are good, one after the other. */
  predicate AllGood(script: seq<ScanSpec>, progressive: bool, ncomps: int, hi: int) {
    forall k :: 0 <= k < |script| ==>
      if progressive then GoodProgressive(script[..k], script[k], ncomps, hi)
      else GoodSequential(script[..k], script[k], ncomps)
  }

  lemma GoodPrefix(script: seq<ScanSpec>, progressive: bool, ncomps: int, hi: int, n: nat)
    requires n <= |script| && AllGood(script, progressive, ncomps, hi)
    ensures AllGood(script[..n], progressive, ncomps, hi)
  {
    forall k | 0 <= k < n
      ensures script[..n][..k] == script[..k] && script[..n][k] == script[k]
    {
    }
  }

  /** A sequential scan sends all coefficients of its components. */
  lemma {:induction false} SentTogether(script: seq<ScanSpec>, ncomps: int, hi: int, c: int, i: int)
    requires AllGood(script, false, ncomps, hi) && 0 <= i < DCTSIZE2
    ensures LastAl(script, c, i) == LastAl(script, c, 0) <= 0
  {
    if script != [] {
      var n := |script| - 1;
      GoodPrefix(script, false, ncomps, hi, n);
      SentTogether(script[..n], ncomps, hi, c, i);
      assert GoodSequential(script[..n], script[n], ncomps);
    }
  }

  /** In either kind of script each scan can follow those before it. */
  lemma GoodFollows(script: seq<ScanSpec>, progressive: bool, ncomps: int, hi: int, k: nat, j: nat)
    requires AllGood(script, progressive, ncomps, hi) && k < |script| && j < |script[k].comps|
    ensures FollowsFor(script[..k], script[k], script[k].comps[j])
  {
    if progressive {
      assert GoodProgressive(script[..k], script[k], ncomps, hi);
    } else {
      assert GoodSequential(script[..k], script[k], ncomps);
      GoodPrefix(script, false, ncomps, hi, k);
      forall i | 0 <= i < DCTSIZE2
        ensures LastAl(script[..k], script[k].comps[j], i) < 0
      {
        SentTogether(script[..k], ncomps, hi, script[k].comps[j], i);
      }
    }
  }

  /** No scan reaches behind lim. */
  predicate Within(script: seq<ScanSpec>, lim: int) {
    script == [] || (script[|script| - 1].ss <= script[|script| - 1].se <= lim && Within(script[..|script| - 1], lim))
  }

  lemma {:induction false} GoodIsWithin(script: seq<ScanSpec>, progressive: bool, ncomps: int, hi: int)
    requires AllGood(script, progressive, ncomps, hi)
    ensures Within(script, DCTSIZE2 - 1)
  {
    if script != [] {
      var n := |script| - 1;
      BandFits(script, progressive, ncomps, hi, n);
      GoodPrefix(script, progressive, ncomps, hi, n);
      GoodIsWithin(script[..n], progressive, ncomps, hi);
    }
  }

  /** For blocks of 8x8 coefficients nothing is reduced. */
  lemma {:induction false} NothingReduced(script: seq<ScanSpec>, lim: int)
    requires Within(script, lim)
    ensures Reduced(script, lim) == script
  {
    if script != [] {
      NothingReduced(script[..|script| - 1], lim);
    }
  }

  lemma UsedIsReduced(script: seq<ScanSpec>, blockSize: nat, progressive: bool, ncomps: int, hi: int)
    requires AllGood(script, progressive, ncomps, hi)
    ensures Used(script, blockSize) == Reduced(script, LimSe(blockSize))
  {
    if blockSize >= 8 {
      GoodIsWithin(script, progressive, ncomps, hi);
      NothingReduced(script, LimSe(blockSize));
    }
  }

  lemma BandFits(script: seq<ScanSpec>, progressive: bool, ncomps: int, hi: int, k: nat)
    requires AllGood(script, progressive, ncomps, hi) && k < |script|
    ensures script[k].ss <= script[k].se < DCTSIZE2
  {
    assert if progressive then GoodProgressive(script[..k], script[k], ncomps, hi)
           else GoodSequential(script[..k], script[k], ncomps);
  }

  // ------------------------------------------------------------------ accepted scripts at the decoder

  /** A scan of a reduced script: it can follow those before it, and the decoder expects it. */
  ghost predicate Sound(before: seq<ScanSpec>, s: ScanSpec, progressive: bool, ncomps: int, hi: int, lim: int) {
    && GoodComponents(s, ncomps)
    && (forall j :: 0 <= j < |s.comps| ==> FollowsFor(before, s, s.comps[j]) && Expected(before, s, s.comps[j]))
    && if progressive then GoodProgressive(before, s, ncomps, hi) && Decodable(s, lim)
       else s.ss == s.ah == s.al == 0 && s.se == lim
  }

  lemma {:induction false} ReducedIsSound(script: seq<ScanSpec>, progressive: bool, ncomps: int, precision: int, lim: int, k: nat)
    requires AllGood(script, progressive, ncomps, MaxAl(precision)) && 0 <= lim < DCTSIZE2 && k < |Reduced(script, lim)|
    ensures Sound(Reduced(script, lim)[..k], Reduced(script, lim)[k], progressive, ncomps, MaxAl(precision), lim)
  {
    var n := |script| - 1;
    var before := Reduced(script[..n], lim);
    if k < |before| {
      GoodPrefix(script, progressive, ncomps, MaxAl(precision), n);
      ReducedIsSound(script[..n], progressive, ncomps, precision, lim, k);
      assert Reduced(script, lim)[..k] == before[..k];
    } else {
      var s := script[n];
      var cut := if s.se > lim then s.(se := lim) else s;
      assert Reduced(script, lim)[..k] == before;
      forall j | 0 <= j < |s.comps|
        ensures FollowsFor(before, cut, s.comps[j]) && Expected(before, cut, s.comps[j])
      {
        GoodFollows(script, progressive, ncomps, MaxAl(precision), n, j);
        CutFollows(script[..n], s, cut, lim, s.comps[j]);
      }
      CutIsSound(script, progressive, ncomps, precision, lim);
    }
  }

  lemma CutIsSound(script: seq<ScanSpec>, progressive: bool, ncomps: int, precision: int, lim: int)
    requires AllGood(script, progressive, ncomps, MaxAl(precision)) && 0 <= lim < DCTSIZE2
    requires script != [] && script[|script| - 1].ss <= lim
    ensures var s := script[|script| - 1];
            var cut := if s.se > lim then s.(se := lim) else s;
            && GoodComponents(cut, ncomps)
            && if progressive then GoodBand(cut, MaxAl(precision)) && Decodable(cut, lim)
               else cut.ss == cut.ah == cut.al == 0 && cut.se == lim
  {
    var n := |script| - 1;
    if progressive {
      var s := script[n];
      assert GoodProgressive(script[..n], s, ncomps, MaxAl(precision));
      assert FollowsFor(script[..n], s, s.comps[0]);
      assert Continues(LastAl(script[..n], s.comps[0], s.ss), s.ah, s.al);
    } else {
      assert GoodSequential(script[..n], script[n], ncomps);
    }
  }

  lemma ValidIsGood(script: seq<ScanSpec>, ncomps: int, precision: int)
    requires Valid(script, ncomps, precision)
    ensures AllGood(script, IsProgressive(script), ncomps, MaxAl(precision))
  {
    forall k | 0 <= k < |script|
      ensures if IsProgressive(script) then GoodProgressive(script[..k], script[k], ncomps, MaxAl(precision))
              else GoodSequential(script[..k], script[k], ncomps)
    {
      assert GoodScan(script, k, ncomps, MaxAl(precision));
    }
  }

  /** Main result: the decoder rejects no scan of a script that validate_script accepts, sequential or
      progressive, nor does it warn, whatever the block size; it derives that size from the first SOS. */
  lemma AcceptedIsQuiet(script: seq<ScanSpec>, ncomps: int, precision: int, blockSize: nat, baseline: bool, k: nat)
    requires Valid(script, ncomps, precision) && 1 <= blockSize <= 16 && k < |Used(script, blockSize)|
    requires baseline ==> blockSize == 8 && !IsProgressive(script)
    ensures var progressive, u := IsProgressive(script), Used(script, blockSize);
            var seen := SeenBlockSize(baseline, progressive, progressive && blockSize != 8, blockSize * blockSize - 1);
            && seen == blockSize && GoodComponents(u[k], ncomps)
            && if progressive then Decodable(u[k], LimSe(seen)) && Quiet(u[..k], Selected(u[k], true, blockSize))
               else LooksSequential(Selected(u[k], false, blockSize), baseline, LimSe(seen))
  {
    var progressive, lim := IsProgressive(script), LimSe(blockSize);
    ValidIsGood(script, ncomps, precision);
    UsedIsReduced(script, blockSize, progressive, ncomps, MaxAl(precision));
    ReducedIsSound(script, progressive, ncomps, precision, lim, k);
    BlockSizeSeen(blockSize, baseline, progressive);
    LimSeIsSquare(blockSize);
  }

  lemma CutFollows(script: seq<ScanSpec>, s: ScanSpec, cut: ScanSpec, lim: int, c: int)
    requires s.ss <= lim && FollowsFor(script, s, c) && 0 <= lim
    requires cut == if s.se > lim then s.(se := lim) else s
    ensures FollowsFor(Reduced(script, lim), cut, c) && Expected(Reduced(script, lim), cut, c)
  {
    ReducedKeeps(script, lim, c, 0);
    forall i | cut.ss <= i <= cut.se
      ensures Continues(LastAl(Reduced(script, lim), c, i), cut.ah, cut.al)
      ensures cut.ah == if LastAl(Reduced(script, lim), c, i) < 0 then 0 else LastAl(Reduced(script, lim), c, i)
    {
      ReducedKeeps(script, lim, c, i);
      assert Continues(LastAl(script, c, i), s.ah, s.al);
    }
  }

  // ------------------------------------------------------------------ coefficients

  /** A coefficient as it is once it has been sent down to bit position al. */
  function Sent(z: ZBlock, i: Index, al: int): int {
    if al < 0 then 0 else if i == 0 then DcKept(z[0], al) else AcKept(z[i], al)
  }

  /** The block holds every coefficient as the scans so far have sent it. */
  ghost predicate HoldsSent(order: seq<Index>, lim: Index, z: ZBlock, script: seq<ScanSpec>, c: int, block: seq<Jcoef>) {
    && |block| == 64 && lim < |order|
    && forall i: Index :: i <= lim ==> block[order[i]] == Sent(z, i, LastAl(script, c, i))
  }

  /** The parameters of the coder for a scan of the script. */
  predicate Codes(sc: Scan, s: ScanSpec, progressive: bool, order: seq<Index>, lim: Index) {
    && sc.progressive == progressive && sc.ss == s.ss && sc.Last() == s.se && sc.ah == s.ah && sc.al == s.al
    && sc.order == order && sc.limSe == lim
  }

  /** A scan that continues the script finds the block as its coder expects it, and leaves every
      coefficient as it is then sent. */
  lemma ScanDelivers(sc: Scan, s: ScanSpec, before: seq<ScanSpec>, c: int, z: ZBlock, block: seq<Jcoef>)
    requires Codes(sc, s, sc.progressive, sc.order, sc.limSe) && sc.Injective() && c in s.comps && FollowsFor(before, s, c)
    requires HoldsSent(sc.order, sc.limSe, z, before, c, block)
    ensures Primed(sc, z, block)
    ensures HoldsSent(sc.order, sc.limSe, z, before + [s], c, Decoded(sc, z, block))
  {
    ScanPrimed(sc, s, before, c, z, block);
    DecodedMeans(sc, z, block);
    forall i: Index | i <= sc.limSe
      ensures Decoded(sc, z, block)[sc.order[i]] == Sent(z, i, LastAl(before + [s], c, i))
    {
      LastAlMore(before, s, c, i);
      if s.ss <= i <= s.se {
        assert InScan(sc, i);
      } else {
        forall j | InScan(sc, j)
          ensures sc.order[j] != sc.order[i]
        {
        }
      }
    }
  }

  lemma ScanPrimed(sc: Scan, s: ScanSpec, before: seq<ScanSpec>, c: int, z: ZBlock, block: seq<Jcoef>)
    requires Codes(sc, s, sc.progressive, sc.order, sc.limSe) && sc.Injective() && FollowsFor(before, s, c)
    requires HoldsSent(sc.order, sc.limSe, z, before, c, block)
    ensures Primed(sc, z, block)
  {
    forall i: Index | s.ss <= i <= s.se
      ensures block[sc.order[i]] == if s.ah == 0 then 0 else Sent(z, i, s.al + 1)
    {
      assert Continues(LastAl(before, c, i), s.ah, s.al);
    }
    match sc.Routine() {
      case Sequential =>
      case DcFirst =>
      case AcFirst =>
      case DcRefine =>
      case AcRefine =>
        forall i: Index | sc.ss - 1 < i <= sc.se
          ensures block[sc.order[i]] == ToJcoef(AcKept(z[i], sc.al + 1))
        {
          KeptLegal(z[i], sc.al + 1);
        }
    }
  }

  // ------------------------------------------------------------------ whole scripts

  /** The coders of the scans of a script. */
  ghost predicate CodesAll(scans: seq<Scan>, script: seq<ScanSpec>, progressive: bool, order: seq<Index>, lim: Index) {
    && |scans| == |script|
    && forall k :: 0 <= k < |script| ==> Codes(scans[k], script[k], progressive, order, lim) && scans[k].Injective()
  }

  /** A block of component c after the scans in which the component takes part. */
  function AfterScans(scans: seq<Scan>, script: seq<ScanSpec>, c: int, z: ZBlock, block: seq<Jcoef>): (r: seq<Jcoef>)
    requires |scans| == |script| && |block| == 64
    ensures |r| == 64
  {
    if script == [] then block
    else
      var n := |script| - 1;
      var before := AfterScans(scans[..n], script[..n], c, z, block);
      if c in script[n].comps then Decoded(scans[n], z, before) else before
  }

  /** What the script promises: each scan finds the blocks of its components as its coder expects. */
  ghost predicate AllPrimedFor(scans: seq<Scan>, script: seq<ScanSpec>, c: int, z: ZBlock, block: seq<Jcoef>)
    requires |scans| == |script| && |block| == 64
  {
    forall k :: 0 <= k < |script| && c in script[k].comps ==>
      Primed(scans[k], z, AfterScans(scans[..k], script[..k], c, z, block))
  }

  /** Main result.  After all scans of a script that validate_script accepts, sequential or progressive and for
      any block size, each coefficient of a block that was zero at first is the original, truncated to the last
      bit position sent for it by the script; and every scan was in a position to be decoded. */
  lemma ScriptDelivers(scans: seq<Scan>, script: seq<ScanSpec>, order: seq<Index>, blockSize: nat,
                       ncomps: int, precision: int, c: int, z: ZBlock)
    requires Valid(script, ncomps, precision) && LimSe(blockSize) < |order|
    requires CodesAll(scans, Used(script, blockSize), IsProgressive(script), order, LimSe(blockSize))
    ensures var u, zeros: seq<Jcoef> := Used(script, blockSize), seq(64, _ => 0);
            && AllPrimedFor(scans, u, c, z, zeros)
            && HoldsSent(order, LimSe(blockSize), z, script, c, AfterScans(scans, u, c, z, zeros))
  {
    var progressive, lim := IsProgressive(script), LimSe(blockSize);
    var r := Reduced(script, lim);
    ValidIsGood(script, ncomps, precision);
    UsedIsReduced(script, blockSize, progressive, ncomps, MaxAl(precision));
    forall k, j | 0 <= k < |r| && 0 <= j < |r[k].comps|
      ensures FollowsFor(r[..k], r[k], r[k].comps[j])
    {
      ReducedIsSound(script, progressive, ncomps, precision, lim, k);
    }
    ScansDeliver(scans, r, progressive, order, lim, c, z);
    forall i: Index | i <= lim
      ensures LastAl(r, c, i) == LastAl(script, c, i)
    {
      ReducedKeeps(script, lim, c, i);
    }
  }

  lemma {:induction false} SentIfIn(script: seq<ScanSpec>, ncomps: int, hi: int, c: int)
    requires AllGood(script, false, ncomps, hi)
    ensures LastAl(script, c, 0) >= 0 <==> InSome(script, c)
  {
    if script != [] {
      var n := |script| - 1;
      GoodPrefix(script, false, ncomps, hi, n);
      SentIfIn(script[..n], ncomps, hi, c);
      BandWhole(script, ncomps, hi, n);
      InPrefix(script, n, c);
    }
  }

  ghost predicate InSome(script: seq<ScanSpec>, c: int) {
    exists k :: 0 <= k < |script| && c in script[k].comps
  }

  lemma BandWhole(script: seq<ScanSpec>, ncomps: int, hi: int, k: nat)
    requires AllGood(script, false, ncomps, hi) && k < |script|
    ensures script[k].ss == script[k].al == 0 && script[k].se == DCTSIZE2 - 1
  {
    assert GoodSequential(script[..k], script[k], ncomps);
  }

  lemma InPrefix(script: seq<ScanSpec>, n: nat, c: int)
    requires n == |script| - 1
    ensures InSome(script, c) <==> c in script[n].comps || InSome(script[..n], c)
  {
    if k :| 0 <= k < |script[..n]| && c in script[..n][k].comps {
      assert c in script[k].comps;
    }
    if k :| 0 <= k < n && c in script[k].comps {
      assert c in script[..n][k].comps;
    }
  }

  /** In a sequential script each component is in exactly one scan. */
  lemma InOneScan(script: seq<ScanSpec>, ncomps: int, precision: int, c: int) returns (k: nat)
    requires Valid(script, ncomps, precision) && !IsProgressive(script) && 0 <= c < ncomps
    ensures k < |script| && forall j :: 0 <= j < |script| ==> (c in script[j].comps <==> j == k)
  {
    var hi := MaxAl(precision);
    ValidIsGood(script, ncomps, precision);
    SentIfIn(script, ncomps, hi, c);
    k :| k < |script| && c in script[k].comps;
    forall j, l | 0 <= j < l < |script| && c in script[l].comps
      ensures c !in script[j].comps
    {
      GoodPrefix(script, false, ncomps, hi, l);
      SentIfIn(script[..l], ncomps, hi, c);
      assert GoodSequential(script[..l], script[l], ncomps);
      assert script[..l][j] == script[j];
    }
  }

  /** A sequential script gives back every coefficient of every component. */
  lemma SequentialIsLossless(scans: seq<Scan>, script: seq<ScanSpec>, order: seq<Index>, blockSize: nat,
                             ncomps: int, precision: int, c: int, z: ZBlock)
    requires Valid(script, ncomps, precision) && !IsProgressive(script) && 0 <= c < ncomps && LimSe(blockSize) < |order|
    requires CodesAll(scans, Used(script, blockSize), false, order, LimSe(blockSize))
    ensures var after := AfterScans(scans, Used(script, blockSize), c, z, seq(64, _ => 0));
            forall i: Index :: i <= LimSe(blockSize) ==> after[order[i]] == z[i]
  {
    ScriptDelivers(scans, script, order, blockSize, ncomps, precision, c, z);
    ValidIsGood(script, ncomps, precision);
    forall i: Index
      ensures LastAl(script, c, i) == 0
    {
      SentTogether(script, ncomps, MaxAl(precision), c, i);
    }
    Lossless(order, LimSe(blockSize), z, script, c, AfterScans(scans, Used(script, blockSize), c, z, seq(64, _ => 0)));
  }

  lemma {:induction false} ScansDeliver(scans: seq<Scan>, script: seq<ScanSpec>, progressive: bool, order: seq<Index>,
                                        lim: Index, c: int, z: ZBlock)
    requires lim < |order| && CodesAll(scans, script, progressive, order, lim)
    requires forall k, j :: 0 <= k < |script| && 0 <= j < |script[k].comps| ==>
               FollowsFor(script[..k], script[k], script[k].comps[j])
    ensures var zeros: seq<Jcoef> := seq(64, _ => 0);
            && AllPrimedFor(scans, script, c, z, zeros)
            && HoldsSent(order, lim, z, script, c, AfterScans(scans, script, c, z, zeros))
    decreases |script|
  {
    if script != [] {
      var n := |script| - 1;
      var zeros: seq<Jcoef> := seq(64, _ => 0);
      Prefixes(scans, script, n);
      ScansDeliver(scans[..n], script[..n], progressive, order, lim, c, z);
      LastScanDelivers(scans[n], script[n], script[..n], order, lim, c, z, AfterScans(scans[..n], script[..n], c, z, zeros));
      assert script == script[..n] + [script[n]];
    }
  }

  lemma LastScanDelivers(sc: Scan, s: ScanSpec, before: seq<ScanSpec>, order: seq<Index>, lim: Index, c: int, z: ZBlock,
                         block: seq<Jcoef>)
    requires Codes(sc, s, sc.progressive, order, lim) && sc.Injective() && lim < |order| && HoldsSent(order, lim, z, before, c, block)
    requires forall j :: 0 <= j < |s.comps| ==> FollowsFor(before, s, s.comps[j])
    ensures c in s.comps ==> Primed(sc, z, block)
    ensures HoldsSent(order, lim, z, before + [s], c, if c in s.comps then Decoded(sc, z, block) else block)
  {
    if c in s.comps {
      ScanDelivers(sc, s, before, c, z, block);
    } else {
      OthersKept(order, lim, z, before, s, c, block);
    }
  }

  /** A scan without the component changes nothing for it. */
  lemma OthersKept(order: seq<Index>, lim: Index, z: ZBlock, before: seq<ScanSpec>, s: ScanSpec, c: int, block: seq<Jcoef>)
    requires HoldsSent(order, lim, z, before, c, block) && c !in s.comps
    ensures HoldsSent(order, lim, z, before + [s], c, block)
  {
    forall i: Index
      ensures LastAl(before + [s], c, i) == LastAl(before, c, i)
    {
      LastAlMore(before, s, c, i);
    }
  }

  lemma Prefixes(scans: seq<Scan>, script: seq<ScanSpec>, n: nat)
    requires n <= |script| == |scans|
    ensures forall k :: 0 <= k < n ==> script[..n][..k] == script[..k] && scans[..n][..k] == scans[..k]
  {
  }

  /** If everything has been sent down to bit position 0, nothing is lost. */
  lemma Lossless(order: seq<Index>, lim: Index, z: ZBlock, script: seq<ScanSpec>, c: int, block: seq<Jcoef>)
    requires HoldsSent(order, lim, z, script, c, block) && forall i: Index :: i <= lim ==> LastAl(script, c, i) == 0
    ensures forall i: Index :: i <= lim ==> block[order[i]] == z[i]
  {
    forall i: Index | i <= lim
      ensures block[order[i]] == z[i]
    {
      assert block[order[i]] == Sent(z, i, 0);
    }
  }
}
