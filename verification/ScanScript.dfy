/** Scan scripts (jcmaster.c): which scripts validate_script accepts, stated scan by scan, and what
    reduce_script makes of them. */
module ScanScript {
  const MAX_COMPS := 4
  const DCTSIZE2 := 64

  /** An entry of scan_info. */
  datatype ScanSpec = ScanSpec(comps: seq<int>, ss: int, se: int, ah: int, al: int)

  predicate Covers(s: ScanSpec, c: int, i: int) {
    c in s.comps && s.ss <= i <= s.se
  }

  /** The Al of the last scan that has sent coefficient i of component c, or -1. */
  function LastAl(script: seq<ScanSpec>, c: int, i: int): int {
    if script == [] then -1
    else
      var n := |script| - 1;
      if Covers(script[n], c, i) then script[n].al else LastAl(script[..n], c, i)
  }

  predicate Ascending(comps: seq<int>) {
    forall j :: 1 <= j < |comps| ==> comps[j - 1] < comps[j]
  }

  /** One to four components of the image, in the order of the frame header. */
  predicate GoodComponents(s: ScanSpec, ncomps: int) {
    1 <= |s.comps| <= MAX_COMPS && Ascending(s.comps) && forall j :: 0 <= j < |s.comps| ==> 0 <= s.comps[j] < ncomps
  }

  /** The greatest bit position. */
  function MaxAl(precision: int): int {
    if precision > 8 then 13 else 10
  }

  /** The first scan decides between sequential and progressive. */
  predicate IsProgressive(script: seq<ScanSpec>) {
    script != [] && (script[0].ss != 0 || script[0].se != DCTSIZE2 - 1)
  }

  /** A band of DC or of AC coefficients. */
  predicate GoodBand(s: ScanSpec, hi: int) {
    && 0 <= s.ss <= s.se < DCTSIZE2 && 0 <= s.ah <= hi && 0 <= s.al <= hi
    && (s.ss == 0 ==> s.se == 0) && (s.ss != 0 ==> |s.comps| == 1)
  }

  /** A coefficient whose last scan had bit position `last` can be sent next in a scan with Ah and Al. */
  predicate Continues(last: int, ah: int, al: int) {
    if last < 0 then ah == 0 else ah == last && al == ah - 1
  }

  /** The coefficients of component c can be sent in scan s after the given scans. */
  predicate FollowsFor(before: seq<ScanSpec>, s: ScanSpec, c: int) {
    && (s.ss != 0 ==> LastAl(before, c, 0) >= 0)
    && forall i :: s.ss <= i <= s.se ==> Continues(LastAl(before, c, i), s.ah, s.al)
  }

  predicate GoodProgressive(before: seq<ScanSpec>, s: ScanSpec, ncomps: int, hi: int) {
    && GoodComponents(s, ncomps) && GoodBand(s, hi)
    && forall j :: 0 <= j < |s.comps| ==> FollowsFor(before, s, s.comps[j])
  }

  /** All coefficients at once, and no component twice. */
  predicate GoodSequential(before: seq<ScanSpec>, s: ScanSpec, ncomps: int) {
    && GoodComponents(s, ncomps) && s.ss == 0 && s.se == DCTSIZE2 - 1 && s.ah == s.al == 0
    && forall j :: 0 <= j < |s.comps| ==> LastAl(before, s.comps[j], 0) < 0
  }

  predicate GoodScan(script: seq<ScanSpec>, k: nat, ncomps: int, hi: int)
    requires k < |script|
  {
    if IsProgressive(script) then GoodProgressive(script[..k], script[k], ncomps, hi)
    else GoodSequential(script[..k], script[k], ncomps)
  }

  /** Every component gets its DC coefficients. */
  predicate AllSent(script: seq<ScanSpec>, ncomps: int) {
    forall c :: 0 <= c < ncomps ==> LastAl(script, c, 0) >= 0
  }

  /** What validate_script accepts. */
  predicate Valid(script: seq<ScanSpec>, ncomps: int, precision: int) {
    && script != [] && (forall k :: 0 <= k < |script| ==> GoodScan(script, k, ncomps, MaxAl(precision)))
    && AllSent(script, ncomps)
  }

  // ------------------------------------------------------------------ validate_script

  /** The verdict: the mode, or the (0-based) number of the first bad scan, |script| if a component is
      missing. */
  datatype Verdict = Sequential | Progressive | BadScan(k: nat)

  /** The table holds the last Al of each coefficient. */
  ghost predicate Tracks(bits: array2<int>, script: seq<ScanSpec>, ncomps: nat)
    reads bits
  {
    && bits.Length0 == ncomps && bits.Length1 == DCTSIZE2
    && forall c, i :: 0 <= c < ncomps && 0 <= i < DCTSIZE2 ==> bits[c, i] == LastAl(script, c, i)
  }

  /** The same, when the components of scan s before index j have been entered. */
  ghost predicate TracksPart(bits: array2<int>, before: seq<ScanSpec>, s: ScanSpec, j: nat, ncomps: nat)
    requires j <= |s.comps|
    reads bits
  {
    && bits.Length0 == ncomps && bits.Length1 == DCTSIZE2
    && forall c, i :: 0 <= c < ncomps && 0 <= i < DCTSIZE2 ==>
         bits[c, i] == if c in s.comps[..j] && s.ss <= i <= s.se then s.al else LastAl(before, c, i)
  }

  lemma LastAlMore(before: seq<ScanSpec>, s: ScanSpec, c: int, i: int)
    ensures LastAl(before + [s], c, i) == if Covers(s, c, i) then s.al else LastAl(before, c, i)
  {
    assert (before + [s])[..|before|] == before;
  }

  lemma TracksWhole(bits: array2<int>, before: seq<ScanSpec>, s: ScanSpec, ncomps: nat)
    requires TracksPart(bits, before, s, |s.comps|, ncomps)
    ensures Tracks(bits, before + [s], ncomps)
  {
    assert s.comps[..|s.comps|] == s.comps;
    forall c, i | 0 <= c < ncomps && 0 <= i < DCTSIZE2
      ensures bits[c, i] == LastAl(before + [s], c, i)
    {
      LastAlMore(before, s, c, i);
    }
  }

  /** Components in ascending order are different. */
  lemma {:induction false} Distinct(comps: seq<int>, j: nat, k: nat)
    requires Ascending(comps) && j < k < |comps|
    ensures comps[j] < comps[k]
  {
    if j < k - 1 {
      Distinct(comps, j, k - 1);
    }
  }

  lemma NotEarlier(s: ScanSpec, j: nat)
    requires Ascending(s.comps) && j < |s.comps|
    ensures s.comps[j] !in s.comps[..j] && s.comps[..j + 1] == s.comps[..j] + [s.comps[j]]
  {
    forall k | 0 <= k < j
      ensures s.comps[k] != s.comps[j]
    {
      Distinct(s.comps, k, j);
    }
  }

  /** The component indexes of a scan. */
  method CheckComponents(s: ScanSpec, ncomps: nat) returns (ok: bool)
    ensures ok <==> GoodComponents(s, ncomps)
  {
    if |s.comps| <= 0 || |s.comps| > MAX_COMPS {
      return false;
    }
    for ci := 0 to |s.comps|
      invariant forall j :: 0 <= j < ci ==> 0 <= s.comps[j] < ncomps
      invariant forall j :: 1 <= j < ci ==> s.comps[j - 1] < s.comps[j]
    {
      var thisi := s.comps[ci];
      if thisi < 0 || thisi >= ncomps {
        return false;
      }
      if ci > 0 && thisi <= s.comps[ci - 1] {
        return false;
      }
    }
    ok := true;
  }

  /** One component of a progressive scan: its coefficients are checked and entered. */
  method CheckBand(bits: array2<int>, ghost before: seq<ScanSpec>, s: ScanSpec, j: nat, ncomps: nat) returns (ok: bool)
    requires GoodComponents(s, ncomps) && j < |s.comps| && 0 <= s.ss <= s.se < DCTSIZE2
    requires TracksPart(bits, before, s, j, ncomps)
    modifies bits
    ensures ok <==> FollowsFor(before, s, s.comps[j])
    ensures ok ==> TracksPart(bits, before, s, j + 1, ncomps)
  {
    NotEarlier(s, j);
    var c := s.comps[j];
    if s.ss != 0 && bits[c, 0] < 0 {
      return false;
    }
    var coefi := s.ss;
    while coefi <= s.se
      invariant s.ss <= coefi <= s.se + 1
      invariant forall i :: s.ss <= i < coefi ==> Continues(LastAl(before, c, i), s.ah, s.al)
      invariant forall c1, i :: 0 <= c1 < ncomps && 0 <= i < DCTSIZE2 ==>
        bits[c1, i] == if (c1 in s.comps[..j] && s.ss <= i <= s.se) || (c1 == c && s.ss <= i < coefi) then s.al
                       else LastAl(before, c1, i)
    {
      if bits[c, coefi] < 0 {
        if s.ah != 0 {
          return false;
        }
      } else {
        if s.ah != bits[c, coefi] || s.al != s.ah - 1 {
          return false;
        }
      }
      bits[c, coefi] := s.al;
      coefi := coefi + 1;
    }
    ok := true;
  }

  /** A scan of a progressive script. */
  method CheckProgressive(bits: array2<int>, ghost before: seq<ScanSpec>, s: ScanSpec, ncomps: nat, hi: int) returns (ok: bool)
    requires GoodComponents(s, ncomps) && Tracks(bits, before, ncomps)
    modifies bits
    ensures ok <==> GoodProgressive(before, s, ncomps, hi)
    ensures ok ==> Tracks(bits, before + [s], ncomps)
  {
    if s.ss < 0 || s.ss >= DCTSIZE2 || s.se < s.ss || s.se >= DCTSIZE2 || s.ah < 0 || s.ah > hi || s.al < 0 || s.al > hi {
      return false;
    }
    if s.ss == 0 {
      if s.se != 0 {
        return false;
      }
    } else {
      if |s.comps| != 1 {
        return false;
      }
    }
    for j := 0 to |s.comps|
      invariant TracksPart(bits, before, s, j, ncomps)
      invariant forall k :: 0 <= k < j ==> FollowsFor(before, s, s.comps[k])
    {
      ok := CheckBand(bits, before, s, j, ncomps);
      if !ok {
        return;
      }
    }
    TracksWhole(bits, before, s, ncomps);
    ok := true;
  }

  /** Which components a sequential script has sent. */
  ghost predicate TracksSent(sent: array<bool>, before: seq<ScanSpec>, done: seq<int>)
    reads sent
  {
    forall c :: 0 <= c < sent.Length ==> (sent[c] <==> LastAl(before, c, 0) >= 0 || c in done)
  }

  /** A scan of a sequential script. */
  method CheckSequential(sent: array<bool>, ghost before: seq<ScanSpec>, s: ScanSpec, ncomps: nat) returns (ok: bool)
    requires GoodComponents(s, ncomps) && sent.Length == ncomps && TracksSent(sent, before, [])
    modifies sent
    ensures ok <==> GoodSequential(before, s, ncomps)
    ensures ok ==> TracksSent(sent, before + [s], [])
  {
    if s.ss != 0 || s.se != DCTSIZE2 - 1 || s.ah != 0 || s.al != 0 {
      return false;
    }
    for ci := 0 to |s.comps|
      invariant TracksSent(sent, before, s.comps[..ci])
      invariant forall j :: 0 <= j < ci ==> LastAl(before, s.comps[j], 0) < 0
    {
      NotEarlier(s, ci);
      var thisi := s.comps[ci];
      if sent[thisi] {
        return false;
      }
      sent[thisi] := true;
    }
    assert s.comps[..|s.comps|] == s.comps;
    forall c | 0 <= c < ncomps
      ensures sent[c] <==> LastAl(before + [s], c, 0) >= 0
    {
      LastAlMore(before, s, c, 0);
    }
    ok := true;
  }

  lemma NextPrefix(script: seq<ScanSpec>, k: nat)
    requires k < |script|
    ensures script[..k + 1] == script[..k] + [script[k]]
  {
  }

  /** Up to scan k everything is right, and there it goes wrong. */
  ghost predicate FailsAt(script: seq<ScanSpec>, ncomps: nat, precision: int, k: nat) {
    && k <= |script| && (forall j :: 0 <= j < k ==> GoodScan(script, j, ncomps, MaxAl(precision)))
    && if k < |script| then !GoodScan(script, k, ncomps, MaxAl(precision)) else script == [] || !AllSent(script, ncomps)
  }

  /** validate_script */
  method ValidateScript(script: seq<ScanSpec>, ncomps: nat, precision: int) returns (v: Verdict)
    ensures v.BadScan? <==> !Valid(script, ncomps, precision)
    ensures v.BadScan? ==> FailsAt(script, ncomps, precision, v.k)
    ensures !v.BadScan? ==> (v.Progressive? <==> IsProgressive(script))
  {
    if |script| == 0 {
      return BadScan(0);
    }
    if script[0].ss != 0 || script[0].se != DCTSIZE2 - 1 {
      v := ValidateProgressive(script, ncomps, precision);
    } else {
      v := ValidateSequential(script, ncomps, precision);
    }
  }

  method ValidateProgressive(script: seq<ScanSpec>, ncomps: nat, precision: int) returns (v: Verdict)
    requires IsProgressive(script)
    ensures if v.BadScan? then FailsAt(script, ncomps, precision, v.k) else v.Progressive? && Valid(script, ncomps, precision)
  {
    var bits := new int[ncomps, DCTSIZE2]((_, _) => -1);
    assert script[..0] == [];
    for k := 0 to |script|
      invariant Tracks(bits, script[..k], ncomps)
      invariant forall j :: 0 <= j < k ==> GoodScan(script, j, ncomps, MaxAl(precision))
    {
      NextPrefix(script, k);
      var ok := CheckComponents(script[k], ncomps);
      if !ok {
        return BadScan(k);
      }
      ok := CheckProgressive(bits, script[..k], script[k], ncomps, if precision > 8 then 13 else 10);
      if !ok {
        return BadScan(k);
      }
    }
    assert script[..|script|] == script;
    for ci := 0 to ncomps
      invariant forall c :: 0 <= c < ci ==> LastAl(script, c, 0) >= 0
    {
      if bits[ci, 0] < 0 {
        return BadScan(|script|);
      }
    }
    v := Progressive;
  }

  method ValidateSequential(script: seq<ScanSpec>, ncomps: nat, precision: int) returns (v: Verdict)
    requires script != [] && !IsProgressive(script)
    ensures if v.BadScan? then FailsAt(script, ncomps, precision, v.k) else v.Sequential? && Valid(script, ncomps, precision)
  {
    var sent := new bool[ncomps](_ => false);
    assert script[..0] == [];
    for k := 0 to |script|
      invariant TracksSent(sent, script[..k], [])
      invariant forall j :: 0 <= j < k ==> GoodScan(script, j, ncomps, MaxAl(precision))
    {
      NextPrefix(script, k);
      var ok := CheckComponents(script[k], ncomps);
      if !ok {
        return BadScan(k);
      }
      ok := CheckSequential(sent, script[..k], script[k], ncomps);
      if !ok {
        return BadScan(k);
      }
    }
    assert script[..|script|] == script;
    for ci := 0 to ncomps
      invariant forall c :: 0 <= c < ci ==> LastAl(script, c, 0) >= 0
    {
      if !sent[ci] {
        return BadScan(|script|);
      }
    }
    v := Sequential;
  }

  // ------------------------------------------------------------------ reduce_script

  /** The scans that reach into blocks of lim + 1 coefficients, cut off there. */
  function Reduced(script: seq<ScanSpec>, lim: int): (r: seq<ScanSpec>)
    ensures |r| <= |script|
  {
    if script == [] then []
    else
      var n := |script| - 1;
      if script[n].ss > lim then Reduced(script[..n], lim)
      else Reduced(script[..n], lim) + [if script[n].se > lim then script[n].(se := lim) else script[n]]
  }

  lemma ReducedStep(script: seq<ScanSpec>, lim: int, i: nat)
    requires i < |script|
    ensures Reduced(script[..i + 1], lim) == Reduced(script[..i], lim)
              + if script[i].ss > lim then [] else [if script[i].se > lim then script[i].(se := lim) else script[i]]
  {
    assert script[..i + 1][..i] == script[..i] && script[..i + 1][i] == script[i];
  }

  /** reduce_script, in place. */
  method ReduceScript(scans: array<ScanSpec>, numScans: nat, lim: int) returns (n: nat)
    requires numScans <= scans.Length
    modifies scans
    ensures n <= numScans && scans[..n] == Reduced(old(scans[..numScans]), lim)
  {
    ghost var script := scans[..numScans];
    n := 0;
    for i := 0 to numScans
      invariant n <= i && scans[..n] == Reduced(script[..i], lim)
      invariant forall j :: i <= j < numScans ==> scans[j] == script[j]
    {
      ReducedStep(script, lim, i);
      if i != n {
        scans[n] := scans[i];
      }
      if scans[n].ss > lim {
        continue;
      }
      if scans[n].se > lim {
        scans[n] := scans[n].(se := lim);
      }
      n := n + 1;
      assert scans[..n] == scans[..n - 1] + [scans[n - 1]];
    }
    assert script[..numScans] == script;
  }

  /** Reduction does not change what is sent of the coefficients that remain. */
  lemma {:induction false} ReducedKeeps(script: seq<ScanSpec>, lim: int, c: int, i: int)
    requires i <= lim
    ensures LastAl(Reduced(script, lim), c, i) == LastAl(script, c, i)
  {
    if script != [] {
      var n := |script| - 1;
      ReducedKeeps(script[..n], lim, c, i);
      if script[n].ss <= lim {
        var s := if script[n].se > lim then script[n].(se := lim) else script[n];
        LastAlMore(Reduced(script[..n], lim), s, c, i);
      }
    }
  }
}
