/** The recommended progressive script (jpeg_simple_progression of jcparam.c): it fills exactly the
    space computed for it, it is accepted, and it loses nothing. */
module SimpleProgression {
  import opened ArithModel
  import opened ScanScript
  import opened ScriptDelivery
  import opened SizeArithmetic

  function OneScan(ci: nat, ss: int, se: int, ah: int, al: int): ScanSpec {
    ScanSpec([ci], ss, se, ah, al)
  }

  /** One scan for each component. */
  function EachComponent(ncomps: nat, ss: int, se: int, ah: int, al: int): (r: seq<ScanSpec>)
    ensures |r| == ncomps && forall ci :: 0 <= ci < ncomps ==> r[ci] == OneScan(ci, ss, se, ah, al)
  {
    seq(ncomps, ci requires 0 <= ci < ncomps => OneScan(ci, ss, se, ah, al))
  }

  /** The components 0..n-1. */
  function Components(n: nat): (r: seq<int>)
    ensures |r| == n && forall i :: 0 <= i < n ==> r[i] == i
  {
    seq(n, i => i)
  }

  /** One interleaved scan if that is possible. */
  function DcScans(ncomps: nat, ah: int, al: int): seq<ScanSpec> {
    if ncomps <= MAX_COMPS then [ScanSpec(Components(ncomps), 0, 0, ah, al)] else EachComponent(ncomps, 0, 0, ah, al)
  }

  /** The first AC scans for YCC colour images: some luminance in a hurry, all of the chrominance, the
      rest of the luminance, and its next bit. */
  function YccFirst(): seq<ScanSpec> {
    [OneScan(0, 1, 5, 0, 2), OneScan(2, 1, 63, 0, 1), OneScan(1, 1, 63, 0, 1), OneScan(0, 6, 63, 0, 2),
     OneScan(0, 1, 63, 2, 1)]
  }

  /** The last bits; those of the luminance come last. */
  function YccLast(): seq<ScanSpec> {
    [OneScan(2, 1, 63, 1, 0), OneScan(1, 1, 63, 1, 0), OneScan(0, 1, 63, 1, 0)]
  }

  /** The script; ycc tells that there are three components with luminance and chrominance. */
  function SimpleScript(ncomps: nat, ycc: bool): seq<ScanSpec> {
    if ycc then DcScans(ncomps, 0, 1) + YccFirst() + DcScans(ncomps, 1, 0) + YccLast()
    else
      DcScans(ncomps, 0, 1)
      + EachComponent(ncomps, 1, 5, 0, 2) + EachComponent(ncomps, 6, 63, 0, 2)
      + EachComponent(ncomps, 1, 63, 2, 1)
      + DcScans(ncomps, 1, 0)
      + EachComponent(ncomps, 1, 63, 1, 0)
  }

  // ------------------------------------------------------------------ filling the table

  /** The part of the compression object that holds the script. */
  class ScriptHolder {
    var scriptSpace: array?<ScanSpec>
    var numScans: nat

    constructor ()
      ensures scriptSpace == null && numScans == 0
    {
      scriptSpace, numScans := null, 0;
    }

    /** The script that is in force. */
    ghost function Script(): seq<ScanSpec>
      reads this, scriptSpace
      requires scriptSpace != null && numScans <= scriptSpace.Length
    {
      scriptSpace[..numScans]
    }

    /** jpeg_simple_progression */
    method MakeSimpleProgression(ncomps: nat, yccSpace: bool)
      requires ncomps >= 1
      modifies this, scriptSpace
      ensures scriptSpace != null && numScans <= scriptSpace.Length
      ensures scriptSpace == old(scriptSpace) || fresh(scriptSpace)
      ensures Script() == SimpleScript(ncomps, ncomps == 3 && yccSpace)
    {
      var nscans: nat;
      if ncomps == 3 && yccSpace {
        nscans := 10;
      } else if ncomps > MAX_COMPS {
        nscans := 6 * ncomps;
      } else {
        nscans := 2 + 4 * ncomps;
      }
      if scriptSpace == null || scriptSpace.Length < nscans {
        var size := if nscans > 10 then nscans else 10;
        scriptSpace := new ScanSpec[size](_ => ScanSpec([], 0, 0, 0, 0));
      }
      numScans := nscans;
      if ncomps == 3 && yccSpace {
        FillYcc(scriptSpace, ncomps);
      } else {
        FillAllPurpose(scriptSpace, ncomps);
      }
    }
  }

  /** The custom script for YCC colour images. */
  method FillYcc(space: array<ScanSpec>, ncomps: nat)
    requires ncomps == 3 && space.Length >= 10
    modifies space
    ensures space[..10] == SimpleScript(ncomps, true)
  {
    var p := FillDcScans(space, 0, ncomps, 0, 1);
    p := FillAScan(space, p, 0, 1, 5, 0, 2);
    p := FillAScan(space, p, 2, 1, 63, 0, 1);
    p := FillAScan(space, p, 1, 1, 63, 0, 1);
    p := FillAScan(space, p, 0, 6, 63, 0, 2);
    p := FillAScan(space, p, 0, 1, 63, 2, 1);
    assert space[..p] == DcScans(ncomps, 0, 1) + YccFirst();
    p := FillDcScans(space, p, ncomps, 1, 0);
    p := FillAScan(space, p, 2, 1, 63, 1, 0);
    p := FillAScan(space, p, 1, 1, 63, 1, 0);
    p := FillAScan(space, p, 0, 1, 63, 1, 0);
    assert space[..p] == DcScans(ncomps, 0, 1) + YccFirst() + DcScans(ncomps, 1, 0) + YccLast();
  }

  /** The all-purpose script for other colour spaces. */
  method FillAllPurpose(space: array<ScanSpec>, ncomps: nat)
    requires ncomps >= 1 && space.Length >= if ncomps > MAX_COMPS then 6 * ncomps else 2 + 4 * ncomps
    modifies space
    ensures space[..if ncomps > MAX_COMPS then 6 * ncomps else 2 + 4 * ncomps] == SimpleScript(ncomps, false)
  {
    ghost var n := |DcScans(ncomps, 0, 1)|;
    assert n == |DcScans(ncomps, 1, 0)| == if ncomps > MAX_COMPS then ncomps else 1;
    var p := FillFirstPass(space, ncomps);
    ghost var first := space[..p];
    p := FillScans(space, p, ncomps, 1, 63, 2, 1);
    p := FillDcScans(space, p, ncomps, 1, 0);
    p := FillScans(space, p, ncomps, 1, 63, 1, 0);
    assert space[..p] == first + EachComponent(ncomps, 1, 63, 2, 1) + DcScans(ncomps, 1, 0)
                         + EachComponent(ncomps, 1, 63, 1, 0);
  }

  /** Successive approximation, first pass. */
  method FillFirstPass(space: array<ScanSpec>, ncomps: nat) returns (p: nat)
    requires ncomps >= 1 && space.Length >= |DcScans(ncomps, 0, 1)| + 2 * ncomps
    modifies space
    ensures p == |DcScans(ncomps, 0, 1)| + 2 * ncomps
    ensures space[..p] == DcScans(ncomps, 0, 1) + EachComponent(ncomps, 1, 5, 0, 2) + EachComponent(ncomps, 6, 63, 0, 2)
  {
    p := FillDcScans(space, 0, ncomps, 0, 1);
    assert space[..p] == DcScans(ncomps, 0, 1);
    p := FillScans(space, p, ncomps, 1, 5, 0, 2);
    p := FillScans(space, p, ncomps, 6, 63, 0, 2);
  }

  method FillAScan(space: array<ScanSpec>, p: nat, ci: nat, ss: int, se: int, ah: int, al: int) returns (p1: nat)
    requires p < space.Length
    modifies space
    ensures p1 == p + 1 && space[..p1] == old(space[..p]) + [OneScan(ci, ss, se, ah, al)]
  {
    space[p] := ScanSpec([ci], ss, se, ah, al);
    p1 := p + 1;
  }

  method FillScans(space: array<ScanSpec>, p: nat, ncomps: nat, ss: int, se: int, ah: int, al: int) returns (p1: nat)
    requires p + ncomps <= space.Length
    modifies space
    ensures p1 == p + ncomps && space[..p1] == old(space[..p]) + EachComponent(ncomps, ss, se, ah, al)
  {
    for ci := 0 to ncomps
      invariant space[..p] == old(space[..p])
      invariant forall i :: 0 <= i < ci ==> space[p + i] == OneScan(i, ss, se, ah, al)
    {
      space[p + ci] := ScanSpec([ci], ss, se, ah, al);
    }
    p1 := p + ncomps;
  }

  method FillDcScans(space: array<ScanSpec>, p: nat, ncomps: nat, ah: int, al: int) returns (p1: nat)
    requires p + |DcScans(ncomps, ah, al)| <= space.Length
    modifies space
    ensures p1 == p + |DcScans(ncomps, ah, al)| && space[..p1] == old(space[..p]) + DcScans(ncomps, ah, al)
  {
    if ncomps <= MAX_COMPS {
      space[p] := ScanSpec(seq(ncomps, i => i), 0, 0, ah, al);
      p1 := p + 1;
    } else {
      p1 := FillScans(space, p, ncomps, 0, 0, ah, al);
    }
  }

  // ------------------------------------------------------------------ acceptance

  /** The bit positions of a component: of DC, of coefficients 1 to 5, and of the others. */
  datatype Positions = Positions(dc: int, a: int, b: int)

  /** The script has left the components at these positions. */
  ghost predicate At(script: seq<ScanSpec>, ps: seq<Positions>) {
    forall c :: 0 <= c < |ps| ==> AtFor(script, ps[c], c)
  }

  ghost predicate AtFor(script: seq<ScanSpec>, p: Positions, c: int) {
    && LastAl(script, c, 0) == p.dc
    && (forall i :: 1 <= i <= 5 ==> LastAl(script, c, i) == p.a)
    && forall i :: 6 <= i <= 63 ==> LastAl(script, c, i) == p.b
  }

  /** The scans continue the script one after the other. */
  ghost predicate ContinuesWith(script: seq<ScanSpec>, more: seq<ScanSpec>, ncomps: nat) {
    forall k :: 0 <= k < |more| ==> GoodProgressive(script + more[..k], more[k], ncomps, MaxAl(8))
  }

  lemma ContinuesTogether(script: seq<ScanSpec>, a: seq<ScanSpec>, b: seq<ScanSpec>, ncomps: nat)
    requires ContinuesWith(script, a, ncomps) && ContinuesWith(script + a, b, ncomps)
    ensures ContinuesWith(script, a + b, ncomps)
  {
    forall k | 0 <= k < |a + b|
      ensures GoodProgressive(script + (a + b)[..k], (a + b)[k], ncomps, MaxAl(8))
    {
      if k < |a| {
        assert (a + b)[..k] == a[..k];
      } else {
        assert script + (a + b)[..k] == script + a + b[..k - |a|];
      }
    }
  }

  lemma OneMore(script: seq<ScanSpec>, all: seq<ScanSpec>, m: nat, ncomps: nat)
    requires 1 <= m <= |all| && ContinuesWith(script, all[..m - 1], ncomps)
    requires ContinuesWith(script + all[..m - 1], [all[m - 1]], ncomps)
    ensures ContinuesWith(script, all[..m], ncomps)
    ensures script + all[..m] == (script + all[..m - 1]) + [all[m - 1]]
  {
    ContinuesTogether(script, all[..m - 1], [all[m - 1]], ncomps);
    assert all[..m] == all[..m - 1] + [all[m - 1]];
  }

  /** The positions of a component after a scan of an AC band: the first coefficients, the others, or
      both. */
  function AfterBand(p: Positions, ss: int, se: int, al: int): Positions {
    Positions(p.dc, if ss <= 1 then al else p.a, if se >= 63 then al else p.b)
  }

  predicate KnownBand(ss: int, se: int) {
    (ss == 1 && se == 5) || (ss == 6 && se == 63) || (ss == 1 && se == 63)
  }

  /** A scan of an AC band of one component. */
  lemma AcScan(script: seq<ScanSpec>, ps: seq<Positions>, c: nat, ss: int, se: int, ah: int, al: int)
    requires At(script, ps) && c < |ps| && KnownBand(ss, se) && 0 <= ah <= 10 && 0 <= al <= 10 && ps[c].dc >= 0
    requires (ss <= 1 ==> Continues(ps[c].a, ah, al)) && (se >= 63 ==> Continues(ps[c].b, ah, al))
    ensures var s := OneScan(c, ss, se, ah, al);
            ContinuesWith(script, [s], |ps|) && At(script + [s], ps[c := AfterBand(ps[c], ss, se, al)])
  {
    var s := OneScan(c, ss, se, ah, al);
    assert AtFor(script, ps[c], c);
    forall i | ss <= i <= se
      ensures Continues(LastAl(script, c, i), ah, al)
    {
      assert (i <= 5 ==> LastAl(script, c, i) == ps[c].a) && (i >= 6 ==> LastAl(script, c, i) == ps[c].b);
    }
    assert script + [s][..0] == script;
    AcMoves(script, ps, c, ss, se, ah, al);
  }

  lemma AcMoves(script: seq<ScanSpec>, ps: seq<Positions>, c: nat, ss: int, se: int, ah: int, al: int)
    requires At(script, ps) && c < |ps| && KnownBand(ss, se)
    ensures At(script + [OneScan(c, ss, se, ah, al)], ps[c := AfterBand(ps[c], ss, se, al)])
  {
    var s, qs := OneScan(c, ss, se, ah, al), ps[c := AfterBand(ps[c], ss, se, al)];
    SentThen(script, s);
    forall c1 | 0 <= c1 < |ps|
      ensures AtFor(script + [s], qs[c1], c1)
    {
      assert AtFor(script, ps[c1], c1);
    }
  }

  /** What has been sent when one more scan has. */
  lemma SentThen(script: seq<ScanSpec>, s: ScanSpec)
    ensures forall c, i :: LastAl(script + [s], c, i) == if Covers(s, c, i) then s.al else LastAl(script, c, i)
  {
    forall c, i
      ensures LastAl(script + [s], c, i) == if Covers(s, c, i) then s.al else LastAl(script, c, i)
    {
      LastAlMore(script, s, c, i);
    }
  }

  /** Every component at the same positions. */
  function Alike(n: nat, p: Positions): (r: seq<Positions>)
    ensures |r| == n && forall c :: 0 <= c < n ==> r[c] == p
  {
    seq(n, _ => p)
  }

  /** The first m of n components are at q, the others still at p. */
  function Half(n: nat, m: nat, p: Positions, q: Positions): (r: seq<Positions>)
    ensures |r| == n && forall c :: 0 <= c < n ==> r[c] == if c < m then q else p
  {
    seq(n, c => if c < m then q else p)
  }

  /** Scans of an AC band of every component. */
  lemma {:induction false} AcScans(script: seq<ScanSpec>, n: nat, m: nat, p: Positions, ss: int, se: int, ah: int, al: int)
    requires At(script, Alike(n, p)) && KnownBand(ss, se) && 0 <= ah <= 10 && 0 <= al <= 10 && p.dc >= 0 && m <= n
    requires (ss <= 1 ==> Continues(p.a, ah, al)) && (se >= 63 ==> Continues(p.b, ah, al))
    ensures var more := EachComponent(n, ss, se, ah, al)[..m];
            ContinuesWith(script, more, n) && At(script + more, Half(n, m, p, AfterBand(p, ss, se, al)))
  {
    var all := EachComponent(n, ss, se, ah, al);
    if m == 0 {
      assert script + all[..0] == script && Half(n, m, p, AfterBand(p, ss, se, al)) == Alike(n, p);
    } else {
      AcScans(script, n, m - 1, p, ss, se, ah, al);
      var q := AfterBand(p, ss, se, al);
      AcScan(script + all[..m - 1], Half(n, m - 1, p, q), m - 1, ss, se, ah, al);
      OneMore(script, all, m, n);
      assert Half(n, m - 1, p, q)[m - 1 := q] == Half(n, m, p, q);
    }
  }

  /** A DC scan of one component. */
  lemma DcScan(script: seq<ScanSpec>, ps: seq<Positions>, c: nat, ah: int, al: int)
    requires At(script, ps) && c < |ps| && 0 <= ah <= 10 && 0 <= al <= 10 && Continues(ps[c].dc, ah, al)
    ensures var s := OneScan(c, 0, 0, ah, al);
            ContinuesWith(script, [s], |ps|) && At(script + [s], ps[c := ps[c].(dc := al)])
  {
    var s := OneScan(c, 0, 0, ah, al);
    assert AtFor(script, ps[c], c);
    assert script + [s][..0] == script;
    DcMoves(script, ps, c, ah, al);
  }

  lemma DcMoves(script: seq<ScanSpec>, ps: seq<Positions>, c: nat, ah: int, al: int)
    requires At(script, ps) && c < |ps|
    ensures At(script + [OneScan(c, 0, 0, ah, al)], ps[c := ps[c].(dc := al)])
  {
    var s, qs := OneScan(c, 0, 0, ah, al), ps[c := ps[c].(dc := al)];
    SentThen(script, s);
    forall c1 | 0 <= c1 < |ps|
      ensures AtFor(script + [s], qs[c1], c1)
    {
      assert AtFor(script, ps[c1], c1);
    }
  }

  lemma {:induction false} DcEach(script: seq<ScanSpec>, n: nat, m: nat, p: Positions, ah: int, al: int)
    requires At(script, Alike(n, p)) && 0 <= ah <= 10 && 0 <= al <= 10 && Continues(p.dc, ah, al) && m <= n
    ensures var more := EachComponent(n, 0, 0, ah, al)[..m];
            ContinuesWith(script, more, n) && At(script + more, Half(n, m, p, p.(dc := al)))
  {
    var all := EachComponent(n, 0, 0, ah, al);
    if m == 0 {
      assert script + all[..0] == script && Half(n, m, p, p.(dc := al)) == Alike(n, p);
    } else {
      DcEach(script, n, m - 1, p, ah, al);
      var q := p.(dc := al);
      DcScan(script + all[..m - 1], Half(n, m - 1, p, q), m - 1, ah, al);
      OneMore(script, all, m, n);
      assert Half(n, m - 1, p, q)[m - 1 := q] == Half(n, m, p, q);
    }
  }

  /** The DC scans of all components, interleaved or not. */
  lemma DcPhase(script: seq<ScanSpec>, n: nat, ps: seq<Positions>, qs: seq<Positions>, p: Positions, ah: int, al: int)
    requires |ps| == |qs| == n >= 1 && At(script, ps) && 0 <= ah <= 10 && 0 <= al <= 10
    requires forall c :: 0 <= c < n ==> Continues(ps[c].dc, ah, al) && qs[c] == ps[c].(dc := al)
    requires n > MAX_COMPS ==> ps == Alike(n, p)
    ensures ContinuesWith(script, DcScans(n, ah, al), n) && At(script + DcScans(n, ah, al), qs)
  {
    if n <= MAX_COMPS {
      DcTogether(script, ps, qs, ah, al);
    } else {
      assert ps[0] == p;
      DcEach(script, n, n, p, ah, al);
      assert EachComponent(n, 0, 0, ah, al)[..n] == EachComponent(n, 0, 0, ah, al);
      assert Half(n, n, p, p.(dc := al)) == qs;
    }
  }

  lemma DcTogether(script: seq<ScanSpec>, ps: seq<Positions>, qs: seq<Positions>, ah: int, al: int)
    requires 1 <= |ps| == |qs| <= MAX_COMPS && At(script, ps) && 0 <= ah <= 10 && 0 <= al <= 10
    requires forall c :: 0 <= c < |ps| ==> Continues(ps[c].dc, ah, al) && qs[c] == ps[c].(dc := al)
    ensures var s := ScanSpec(Components(|ps|), 0, 0, ah, al);
            ContinuesWith(script, [s], |ps|) && At(script + [s], qs)
  {
    var s := ScanSpec(Components(|ps|), 0, 0, ah, al);
    assert script + [s][..0] == script;
    forall j | 0 <= j < |s.comps|
      ensures FollowsFor(script, s, s.comps[j])
    {
      assert AtFor(script, ps[j], j);
    }
    forall c1 | 0 <= c1 < |ps|
      ensures AtFor(script + [s], qs[c1], c1)
    {
      assert AtFor(script, ps[c1], c1) && s.comps[c1] == c1;
      forall i
        ensures LastAl(script + [s], c1, i) == if i == 0 then al else LastAl(script, c1, i)
      {
        LastAlMore(script, s, c1, i);
      }
    }
  }

  // ------------------------------------------------------------------ the whole script

  const NONE := Positions(-1, -1, -1)

  lemma NothingSent(n: nat)
    ensures At([], Alike(n, NONE))
  {
  }

  /** The scans of an AC band of all components, all of which are at p. */
  lemma AcPhase(script: seq<ScanSpec>, n: nat, p: Positions, ss: int, se: int, ah: int, al: int)
    requires At(script, Alike(n, p)) && KnownBand(ss, se) && 0 <= ah <= 10 && 0 <= al <= 10 && p.dc >= 0
    requires (ss <= 1 ==> Continues(p.a, ah, al)) && (se >= 63 ==> Continues(p.b, ah, al))
    ensures ContinuesWith(script, EachComponent(n, ss, se, ah, al), n)
    ensures At(script + EachComponent(n, ss, se, ah, al), Alike(n, AfterBand(p, ss, se, al)))
  {
    AcScans(script, n, n, p, ss, se, ah, al);
    assert EachComponent(n, ss, se, ah, al)[..n] == EachComponent(n, ss, se, ah, al);
    assert Half(n, n, p, AfterBand(p, ss, se, al)) == Alike(n, AfterBand(p, ss, se, al));
  }

  /** A further part of a script. */
  lemma Extend(script: seq<ScanSpec>, more: seq<ScanSpec>, n: nat)
    requires ContinuesWith([], script, n) && ContinuesWith(script, more, n)
    ensures ContinuesWith([], script + more, n)
  {
    assert [] + script == script;
    ContinuesTogether([], script, more, n);
  }

  lemma AllPurposeContinues(n: nat)
    requires n >= 1
    ensures ContinuesWith([], SimpleScript(n, false), n)
    ensures At(SimpleScript(n, false), Alike(n, Positions(0, 0, 0)))
  {
    var s1 := DcScans(n, 0, 1);
    var s2 := s1 + EachComponent(n, 1, 5, 0, 2);
    var s3 := s2 + EachComponent(n, 6, 63, 0, 2);
    var s4 := s3 + EachComponent(n, 1, 63, 2, 1);
    var s5 := s4 + DcScans(n, 1, 0);
    NothingSent(n);
    DcPhase([], n, Alike(n, NONE), Alike(n, Positions(1, -1, -1)), NONE, 0, 1);
    assert [] + s1 == s1;
    AcPhase(s1, n, Positions(1, -1, -1), 1, 5, 0, 2);
    Extend(s1, EachComponent(n, 1, 5, 0, 2), n);
    AcPhase(s2, n, Positions(1, 2, -1), 6, 63, 0, 2);
    Extend(s2, EachComponent(n, 6, 63, 0, 2), n);
    AcPhase(s3, n, Positions(1, 2, 2), 1, 63, 2, 1);
    Extend(s3, EachComponent(n, 1, 63, 2, 1), n);
    DcPhase(s4, n, Alike(n, Positions(1, 1, 1)), Alike(n, Positions(0, 1, 1)), Positions(1, 1, 1), 1, 0);
    Extend(s4, DcScans(n, 1, 0), n);
    AcPhase(s5, n, Positions(0, 1, 1), 1, 63, 1, 0);
    Extend(s5, EachComponent(n, 1, 63, 1, 0), n);
  }

  /** One more scan of an AC band, of one component. */
  lemma AcExtend(script: seq<ScanSpec>, ps: seq<Positions>, c: nat, ss: int, se: int, ah: int, al: int)
    requires ContinuesWith([], script, |ps|) && At(script, ps)
    requires c < |ps| && KnownBand(ss, se) && 0 <= ah <= 10 && 0 <= al <= 10 && ps[c].dc >= 0
    requires (ss <= 1 ==> Continues(ps[c].a, ah, al)) && (se >= 63 ==> Continues(ps[c].b, ah, al))
    ensures ContinuesWith([], script + [OneScan(c, ss, se, ah, al)], |ps|)
    ensures At(script + [OneScan(c, ss, se, ah, al)], ps[c := AfterBand(ps[c], ss, se, al)])
  {
    AcScan(script, ps, c, ss, se, ah, al);
    Extend(script, [OneScan(c, ss, se, ah, al)], |ps|);
  }

  lemma Three(a: Positions, b: Positions, c: Positions, q: Positions)
    ensures [a, b, c][0 := q] == [q, b, c] && [a, b, c][1 := q] == [a, q, c] && [a, b, c][2 := q] == [a, b, q]
  {
  }

  lemma YccFirstContinues(s: seq<ScanSpec>, dc: Positions)
    requires ContinuesWith([], s, 3) && dc == Positions(1, -1, -1) && At(s, [dc, dc, dc])
    ensures ContinuesWith([], s + YccFirst(), 3)
    ensures At(s + YccFirst(), [Positions(1, 1, 1), Positions(1, 1, 1), Positions(1, 1, 1)])
  {
    var s1 := s + [OneScan(0, 1, 5, 0, 2)];
    var s2 := s1 + [OneScan(2, 1, 63, 0, 1)];
    var s3 := s2 + [OneScan(1, 1, 63, 0, 1)];
    var s4 := s3 + [OneScan(0, 6, 63, 0, 2)];
    var chroma := Positions(1, 1, 1);
    Three(dc, dc, dc, Positions(1, 2, -1));
    AcExtend(s, [dc, dc, dc], 0, 1, 5, 0, 2);
    Three(Positions(1, 2, -1), dc, dc, chroma);
    AcExtend(s1, [Positions(1, 2, -1), dc, dc], 2, 1, 63, 0, 1);
    Three(Positions(1, 2, -1), dc, chroma, chroma);
    AcExtend(s2, [Positions(1, 2, -1), dc, chroma], 1, 1, 63, 0, 1);
    Three(Positions(1, 2, -1), chroma, chroma, Positions(1, 2, 2));
    AcExtend(s3, [Positions(1, 2, -1), chroma, chroma], 0, 6, 63, 0, 2);
    Three(Positions(1, 2, 2), chroma, chroma, chroma);
    AcExtend(s4, [Positions(1, 2, 2), chroma, chroma], 0, 1, 63, 2, 1);
    assert s + YccFirst() == s4 + [OneScan(0, 1, 63, 2, 1)];
  }

  lemma YccLastContinues(s: seq<ScanSpec>, p: Positions)
    requires ContinuesWith([], s, 3) && p == Positions(0, 1, 1) && At(s, [p, p, p])
    ensures ContinuesWith([], s + YccLast(), 3)
    ensures At(s + YccLast(), [Positions(0, 0, 0), Positions(0, 0, 0), Positions(0, 0, 0)])
  {
    var s1 := s + [OneScan(2, 1, 63, 1, 0)];
    var s2 := s1 + [OneScan(1, 1, 63, 1, 0)];
    var q := Positions(0, 0, 0);
    Three(p, p, p, q);
    AcExtend(s, [p, p, p], 2, 1, 63, 1, 0);
    Three(p, p, q, q);
    AcExtend(s1, [p, p, q], 1, 1, 63, 1, 0);
    Three(p, q, q, q);
    AcExtend(s2, [p, q, q], 0, 1, 63, 1, 0);
    assert s + YccLast() == s2 + [OneScan(0, 1, 63, 1, 0)];
  }

  lemma YccContinues(n: nat)
    requires n == 3
    ensures ContinuesWith([], SimpleScript(n, true), n)
    ensures At(SimpleScript(n, true), Alike(n, Positions(0, 0, 0)))
  {
    var s1 := DcScans(n, 0, 1);
    var s2 := s1 + YccFirst();
    var s3 := s2 + DcScans(n, 1, 0);
    var dc, p, q := Positions(1, -1, -1), Positions(1, 1, 1), Positions(0, 1, 1);
    NothingSent(n);
    DcPhase([], n, Alike(n, NONE), [dc, dc, dc], NONE, 0, 1);
    assert [] + s1 == s1;
    YccFirstContinues(s1, dc);
    DcPhase(s2, n, [p, p, p], [q, q, q], p, 1, 0);
    Extend(s2, DcScans(n, 1, 0), n);
    YccLastContinues(s3, q);
    assert Alike(n, Positions(0, 0, 0)) == [Positions(0, 0, 0), Positions(0, 0, 0), Positions(0, 0, 0)];
  }

  /** Main result: for every number of components the script is accepted by validate_script, as a
      progressive one, and it sends every coefficient of every component down to its last bit. */
  lemma SimpleScriptAccepted(n: nat, ycc: bool, precision: int)
    requires n >= 1 && (ycc ==> n == 3)
    ensures IsProgressive(SimpleScript(n, ycc)) && Valid(SimpleScript(n, ycc), n, precision)
    ensures forall c, i :: 0 <= c < n && 0 <= i <= 63 ==> LastAl(SimpleScript(n, ycc), c, i) == 0
  {
    var script := SimpleScript(n, ycc);
    ScriptContinues(n, ycc);
    EachScanGood(script, n, precision);
    AllSent(script, n);
    assert script[0] == DcScans(n, 0, 1)[0];
  }

  lemma ScriptContinues(n: nat, ycc: bool)
    requires n >= 1 && (ycc ==> n == 3)
    ensures ContinuesWith([], SimpleScript(n, ycc), n) && At(SimpleScript(n, ycc), Alike(n, Positions(0, 0, 0)))
  {
    if ycc {
      YccContinues(n);
    } else {
      AllPurposeContinues(n);
    }
  }

  lemma EachScanGood(script: seq<ScanSpec>, n: nat, precision: int)
    requires ContinuesWith([], script, n)
    ensures forall k :: 0 <= k < |script| ==> GoodProgressive(script[..k], script[k], n, MaxAl(precision))
  {
    forall k | 0 <= k < |script|
      ensures GoodProgressive(script[..k], script[k], n, MaxAl(precision))
    {
      assert [] + script[..k] == script[..k];
      assert GoodProgressive(script[..k], script[k], n, MaxAl(8));
    }
  }

  lemma AllSent(script: seq<ScanSpec>, n: nat)
    requires At(script, Alike(n, Positions(0, 0, 0)))
    ensures forall c, i :: 0 <= c < n && 0 <= i <= 63 ==> LastAl(script, c, i) == 0
  {
    forall c, i | 0 <= c < n && 0 <= i <= 63
      ensures LastAl(script, c, i) == 0
    {
      assert AtFor(script, Alike(n, Positions(0, 0, 0))[c], c);
    }
  }

  /** Decoding all scans of the script, whatever the order in which a block stores its coefficients and
      however small the blocks are, gives back every coefficient of every component. */
  lemma SimpleScriptIsLossless(n: nat, ycc: bool, precision: int, scans: seq<Scan>, order: seq<Index>,
                               blockSize: nat, c: nat, z: ZBlock)
    requires n >= 1 && (ycc ==> n == 3) && c < n && LimSe(blockSize) < |order|
    requires CodesAll(scans, Used(SimpleScript(n, ycc), blockSize), true, order, LimSe(blockSize))
    ensures var after := AfterScans(scans, Used(SimpleScript(n, ycc), blockSize), c, z, seq(64, _ => 0));
            forall i: Index :: i <= LimSe(blockSize) ==> after[order[i]] == z[i]
  {
    SimpleScriptAccepted(n, ycc, precision);
    var script := SimpleScript(n, ycc);
    ScriptDelivers(scans, script, order, blockSize, n, precision, c, z);
    Lossless(order, LimSe(blockSize), z, script, c, AfterScans(scans, Used(script, blockSize), c, z, seq(64, _ => 0)));
  }
}
