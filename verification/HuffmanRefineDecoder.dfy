/** The decoding of refinement scans of AC coefficients (jdhuff.c): new coefficients are put in their
    places, coefficients with history take their correction bits, and a call that is suspended undoes
    what it must. */
module HuffmanRefineDecoder {
  import opened ArithTable
  import opened ArithModel
  import opened ArithBlocks
  import opened PointTransform
  import opened HuffmanCodes
  import opened HuffmanDerived
  import opened HuffmanItems
  import opened HuffmanEobRuns
  import opened HuffmanRefine
  import opened HuffmanDecoder

  /** The correction bit of a coefficient with history. */
  method DecodeCorrection(dec: HuffDecoder, al: nat, block: array<Jcoef>, p: Index,
                          ghost bit: Bit, ghost rest: seq<Bit>, ghost on: bool) returns (ok: bool)
    requires dec.reader.Valid() && block.Length == 64
    requires on ==> dec.reader.Ahead() == [bit] + rest && !dec.reader.insufficientData
    modifies dec.reader`pos, dec.reader`getBuffer, dec.reader`bitsLeft, dec.reader`unreadMarker,
             dec.reader`insufficientData, block
    ensures dec.reader.Valid() && (!ok ==> dec.reader.Starved())
    ensures !ok ==> dec.reader.unreadMarker == old(dec.reader.unreadMarker) == 0 && block[..] == old(block[..])
    ensures dec.reader.unreadMarker == 0 ==> dec.reader.insufficientData == old(dec.reader.insufficientData)
    ensures old(dec.reader.unreadMarker) != 0 ==> dec.reader.unreadMarker == old(dec.reader.unreadMarker)
    ensures ok && on ==> dec.reader.Ahead() == rest && !dec.reader.insufficientData
                         && block[..] == old(block[..])[p := Correct(old(block[p]), al, bit)]
  {
    OneBit(bit, 1);
    assert Pow2(1) == 2;
    var b;
    ok, b := dec.DecodeExtra(1, bit, rest, on);
    if ok && b == 1 && Shr(block[p], al) % 2 == 0 {
      block[p] := ToJcoef(block[p] + if block[p] >= 0 then Pow2(al) else 0 - Pow2(al));
    }
  }

  // ------------------------------------------------------------------ inside a run

  /** The coefficients before k are done; those of them that are new are at the places news. */
  ghost predicate ReachedNow(x: RefineTask, k: nat, content: seq<Jcoef>, news: seq<Index>, n: nat) {
    n == 64 && Base(x, k, content) && NewPlaces(x, k, news)
  }

  ghost predicate Reached(x: RefineTask, k: nat, content: seq<Jcoef>, news: seq<Index>) {
    forall n {:trigger ReachedNow(x, k, content, news, n)} :: n == 64 ==> ReachedNow(x, k, content, news, n)
  }

  /** The run is to stop at j, with bits1 behind it. */
  datatype RunEnd = RunEnd(j: nat, bits1: seq<Bit>, news: seq<Index>)

  ghost predicate AdvancesNow(x: RefineTask, k: nat, r: nat, bits: seq<Bit>, content: seq<Jcoef>, e: RunEnd, n: nat) {
    && n == 64 && RunningTo(x, k, r, bits, content, e.bits1) && Stop(x.z, x.al, k, x.se, r) == e.j <= x.se
    && Reached(x, k, content, e.news)
  }

  ghost predicate Advances(x: RefineTask, k: nat, r: nat, bits: seq<Bit>, content: seq<Jcoef>, e: RunEnd) {
    forall n {:trigger AdvancesNow(x, k, r, bits, content, e, n)} :: n == 64 ==> AdvancesNow(x, k, r, bits, content, e, n)
  }

  /** What comes next in a run: a correction bit, or a coefficient without history. */
  lemma AdvanceFacts(x: RefineTask, k: nat, r: nat, bits: seq<Bit>, content: seq<Jcoef>, e: RunEnd)
    returns (bit: Bit, more: seq<Bit>)
    requires Advances(x, k, r, bits, content, e) && k <= x.se
    ensures |content| == 64 && Reached(x, k, content, e.news) && k <= e.j
    ensures var p := x.sc.order[k];
            if content[p] != 0 then
              bits == [bit] + more && Advances(x, k + 1, r, more, content[p := Correct(content[p], x.al, bit)], e)
            else if r > 0 then Advances(x, k + 1, r - 1, bits, content, e)
            else e.j == k && bits == e.bits1
  {
    assert AdvancesNow(x, k, r, bits, content, e, 64);
    assert RunningNow(x, k, r, bits, content, e.bits1, 64);
    assert ReachedNow(x, k, content, e.news, 64);
    bit, more := 0, [];
    var p := x.sc.order[k];
    if Mag(x.z, x.al, k) > 1 {
      more := RunCorrects(x, k, r, bits, content, e.bits1);
      bit := Mag(x.z, x.al, k) % 2;
      AdvanceMore(x, k, r, more, content[p := Correct(content[p], x.al, bit)], e);
    } else {
      RunPasses(x, k, r, bits, content, e.bits1);
      if r > 0 {
        AdvanceMore(x, k, r - 1, bits, content, e);
      }
    }
  }

  lemma AdvanceMore(x: RefineTask, k: nat, r: nat, bits: seq<Bit>, content: seq<Jcoef>, e: RunEnd)
    requires k <= x.se && NewPlaces(x, k, e.news) && Mag(x.z, x.al, k) != 1
    requires RunningTo(x, k + 1, r, bits, content, e.bits1) && Stop(x.z, x.al, k + 1, x.se, r) == e.j <= x.se
    ensures Advances(x, k + 1, r, bits, content, e)
  {
    assert RunningNow(x, k + 1, r, bits, content, e.bits1, 64);
    assert NewPlaces(x, k + 1, e.news);
    assert ReachedNow(x, k + 1, content, e.news, 64);
    assert AdvancesNow(x, k + 1, r, bits, content, e, 64);
  }

  lemma AdvanceInside(x: RefineTask, k: nat, r: nat, bits: seq<Bit>, content: seq<Jcoef>, e: RunEnd)
    requires Advances(x, k, r, bits, content, e)
    ensures k <= x.se
  {
    assert AdvancesNow(x, k, r, bits, content, e, 64);
  }

  /** Advance over coefficients with history and r zeros, up to the next coefficient without history. */
  method Advance(dec: HuffDecoder, scan: Scan, block: array<Jcoef>, k0: nat, r0: nat,
                 ghost x: RefineTask, ghost e: RunEnd, ghost on: bool)
    returns (ok: bool, k: nat)
    requires dec.reader.Valid() && block.Length == 64 && scan.Routine().AcRefine? && k0 <= scan.se
    requires on ==> x.sc == scan && x.al == scan.al && x.se == scan.se && !dec.reader.insufficientData
                    && Advances(x, k0, r0, dec.reader.Ahead(), block[..], e)
    modifies dec.reader`pos, dec.reader`getBuffer, dec.reader`bitsLeft, dec.reader`unreadMarker,
             dec.reader`insufficientData, block
    ensures dec.reader.Valid() && (!ok ==> dec.reader.Starved())
    ensures !ok ==> dec.reader.unreadMarker == old(dec.reader.unreadMarker) == 0
    ensures dec.reader.unreadMarker == 0 ==> dec.reader.insufficientData == old(dec.reader.insufficientData)
    ensures old(dec.reader.unreadMarker) != 0 ==> dec.reader.unreadMarker == old(dec.reader.unreadMarker)
    ensures k0 <= k <= scan.se + 1
    ensures on ==> k <= scan.se && Reached(x, k, block[..], e.news)
    ensures ok && on ==> k == e.j && dec.reader.Ahead() == e.bits1 && !dec.reader.insufficientData
  {
    ok, k := true, k0;
    var r := r0;
    while k <= scan.se
      invariant k0 <= k <= scan.se + 1
      invariant dec.reader.Valid()
      invariant dec.reader.unreadMarker == 0 ==> dec.reader.insufficientData == old(dec.reader.insufficientData)
      invariant old(dec.reader.unreadMarker) != 0 ==> dec.reader.unreadMarker == old(dec.reader.unreadMarker)
      invariant on ==> Advances(x, k, r, dec.reader.Ahead(), block[..], e) && !dec.reader.insufficientData
    {
      ghost var more: seq<Bit>, bit: Bit := [], 0;
      if on {
        bit, more := AdvanceFacts(x, k, r, dec.reader.Ahead(), block[..], e);
      }
      if block[scan.order[k]] != 0 {
        ok := DecodeCorrection(dec, scan.al, block, scan.order[k], bit, more, on);
        if !ok {
          return;
        }
      } else {
        if r == 0 {
          return;
        }
        r := r - 1;
      }
      k := k + 1;
    }
    if on {
      AdvanceInside(x, k, r, dec.reader.Ahead(), block[..], e);
    }
  }

  // ------------------------------------------------------------------ symbols

  /** The symbol that comes next, the bits behind it, and where its run is to stop; `sign` is the sign
      bit if it stands for a new coefficient. */
  datatype Turn = Turn(s: Byte, sign: Bit, run: seq<Bit>, e: RunEnd)

  /** The bits of a turn behind its symbol. */
  function TurnBits(u: Turn): seq<Bit> {
    if u.s % 16 != 0 then [u.sign] + u.run else u.run
  }

  /** The turn u is that of an event. */
  ghost predicate EventTurnNow(x: RefineTask, k: nat, content: seq<Jcoef>, u: Turn, n: nat) {
    && n == 64 && Advances(x, k, u.s / 16, u.run, content, u.e) && Resumes(x, u.e.j, u.e.bits1) && u.e.j <= x.se
    && (u.s % 16 != 0 <==> Mag(x.z, x.al, u.e.j) == 1) && Mag(x.z, x.al, u.e.j) <= 1
    && u.sign == if Trunc(x.z[u.e.j], x.al) < 0 then 0 else 1
  }

  ghost predicate EventTurn(x: RefineTask, k: nat, content: seq<Jcoef>, u: Turn) {
    forall n {:trigger EventTurnNow(x, k, content, u, n)} :: n == 64 ==> EventTurnNow(x, k, content, u, n)
  }

  /** An end of band, with n further bands and the bits `more` behind its correction bits. */
  datatype RunStart = RunStart(n: nat, more: seq<Bit>)

  ghost predicate EobTurn(x: RefineTask, k: nat, content: seq<Jcoef>, q: RunStart, u: Turn) {
    && x.hasEob && q.n < 0x7FFF && Log2(q.n + 1) <= 14 && u.s == Log2(q.n + 1) * 16
    && u.run == BitsOf(q.n + 1, Log2(q.n + 1)) + (x.tail + q.more)
    && TailingTo(x, k, x.tail + q.more, content, q.more)
  }

  ghost predicate EndsWithNow(x: RefineTask, q: RunStart, n: nat) {
    n == 64 && if x.hasEob then RunSent(x.t, x.tbl, x.tail, q.n, x.rest, q.more) else q.n == 0 && x.rest == q.more
  }

  /** The run that begins in the band is q, if one does. */
  ghost predicate EndsWith(x: RefineTask, q: RunStart) {
    forall n {:trigger EndsWithNow(x, q, n)} :: n == 64 ==> EndsWithNow(x, q, n)
  }

  /** The band is done up to k, and the run that begins in it, if one does, is q. */
  ghost predicate OngoingNow(x: RefineTask, k: nat, bits: seq<Bit>, content: seq<Jcoef>, news: seq<Index>, q: RunStart, n: nat) {
    n == 64 && RefinedTo(x, k, bits, content) && Reached(x, k, content, news) && EndsWith(x, q)
  }

  ghost predicate Ongoing(x: RefineTask, k: nat, bits: seq<Bit>, content: seq<Jcoef>, news: seq<Index>, q: RunStart) {
    forall n {:trigger OngoingNow(x, k, bits, content, news, q, n)} :: n == 64 ==>
      OngoingNow(x, k, bits, content, news, q, n)
  }

  lemma NextTurn(x: RefineTask, k: nat, bits: seq<Bit>, content: seq<Jcoef>, news: seq<Index>, q: RunStart) returns (u: Turn)
    requires Ongoing(x, k, bits, content, news, q) && k <= x.se
    ensures u.e.news == news && Reached(x, k, content, news)
    ensures x.Table().ehufsi[u.s] != 0 && bits == CodeBits(x.Table(), u.s) + TurnBits(u)
    ensures if u.s % 16 == 0 && u.s != 0xF0 then EobTurn(x, k, content, q, u) else EventTurn(x, k, content, u)
  {
    assert OngoingNow(x, k, bits, content, news, q, 64) && EndsWithNow(x, q, 64);
    if k <= x.Eob() {
      var s, m, run, bits1 := NextRefine(x, k, bits, content);
      var j := Stop(x.z, x.al, k, x.se, m);
      u := Turn(s, if Trunc(x.z[j], x.al) < 0 then 0 else 1, run, RunEnd(j, bits1, news));
      assert AdvancesNow(x, k, m, run, content, u.e, 64);
      assert EventTurnNow(x, k, content, u, 64);
    } else {
      RefineEob(x, k, bits, content, q.more);
      u := Turn(Log2(q.n + 1) * 16, 0, BitsOf(q.n + 1, Log2(q.n + 1)) + (x.tail + q.more), RunEnd(0, [], news));
    }
  }

  lemma EventTurnFacts(x: RefineTask, k: nat, content: seq<Jcoef>, u: Turn)
    requires EventTurn(x, k, content, u)
    ensures Advances(x, k, u.s / 16, u.run, content, u.e)
  {
    assert EventTurnNow(x, k, content, u, 64);
  }

  /** Where the run has stopped, a new coefficient is stored. */
  lemma EventEnds(x: RefineTask, k0: nat, content0: seq<Jcoef>, u: Turn, bits: seq<Bit>, news: seq<Index>, q: RunStart,
                  k: nat, content: seq<Jcoef>)
    requires EventTurn(x, k0, content0, u) && k == u.e.j && Reached(x, k, content, news) && u.e.bits1 == bits
    requires EndsWith(x, q)
    ensures |content| == 64 && k <= x.se
    ensures var p := x.sc.order[k];
            if u.s % 16 != 0 then
              Ongoing(x, k + 1, bits, content[p := ToJcoef(if u.sign == 1 then Pow2(x.al) else 0 - Pow2(x.al))],
                      news + [p], q)
            else Ongoing(x, k + 1, bits, content, news, q)
  {
    assert EventTurnNow(x, k0, content0, u, 64) && ReachedNow(x, k, content, news, 64);
    RunResumes(x, k, content, bits);
    NoHistory(x.z[k], x.al);
    var p := x.sc.order[k];
    if u.s % 16 != 0 {
      NewPlaceAdded(x, k, news);
      OngoingAgain(x, k + 1, bits, content[p := ToJcoef(if u.sign == 1 then Pow2(x.al) else 0 - Pow2(x.al))], news + [p], q);
    } else {
      assert NewPlaces(x, k + 1, news);
      OngoingAgain(x, k + 1, bits, content, news, q);
    }
  }

  lemma OngoingAgain(x: RefineTask, k: nat, bits: seq<Bit>, content: seq<Jcoef>, news: seq<Index>, q: RunStart)
    requires RefinedTo(x, k, bits, content) && k <= x.se + 1 && NewPlaces(x, k, news)
    requires EndsWith(x, q)
    ensures Ongoing(x, k, bits, content, news, q)
  {
    assert RefinedToNow(x, k, bits, content, 64);
    assert ReachedNow(x, k, content, news, 64);
    assert OngoingNow(x, k, bits, content, news, q, 64);
  }

  lemma NewPlaceAdded(x: RefineTask, k: nat, news: seq<Index>)
    requires x.a <= k <= x.se && NewPlaces(x, k, news) && Mag(x.z, x.al, k) == 1
    ensures NewPlaces(x, k + 1, news + [x.sc.order[k]])
  {
    var p, more := x.sc.order[k], news + [x.sc.order[k]];
    forall i | x.a <= i < k + 1 && Mag(x.z, x.al, i) == 1
      ensures x.sc.order[i] in more
    {
      assert i < k ==> x.sc.order[i] in news;
    }
    forall p1 | p1 in more
      ensures exists i :: x.a <= i < k + 1 && Mag(x.z, x.al, i) == 1 && x.sc.order[i] == p1
    {
      if p1 in news {
        var i :| x.a <= i < k && Mag(x.z, x.al, i) == 1 && x.sc.order[i] == p1;
      } else {
        assert x.a <= k < k + 1 && Mag(x.z, x.al, k) == 1 && x.sc.order[k] == p1;
      }
    }
  }

  /** A new coefficient or 16 zeros; `news` are the places of new coefficients. */
  method RefineEvent(dec: HuffDecoder, scan: Scan, block: array<Jcoef>, k0: nat, sym: Byte, news0: seq<Index>,
                     ghost x: RefineTask, ghost q: RunStart, ghost u: Turn, ghost on: bool)
    returns (ok: bool, k: nat, news: seq<Index>)
    requires dec.reader.Valid() && block.Length == 64 && scan.Routine().AcRefine? && k0 <= scan.se
    requires on ==> x.sc == scan && x.al == scan.al && x.se == scan.se && u.s == sym && u.e.news == news0
                    && EventTurn(x, k0, block[..], u) && Reached(x, k0, block[..], news0)
                    && dec.reader.Ahead() == TurnBits(u) && !dec.reader.insufficientData
    requires on ==> EndsWith(x, q)
    modifies dec.reader`pos, dec.reader`getBuffer, dec.reader`bitsLeft, dec.reader`unreadMarker,
             dec.reader`insufficientData, block
    ensures dec.reader.Valid() && (!ok ==> dec.reader.Starved())
    ensures !ok ==> dec.reader.unreadMarker == old(dec.reader.unreadMarker) == 0
    ensures dec.reader.unreadMarker == 0 ==> dec.reader.insufficientData == old(dec.reader.insufficientData)
    ensures old(dec.reader.unreadMarker) != 0 ==> dec.reader.unreadMarker == old(dec.reader.unreadMarker)
    ensures k0 <= k <= scan.se + 2 && (ok ==> k0 < k)
    ensures !ok && on ==> k <= scan.se + 1 && Reached(x, k, block[..], news)
    ensures ok && on ==> !dec.reader.insufficientData && k <= scan.se + 1
                         && Ongoing(x, k, dec.reader.Ahead(), block[..], news, q)
  {
    ok, k, news := true, k0, news0;
    var value: Jcoef := 0;
    if on {
      EventTurnFacts(x, k0, block[..], u);
    }
    ghost var content0 := block[..];
    if sym % 16 != 0 {
      ok, value := DecodeSign(dec, scan.al, u.sign, u.run, on);
      if !ok {
        return;
      }
    }
    ok, k := Advance(dec, scan, block, k0, sym / 16, x, u.e, on);
    if !ok {
      return;
    }
    if on {
      EventEnds(x, k0, content0, u, dec.reader.Ahead(), news, q, k, block[..]);
    }
    if sym % 16 != 0 {
      block[dec.Nat(scan, k)] := value;
      news := news + [dec.Nat(scan, k)];
    }
    k := k + 1;
  }

  /** The sign of a new coefficient. */
  method DecodeSign(dec: HuffDecoder, al: nat, ghost sign: Bit, ghost rest: seq<Bit>, ghost on: bool)
    returns (ok: bool, value: Jcoef)
    requires dec.reader.Valid()
    requires on ==> dec.reader.Ahead() == [sign] + rest && !dec.reader.insufficientData
    modifies dec.reader`pos, dec.reader`getBuffer, dec.reader`bitsLeft, dec.reader`unreadMarker,
             dec.reader`insufficientData
    ensures dec.reader.Valid() && (!ok ==> dec.reader.Starved())
    ensures !ok ==> dec.reader.unreadMarker == old(dec.reader.unreadMarker) == 0
    ensures dec.reader.unreadMarker == 0 ==> dec.reader.insufficientData == old(dec.reader.insufficientData)
    ensures old(dec.reader.unreadMarker) != 0 ==> dec.reader.unreadMarker == old(dec.reader.unreadMarker)
    ensures ok && on ==> dec.reader.Ahead() == rest && !dec.reader.insufficientData
                         && value == ToJcoef(if sign == 1 then Pow2(al) else 0 - Pow2(al))
  {
    OneBit(sign, 1);
    assert Pow2(1) == 2;
    var b;
    ok, b := dec.DecodeExtra(1, sign, rest, on);
    value := ToJcoef(if b == 1 then Pow2(al) else 0 - Pow2(al));
  }

  /** One symbol of the loop of decode_mcu_AC_refine: an event, or an end of band (`eob`), in which
      case r is the size of its run length. */
  method RefineStep(dec: HuffDecoder, d: DTable, scan: Scan, block: array<Jcoef>, k0: nat, news0: seq<Index>,
                    ghost x: RefineTask, ghost q: RunStart, ghost on: bool)
    returns (ok: bool, eob: bool, r: nat, k: nat, news: seq<Index>)
    requires dec.reader.Valid() && Sound(d) && block.Length == 64 && scan.Routine().AcRefine? && k0 <= scan.se
    requires on ==> Inverts(d, x.Table()) && x.sc == scan && x.al == scan.al && x.se == scan.se
                    && !dec.reader.insufficientData && Ongoing(x, k0, dec.reader.Ahead(), block[..], news0, q)
    modifies dec.reader`pos, dec.reader`getBuffer, dec.reader`bitsLeft, dec.reader`unreadMarker,
             dec.reader`insufficientData, block
    ensures dec.reader.Valid() && (!ok ==> dec.reader.Starved())
    ensures !ok ==> dec.reader.unreadMarker == old(dec.reader.unreadMarker) == 0
    ensures dec.reader.unreadMarker == 0 ==> dec.reader.insufficientData == old(dec.reader.insufficientData)
    ensures old(dec.reader.unreadMarker) != 0 ==> dec.reader.unreadMarker == old(dec.reader.unreadMarker)
    ensures k0 <= k <= scan.se + 2 && (ok ==> if eob then r <= 14 && k == k0 else k0 < k)
    ensures !ok && on ==> k <= scan.se + 1 && Reached(x, k, block[..], news)
    ensures ok && on ==> !dec.reader.insufficientData && k <= scan.se + 1
    ensures ok && on && !eob ==> Ongoing(x, k, dec.reader.Ahead(), block[..], news, q)
    ensures ok && on && eob ==> x.hasEob && q.n < 0x7FFF && r == Log2(q.n + 1) && Reached(x, k, block[..], news)
                                && dec.reader.Ahead() == BitsOf(q.n + 1, r) + (x.tail + q.more)
                                && TailingTo(x, k, x.tail + q.more, block[..], q.more)
  {
    ghost var u := Turn(0, 0, [], RunEnd(0, [], []));
    if on {
      u := NextTurn(x, k0, dec.reader.Ahead(), block[..], news0, q);
      assert OngoingNow(x, k0, dec.reader.Ahead(), block[..], news0, q, 64);
    }
    eob, r, k, news := false, 0, k0, news0;
    var sym;
    ok, sym := dec.DecodeSym(d, x.Table(), u.s, TurnBits(u), on);
    if !ok {
      return;
    }
    r := sym / 16;
    if sym % 16 == 0 && r != 15 {
      eob := true;
      return;
    }
    ok, k, news := RefineEvent(dec, scan, block, k0, sym, news0, x, q, u, on);
  }

  // ------------------------------------------------------------------ whole bands

  /** The loop of decode_mcu_AC_refine, and the run length of an end of band; `run` is 0 if there is
      none. */
  method RefineBand(dec: HuffDecoder, d: DTable, scan: Scan, block: array<Jcoef>,
                    ghost x: RefineTask, ghost q: RunStart, ghost on: bool)
    returns (ok: bool, run: nat, k: nat, news: seq<Index>)
    requires dec.reader.Valid() && Sound(d) && block.Length == 64 && scan.Routine().AcRefine?
    requires on ==> Inverts(d, x.Table()) && x.sc == scan && x.al == scan.al && x.se == scan.se && !dec.reader.insufficientData
                    && Ongoing(x, scan.ss, dec.reader.Ahead(), block[..], [], q)
    modifies dec.reader`pos, dec.reader`getBuffer, dec.reader`bitsLeft, dec.reader`unreadMarker,
             dec.reader`insufficientData, block
    ensures dec.reader.Valid() && (!ok ==> dec.reader.Starved())
    ensures !ok ==> dec.reader.unreadMarker == old(dec.reader.unreadMarker) == 0
    ensures dec.reader.unreadMarker == 0 ==> dec.reader.insufficientData == old(dec.reader.insufficientData)
    ensures old(dec.reader.unreadMarker) != 0 ==> dec.reader.unreadMarker == old(dec.reader.unreadMarker)
    ensures scan.ss <= k && (ok && run != 0 ==> k <= scan.se)
    ensures !ok && on ==> k <= scan.se + 1 && Reached(x, k, block[..], news)
    ensures ok && on ==> !dec.reader.insufficientData
    ensures ok && on && run == 0 ==> dec.reader.Ahead() == q.more && q.n == 0 && !x.hasEob
                                     && block[..] == Placed(scan, x.z, x.al, x.was, x.a, x.se)
    ensures ok && on && run != 0 ==> run == q.n + 1 && x.hasEob && dec.reader.Ahead() == x.tail + q.more
                                     && TailingTo(x, k, dec.reader.Ahead(), block[..], q.more)
                                     && Reached(x, k, block[..], news)
  {
    var eob: bool, r: nat := false, 0;
    ok, run, k, news := true, 0, scan.ss, [];
    while k <= scan.se && !eob
      invariant scan.ss <= k && (eob ==> r <= 14 && k <= scan.se)
      invariant dec.reader.Valid()
      invariant dec.reader.unreadMarker == 0 ==> dec.reader.insufficientData == old(dec.reader.insufficientData)
      invariant old(dec.reader.unreadMarker) != 0 ==> dec.reader.unreadMarker == old(dec.reader.unreadMarker)
      invariant on ==> !dec.reader.insufficientData && k <= scan.se + 1
      invariant on && !eob ==> Ongoing(x, k, dec.reader.Ahead(), block[..], news, q)
      invariant on && eob ==> x.hasEob && q.n < 0x7FFF && r == Log2(q.n + 1) && Reached(x, k, block[..], news)
                              && dec.reader.Ahead() == BitsOf(q.n + 1, r) + (x.tail + q.more)
                              && TailingTo(x, k, x.tail + q.more, block[..], q.more)
      decreases (scan.se as int) + 2 - k, !eob
    {
      ok, eob, r, k, news := RefineStep(dec, d, scan, block, k, news, x, q, on);
      if !ok {
        return;
      }
    }
    if eob {
      ok, run := dec.DecodeRunLength(r, q.n + 1, x.tail + q.more, on);
    } else if on {
      BandDone(x, k, dec.reader.Ahead(), block[..], news, q);
    }
  }

  lemma BandDone(x: RefineTask, k: nat, bits: seq<Bit>, content: seq<Jcoef>, news: seq<Index>, q: RunStart)
    requires Ongoing(x, k, bits, content, news, q) && k > x.se
    ensures !x.hasEob && q.n == 0 && bits == q.more && content == Placed(x.sc, x.z, x.al, x.was, x.a, x.se)
  {
    assert OngoingNow(x, k, bits, content, news, q, 64) && EndsWithNow(x, q, 64);
    RefineEnds(x, k, bits, content);
  }

  /** Behind the end of band: the correction bits of the other coefficients. */
  method RefineTail(dec: HuffDecoder, scan: Scan, block: array<Jcoef>, k0: nat, ghost news: seq<Index>,
                    ghost x: RefineTask, ghost more: seq<Bit>, ghost on: bool)
    returns (ok: bool, ghost k: nat)
    requires dec.reader.Valid() && block.Length == 64 && scan.Routine().AcRefine? && k0 <= scan.se
    requires on ==> x.sc == scan && x.al == scan.al && x.se == scan.se && !dec.reader.insufficientData
                    && TailingTo(x, k0, dec.reader.Ahead(), block[..], more) && Reached(x, k0, block[..], news)
    modifies dec.reader`pos, dec.reader`getBuffer, dec.reader`bitsLeft, dec.reader`unreadMarker,
             dec.reader`insufficientData, block
    ensures dec.reader.Valid() && (!ok ==> dec.reader.Starved())
    ensures !ok ==> dec.reader.unreadMarker == old(dec.reader.unreadMarker) == 0
    ensures dec.reader.unreadMarker == 0 ==> dec.reader.insufficientData == old(dec.reader.insufficientData)
    ensures old(dec.reader.unreadMarker) != 0 ==> dec.reader.unreadMarker == old(dec.reader.unreadMarker)
    ensures !ok && on ==> k <= scan.se + 1 && Reached(x, k, block[..], news)
    ensures ok && on ==> !dec.reader.insufficientData && dec.reader.Ahead() == more
                         && block[..] == Placed(scan, x.z, x.al, x.was, x.a, x.se)
  {
    ok, k := true, k0;
    var i := k0;
    while i <= scan.se
      invariant k0 <= i <= scan.se + 1
      invariant dec.reader.Valid()
      invariant dec.reader.unreadMarker == 0 ==> dec.reader.insufficientData == old(dec.reader.insufficientData)
      invariant old(dec.reader.unreadMarker) != 0 ==> dec.reader.unreadMarker == old(dec.reader.unreadMarker)
      invariant on ==> TailingTo(x, i, dec.reader.Ahead(), block[..], more) && Reached(x, i, block[..], news)
                       && !dec.reader.insufficientData
    {
      ghost var bit: Bit, bits: seq<Bit> := 0, [];
      if on {
        bit, bits := TailFacts(x, i, dec.reader.Ahead(), block[..], news, more);
      }
      k := i;
      if block[scan.order[i]] != 0 {
        ok := DecodeCorrection(dec, scan.al, block, scan.order[i], bit, bits, on);
        if !ok {
          return;
        }
      }
      i := i + 1;
    }
    if on {
      TailEnds(x, i, dec.reader.Ahead(), block[..], more);
    }
  }

  lemma TailFacts(x: RefineTask, i: nat, bits: seq<Bit>, content: seq<Jcoef>, news: seq<Index>, more: seq<Bit>)
    returns (bit: Bit, bits1: seq<Bit>)
    requires TailingTo(x, i, bits, content, more) && i <= x.se && Reached(x, i, content, news)
    ensures |content| == 64
    ensures var p := x.sc.order[i];
            if content[p] != 0 then
              var content1 := content[p := Correct(content[p], x.al, bit)];
              bits == [bit] + bits1 && TailingTo(x, i + 1, bits1, content1, more) && Reached(x, i + 1, content1, news)
            else TailingTo(x, i + 1, bits, content, more) && Reached(x, i + 1, content, news)
  {
    bits1 := TailSteps(x, i, bits, content, more);
    bit := Mag(x.z, x.al, i) % 2;
    var p := x.sc.order[i];
    var content1 := if content[p] != 0 then content[p := Correct(content[p], x.al, bit)] else content;
    assert [] + bits1 == bits1;
    assert TailingNow(x, i, bits, content, more, 64);
    assert TailingNow(x, i + 1, bits1, content1, more, 64);
    assert ReachedNow(x, i, content, news, 64);
    assert NewPlaces(x, i + 1, news);
    assert ReachedNow(x, i + 1, content1, news, 64);
  }

  // ------------------------------------------------------------------ the MCU routine

  /** Re-zero the coefficients that this call has made nonzero. */
  method Undo(block: array<Jcoef>, news: seq<Index>)
    requires block.Length == 64
    modifies block
    ensures forall j: Index :: block[j] == if j in news then 0 else old(block[j])
  {
    var n: nat := |news|;
    while n != 0
      invariant n <= |news|
      invariant forall j: Index :: block[j] == if j in news[n..] then 0 else old(block[j])
    {
      n := n - 1;
      block[news[n]] := 0;
      assert news[n..] == [news[n]] + news[n + 1..];
    }
    assert news[0..] == news;
  }

  /** A band that is being refined, and what the bands from it on stand for. */
  datatype BandGoal = BandGoal(t: Tables, tbl: HuffNo, sc: Scan, z: ZBlock, bs: seq<BandItems>, pad: seq<Bit>)

  /** The next band is that of the block z, which holds the coarser coefficients. */
  ghost predicate ReadyNow(g: BandGoal, run: nat, bits: seq<Bit>, content: seq<Jcoef>, n: nat) {
    && n == 64 && g.sc.Routine().AcRefine? && g.sc.Injective() && Mixed(g.sc, g.z, g.sc.al, content, g.sc.ss, g.sc.se)
    && g.bs != [] && AwaitsBands(g.t, g.tbl, g.bs, run, bits, g.pad)
    && g.bs[0] == RefineItems(g.tbl, g.z, g.sc.al, g.sc.ss, g.sc.se, 0, [], LastNew(g.z, g.sc.al, g.sc.ss, g.sc.se))
  }

  ghost predicate Ready(g: BandGoal, run: nat, bits: seq<Bit>, content: seq<Jcoef>) {
    forall n {:trigger ReadyNow(g, run, bits, content, n)} :: n == 64 ==> ReadyNow(g, run, bits, content, n)
  }

  /** The outcome: the block holds the finer coefficients, and the input stands for the other bands. */
  ghost predicate RefinedNow(g: BandGoal, run0: nat, content0: seq<Jcoef>, run: nat, bits: seq<Bit>, content: seq<Jcoef>, n: nat) {
    && n == 64 && |content0| == 64 && g.sc.Routine().AcRefine? && g.bs != []
    && content == Placed(g.sc, g.z, g.sc.al, content0, g.sc.ss, g.sc.se)
    && run == LeftAfter(g.bs, run0) && AwaitsBands(g.t, g.tbl, g.bs[1..], run, bits, g.pad)
  }

  ghost predicate Refined(g: BandGoal, run0: nat, content0: seq<Jcoef>, run: nat, bits: seq<Bit>, content: seq<Jcoef>) {
    forall n {:trigger RefinedNow(g, run0, content0, run, bits, content, n)} :: n == 64 ==>
      RefinedNow(g, run0, content0, run, bits, content, n)
  }

  /** The call can be made again, with the same outcome. */
  ghost predicate Undone(g: BandGoal, run: nat, bits: seq<Bit>, content0: seq<Jcoef>, content: seq<Jcoef>) {
    && Ready(g, run, bits, content) && |content0| == |content| == 64 && g.sc.Routine().AcRefine?
    && Placed(g.sc, g.z, g.sc.al, content, g.sc.ss, g.sc.se) == Placed(g.sc, g.z, g.sc.al, content0, g.sc.ss, g.sc.se)
  }

  /** The task of the call, and what comes behind the band. */
  ghost predicate Sets(g: BandGoal, run: nat, bits: seq<Bit>, content: seq<Jcoef>, x: RefineTask, q: RunStart) {
    && x.t == g.t && x.tbl == g.tbl && x.sc == g.sc && x.z == g.z && x.al == g.sc.al && x.a == g.sc.ss && x.se == g.sc.se
    && g.bs != [] && x.was == content && Reached(x, x.a, content, [])
    && q.n == LeftAfter(g.bs, run) && AwaitsBands(g.t, g.tbl, g.bs[1..], q.n, q.more, g.pad)
    && if run == 0 then Ongoing(x, x.a, bits, content, [], q) else TailingTo(x, x.a, bits, content, q.more)
  }

  lemma Setting(g: BandGoal, run: nat, bits: seq<Bit>, content: seq<Jcoef>) returns (x: RefineTask, q: RunStart)
    requires Ready(g, run, bits, content)
    ensures g.bs != [] && Sets(g, run, bits, content, x, q)
  {
    assert ReadyNow(g, run, bits, content, 64);
    var tail := g.bs[0].tail;
    if run == 0 {
      var rest, n, more := AtBand(g.t, g.tbl, g.bs, bits, g.pad);
      x := RefineInfo(g.t, g.tbl, g.sc, g.z, g.sc.al, g.sc.ss, g.sc.se, content, rest, tail.Some?,
                      if tail.Some? then tail.value else []);
      q := RunStart(n, more);
      RefineStarts(x);
      StartReached(x);
      assert EndsWithNow(x, q, 64);
      OngoingAgain(x, x.a, bits, content, [], q);
    } else {
      var more := InRun(g.t, g.tbl, g.bs, run, bits, g.pad);
      x := RefineInfo(g.t, g.tbl, g.sc, g.z, g.sc.al, g.sc.ss, g.sc.se, content, [], true, tail.value);
      q := RunStart(run - 1, more);
      RunBand(x, more);
      StartReached(x);
    }
  }

  lemma StartReached(x: RefineTask)
    requires x.sc.Injective() && Mixed(x.sc, x.z, x.al, x.was, x.a, x.se)
    ensures Reached(x, x.a, x.was, [])
  {
    assert ReachedNow(x, x.a, x.was, [], 64);
  }

  lemma Undoing(g: BandGoal, run: nat, bits: seq<Bit>, content0: seq<Jcoef>, x: RefineTask, q: RunStart,
                k: nat, content: seq<Jcoef>, news: seq<Index>, undone: seq<Jcoef>)
    requires Ready(g, run, bits, content0) && g.bs != [] && Sets(g, run, bits, content0, x, q)
    requires k <= x.se + 1 && Reached(x, k, content, news) && |content| == |undone| == 64
    requires forall j: Index :: undone[j] == if j in news then 0 else content[j]
    ensures Undone(g, run, bits, content0, undone)
  {
    assert ReachedNow(x, k, content, news, 64);
    assert ReadyNow(g, run, bits, content0, 64);
    UndoneIsMixed(x, k, content, news, undone);
    assert ReadyNow(g, run, bits, undone, 64);
  }

  /** The two parts of decode_mcu_AC_refine between the loading and the saving of the state. */
  method RefineParts(dec: HuffDecoder, d: DTable, scan: Scan, block: array<Jcoef>, run0: nat,
                     ghost g: BandGoal, ghost x: RefineTask, ghost q: RunStart, ghost on: bool)
    returns (ok: bool, run: nat, ghost k: nat, news: seq<Index>)
    requires dec.reader.Valid() && Sound(d) && block.Length == 64 && scan.Routine().AcRefine?
    requires on ==> Inverts(d, g.t.ac[g.tbl]) && g.sc == scan && !dec.reader.insufficientData && g.bs != []
                    && Sets(g, run0, dec.reader.Ahead(), block[..], x, q)
    modifies dec.reader`pos, dec.reader`getBuffer, dec.reader`bitsLeft, dec.reader`unreadMarker,
             dec.reader`insufficientData, block
    ensures dec.reader.Valid() && (!ok ==> dec.reader.Starved())
    ensures !ok ==> dec.reader.unreadMarker == old(dec.reader.unreadMarker) == 0
    ensures dec.reader.unreadMarker == 0 ==> dec.reader.insufficientData == old(dec.reader.insufficientData)
    ensures old(dec.reader.unreadMarker) != 0 ==> dec.reader.unreadMarker == old(dec.reader.unreadMarker)
    ensures !ok && on ==> k <= scan.se + 1 && Reached(x, k, block[..], news)
    ensures ok && on ==> !dec.reader.insufficientData && dec.reader.Ahead() == q.more && run == q.n
                         && block[..] == Placed(scan, g.z, scan.al, x.was, scan.ss, scan.se)
  {
    var k1: nat := scan.ss;
    ok, run, k, news := true, run0, k1, [];
    if run == 0 {
      ok, run, k1, news := RefineBand(dec, d, scan, block, x, q, on);
      k := k1;
      if !ok {
        return;
      }
    }
    if run != 0 {
      ok, k := RefineTail(dec, scan, block, k1, news, x, q.more, on);
      run := run - 1;
    }
  }

  /** decode_mcu_AC_refine.  If the block holds the coefficients as they were before the scan, and the
      input what the encoder sent, the block is refined; or the call is suspended: then it can be made
      again as soon as more bytes have arrived, with the same outcome.  It is suspended only where too
      few bits are at hand. */
  method DecodeAcRefine(dec: HuffDecoder, d: DTable, scan: Scan, block: array<Jcoef>, ghost g: BandGoal, ghost on: bool)
    returns (ok: bool)
    requires dec.Valid() && Sound(d) && block.Length == 64 && scan.Routine().AcRefine?
    requires on ==> Inverts(d, g.t.ac[g.tbl]) && g.sc == scan && !dec.reader.insufficientData
                    && Ready(g, dec.eobrun, dec.Ahead(), block[..])
    modifies dec.reader`pos, dec.reader`getBuffer, dec.reader`bitsLeft, dec.reader`unreadMarker,
             dec.reader`insufficientData, dec`saved, dec`eobrun, block
    ensures dec.Valid() && (!ok ==> dec.reader.Starved())
    ensures !ok ==> dec.saved == old(dec.saved) && dec.eobrun == old(dec.eobrun) && dec.Ahead() == old(dec.Ahead())
                    && dec.reader.insufficientData == old(dec.reader.insufficientData)
    ensures old(dec.reader.insufficientData) ==>
              ok && block[..] == old(block[..]) && dec.saved == old(dec.saved) && dec.eobrun == old(dec.eobrun)
    ensures on && !ok ==> Undone(g, dec.eobrun, dec.Ahead(), old(block[..]), block[..])
    ensures on && ok ==> Refined(g, old(dec.eobrun), old(block[..]), dec.eobrun, dec.Ahead(), block[..])
                         && !dec.reader.insufficientData
  {
    ok := true;
    if dec.reader.insufficientData {
      return;
    }
    ghost var x, q := AnyRefinement(), RunStart(0, []);
    ghost var bits, content0 := dec.Ahead(), block[..];
    if on {
      x, q := Setting(g, dec.eobrun, bits, content0);
    }
    dec.Load();
    var run, news;
    ghost var k;
    ok, run, k, news := RefineParts(dec, d, scan, block, dec.eobrun, g, x, q, on);
    if !ok {
      ghost var content := block[..];
      Undo(block, news);
      if on {
        Undoing(g, dec.eobrun, bits, content0, x, q, k, content, news, block[..]);
      }
      return;
    }
    dec.Save();
    dec.eobrun := run;
    assert on ==> ReadyNow(g, old(dec.eobrun), bits, content0, 64);
    assert on ==> RefinedNow(g, old(dec.eobrun), content0, run, dec.Ahead(), block[..], 64);
  }
}
