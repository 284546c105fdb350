/** Carries and zero bytes: what holds of the encoder's registers and of its output throughout
    every run (the carry propagation and the "Pacman" termination of jcarith.c). */
module ArithCarry {
  import opened ArithTable
  import opened ArithCoding
  import opened ArithModel
  import opened ArithRoundTrip
  import opened Segments

  /** The next shift of the renormalisation leaves C in 28 bits, and the byte it may take off C carries
      at most once into the held byte, which is not 0xFF; as long as no byte is held it does not carry. */
  predicate ShiftContained(e: Enc) {
    && e.c < 0x10000000 && 2 * e.c < 0x10000000 && -1 <= e.buffer <= 0xFE
    && (e.ct == 1 ==> 2 * e.c / 0x80000 <= if e.buffer < 0 then 0xFF else 0x1FF)
  }

  /** So does every shift of a renormalisation. */
  predicate ShiftsContained(e: Enc)
    requires EncOk(e)
    decreases 0x10000 - e.a
  {
    e.a >= 0x8000 || (ShiftKeepsOk(e); ShiftContained(e) && ShiftsContained(ShiftOnce(e)))
  }

  lemma ShiftIsContained(e: Enc)
    requires EncOk(e)
    ensures ShiftContained(e)
  {
    assert Shl(e.c + e.a, e.ct) == Shl(2 * (e.c + e.a), e.ct - 1);
    ShlAtLeast(2 * (e.c + e.a), e.ct - 1);
  }

  lemma {:induction false} ShiftsAreContained(e: Enc)
    requires EncOk(e)
    ensures ShiftsContained(e)
    decreases 0x10000 - e.a
  {
    if e.a < 0x8000 {
      ShiftIsContained(e);
      ShiftKeepsOk(e);
      ShiftsAreContained(ShiftOnce(e));
    }
  }

  /** After any decisions, in coding any further one: C fits its 28 bits at every shift, the held byte is
      never 0xFF, so that a carry into it stays there, and there is no carry out of the first byte; nor is
      there when the segment is finished instead. */
  lemma CarryIsContained(st: Stats, ds: seq<Decision>, next: Decision)
    ensures var (e, st1) := SegmentRun(st, ds);
            var narrowed := Narrow(e, RowFor(st1, next.bin), Stat(st1, next.bin), next.bit).0;
            && ShiftContained(e) && EncOk(narrowed) && ShiftsContained(narrowed)
            && EncStep(e, st1, next).0 == Renorm(narrowed)
    ensures var e := SegmentRun(st, ds).0;
            && Shl(FinalC(e), e.ct) < 0x10000000
            && (e.buffer < 0 ==> e.data == [] && Shl(FinalC(e), e.ct) < 0x8000000)
  {
    var (e, st1) := SegmentRun(st, ds);
    var row, sv := RowFor(st1, next.bin), Stat(st1, next.bin);
    ShiftIsContained(e);
    NarrowKeepsOk(e, row, sv, next.bit);
    ShiftsAreContained(Narrow(e, row, sv, next.bit).0);
    FinalIsContained(e);
  }

  lemma FinalIsContained(e: ReadyEnc)
    ensures Shl(FinalC(e), e.ct) < 0x10000000
    ensures e.buffer < 0 ==> e.data == [] && Shl(FinalC(e), e.ct) < 0x8000000
  {
    FinalOffset(e);
    ShlMonotone(FinalC(e), e.c + e.a, e.ct);
  }

  lemma {:induction false} ShlAtLeast(x: nat, n: nat)
    ensures x <= Shl(x, n)
    decreases n
  {
    if n != 0 {
      ShlAtLeast(2 * x, n - 1);
    }
  }

  /** The bytes sent do not end in a zero byte. */
  predicate EndsClean(s: seq<Byte>) {
    s == [] || s[|s| - 1] != 0
  }

  lemma ReleaseClean(e: Enc)
    requires -1 <= e.buffer <= 0xFE && EndsClean(e.data)
    ensures EndsClean(ReleaseCarry(e).data) && EndsClean(ReleasePlain(e).data)
  {
  }

  lemma {:induction false} RenormClean(e: Enc)
    requires EncOk(e) && EndsClean(e.data)
    ensures EndsClean(Renorm(e).data)
    decreases 0x10000 - e.a
  {
    if e.a < 0x8000 {
      ShiftKeepsOk(e);
      ReleaseClean(e.(a := 2 * e.a, c := 2 * e.c, ct := e.ct - 1));
      RenormClean(ShiftOnce(e));
    }
  }

  lemma {:induction false} RunClean(e: ReadyEnc, st: Stats, ds: seq<Decision>)
    requires EndsClean(e.data)
    ensures EndsClean(EncRun(e, st, ds).0.data)
    decreases ds
  {
    if ds != [] {
      var row, sv := RowFor(st, ds[0].bin), Stat(st, ds[0].bin);
      NarrowKeepsOk(e, row, sv, ds[0].bit);
      RenormClean(Narrow(e, row, sv, ds[0].bit).0);
      RunClean(EncStep(e, st, ds[0]).0, EncStep(e, st, ds[0]).1, ds[1..]);
    }
  }

  /** A finished segment ends in no zero byte, except for the one that is stuffed behind an FF,
      and every FF in it is followed by a zero byte. */
  lemma SegmentEndsClean(st: Stats, ds: seq<Decision>)
    ensures EndsClean(Finish(SegmentRun(st, ds).0))
    ensures var s := ArithSegment(st, ds).0;
            && (EndsClean(s) || (|s| >= 2 && s[|s| - 2] == 0xFF))
            && forall i :: 0 <= i < |s| && s[i] == 0xFF ==> i + 1 < |s| && s[i + 1] == 0
  {
    StartOk();
    RunClean(EncStart, st, ds);
    var e := SegmentRun(st, ds).0;
    ReleaseClean(e);
    LastBytesClean(ReleaseCarry(e), Shl(FinalC(e), e.ct));
    LastBytesClean(ReleasePlain(e), Shl(FinalC(e), e.ct));
    StuffedEnd(Finish(e));
    forall i | 0 <= i < |Stuff(Finish(e))| && Stuff(Finish(e))[i] == 0xFF
      ensures i + 1 < |Stuff(Finish(e))| && Stuff(Finish(e))[i + 1] == 0
    {
      StuffedFF(Finish(e), i);
    }
  }

  lemma LastBytesClean(e: Enc, c: nat)
    requires EndsClean(e.data)
    ensures EndsClean(WithLastBytes(e, c))
  {
    var q, r := c / 0x80000, c % 0x80000;
    LastBits(q / 256, q % 256, r / 0x800, r % 0x800);
  }

  /** Bits 11 to 18 and 19 to 26 of a number. */
  lemma LastBits(u: nat, v: nat, w: nat, t: nat)
    requires v < 256 && w < 256 && t < 0x800
    ensures var c := 0x8000000 * u + 0x80000 * v + 0x800 * w + t;
            c / 0x80000 % 256 == v && c % 0x80000 / 0x800 == w && c % 0x8000000 == 0x80000 * v + 0x800 * w + t
            && c / 0x800 % 256 == w
  {
    var c := 0x8000000 * u + 0x80000 * v + 0x800 * w + t;
    assert c / 0x80000 == 256 * u + v && c % 0x80000 == 0x800 * w + t;
    assert c / 0x800 == 256 * (256 * u + v) + w;
  }

  lemma StuffedEnd(s: seq<Byte>)
    requires EndsClean(s)
    ensures var t := Stuff(s); EndsClean(t) || (|t| >= 2 && t[|t| - 2] == 0xFF)
  {
    if s != [] {
      var n := |s| - 1;
      assert s == s[..n] + [s[n]];
      StuffByte(s[..n], s[n]);
    }
  }
}
