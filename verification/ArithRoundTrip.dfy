/** The decoder recovers every decision of the encoder.  The argument follows one real number,
    the offset of the final code string inside the current coding interval: it is known
    backwards from the end of the run, the bytes sent never lose it, and the decoder holds
    its leading bits in its C register. */
module ArithRoundTrip {
  import opened ArithTable
  import opened Fractions
  import opened ArithCoding

  const TOP := 134217728.0

  // ------------------------------------------------------------------ bytes sent

  /** The code string that puts z into the interval of e. */
  ghost function Value(e: Enc, z: real): real
    requires e.buffer < 256
  {
    Frac(Pending(e), Scale(e.c as real + z, e.ct) / TOP)
  }

  lemma PlainPending(e: Enc)
    requires e.buffer <= 0xFE && (e.buffer < 0 ==> e.zc == 0)
    ensures Pending(e) == ReleasePlain(e).data + Repeat(ReleasePlain(e).zc, 0)
    ensures ReleasePlain(e).sc == 0
  {
    if e.buffer == 0 {
      assert Repeat(e.zc + 1, 0) == Repeat(e.zc, 0) + [0];
    }
  }

  lemma CarryValue(e: Enc, tail: real)
    requires 0 <= e.buffer <= 0xFE
    ensures Frac(Pending(e), tail) == Frac(ReleaseCarry(e).data + Repeat(ReleaseCarry(e).zc, 0), tail - 1.0)
  {
    var p := e.data + Repeat(e.zc, 0);
    var e1 := ReleaseCarry(e);
    assert Pending(e) == p + [e.buffer] + Repeat(e.sc, 0xFF);
    assert e1.data + Repeat(e1.zc, 0) == p + [e.buffer + 1] + Repeat(e.sc, 0);
    FracConcat(p + [e.buffer], Repeat(e.sc, 0xFF), tail);
    FracConcat(p + [e.buffer + 1], Repeat(e.sc, 0), tail - 1.0);
    CarryRipples(e.sc, tail);
    FracAppend(p, e.buffer, Frac(Repeat(e.sc, 0xFF), tail));
    FracAppend(p, e.buffer + 1, Frac(Repeat(e.sc, 0), tail - 1.0));
  }

  lemma ByteOutValue(e: Enc, z: real)
    requires e.ct == 0 && -1 <= e.buffer <= 0xFE && e.c < 0x9000000
    requires e.buffer < 0 ==> e.data == [] && e.zc == 0 && e.c < 0x8000000
    ensures ByteOut(e).buffer <= 0xFE
    ensures Value(ByteOut(e), z) == Frac(Pending(e), (e.c as real + z) / TOP)
  {
    var temp, low := e.c / 0x80000, e.c % 0x80000;
    var e1 := ByteOut(e);
    var tail := (low as real + z) / 524288.0;
    ScaleByByte(low as real + z);
    assert e.c == temp * 0x80000 + low;
    assert Scale(e1.c as real + z, e1.ct) / TOP == tail;
    assert (e.c as real + z) / TOP == (temp as real + tail) / 256.0;
    if temp > 0xFF {
      CarryValue(e, (temp as real + tail) / 256.0);
      var e2 := ReleaseCarry(e);
      assert temp % 256 == temp - 256;
      assert Pending(e1) == e2.data + Repeat(e2.zc, 0) + [temp - 256];
      FracAppend(e2.data + Repeat(e2.zc, 0), temp - 256, tail);
    } else if temp == 0xFF {
      var p := e.data + Repeat(e.zc, 0) + (if e.buffer >= 0 then [e.buffer] else []);
      assert Repeat(e.sc + 1, 0xFF) == Repeat(e.sc, 0xFF) + [0xFF];
      assert Pending(e1) == p + (Repeat(e.sc, 0xFF) + [0xFF]) == p + Repeat(e.sc, 0xFF) + [0xFF];
      FracAppend(Pending(e), 0xFF, tail);
    } else {
      PlainPending(e);
      var e2 := ReleasePlain(e);
      assert Pending(e1) == e2.data + Repeat(e2.zc, 0) + [temp];
      FracAppend(Pending(e), temp, tail);
    }
  }

  lemma ShiftValue(e: Enc, z: real)
    requires EncOk(e) && e.a < 0x8000
    ensures EncOk(ShiftOnce(e))
    ensures Value(ShiftOnce(e), 2.0 * z) == Value(e, z)
  {
    ShiftKeepsOk(e);
    assert 2.0 * (e.c as real + z) == (2 * e.c) as real + 2.0 * z;
    if e.ct == 1 {
      var e1 := e.(a := 2 * e.a, c := 2 * e.c, ct := 0);
      assert Shl(e.c + e.a, 1) == Shl(2 * (e.c + e.a), 0);
      ByteOutValue(e1, 2.0 * z);
      assert Scale(e.c as real + z, 1) == Scale(2.0 * (e.c as real + z), 0);
      assert Pending(e1) == Pending(e);
    } else {
      assert Pending(ShiftOnce(e)) == Pending(e);
    }
  }

  /** The offset before renormalising an interval of width a, given the one after. */
  ghost function BeforeRenorm(a: nat, z: real): real
    requires a >= 1
    decreases 0x8000 - a
  {
    if a >= 0x8000 then z else BeforeRenorm(2 * a, z) / 2.0
  }

  lemma {:induction false} RenormValue(e: Enc, z: real)
    requires EncOk(e) && 0.0 <= z < Renorm(e).a as real
    ensures 0.0 <= BeforeRenorm(e.a, z) < e.a as real
    ensures Value(Renorm(e), z) == Value(e, BeforeRenorm(e.a, z))
    decreases 0x8000 - e.a
  {
    if e.a < 0x8000 {
      ShiftKeepsOk(e);
      RenormValue(ShiftOnce(e), z);
      ShiftValue(e, BeforeRenorm(e.a, z));
    }
  }

  lemma FinalOffset(e: ReadyEnc)
    ensures e.c <= FinalC(e) < e.c + e.a && FinalC(e) % 0x8000 == 0
  {
    var top := e.a - 1 + e.c;
    var temp := top - top % 0x10000;
    assert temp == top / 0x10000 * 0x10000;
    assert temp % 0x8000 == 0 by { assert temp == top / 0x10000 * 2 * 0x8000; }
    assert (temp + 0x8000) % 0x8000 == 0;
  }

  lemma {:induction false} ShlIsScale(x: nat, n: nat)
    ensures Shl(x, n) as real == Scale(x as real, n)
    decreases n
  {
    if n != 0 {
      ShlIsScale(2 * x, n - 1);
      assert (2 * x) as real == 2.0 * x as real;
    }
  }

  lemma {:induction false} ShlKeepsMultiple(x: nat, n: nat)
    requires x % 0x10000 == 0
    ensures Shl(x, n) % 0x10000 == 0
    decreases n
  {
    if n != 0 {
      ShlKeepsMultiple(2 * x, n - 1);
    }
  }

  /** The final value of C, aligned as for output: at most one carry, and nothing below the
      two bytes that finish_pass sends. */
  lemma FinalAligned(e: ReadyEnc)
    ensures var c := Shl(FinalC(e), e.ct);
            && c < 0x9000000 && c % 0x10000 == 0
            && (e.buffer < 0 ==> c < 0x8000000)
            && c as real == Scale(e.c as real + (FinalC(e) - e.c) as real, e.ct)
  {
    FinalOffset(e);
    ShlIsScale(FinalC(e), e.ct);
    ShlMonotone(FinalC(e), e.c + e.a, e.ct);
    ShlKeepsMultiple(2 * FinalC(e), e.ct - 1);
  }

  lemma LastDigits(c: nat)
    requires c < 0x9000000 && c % 0x10000 == 0
    ensures c % 0x8000000 == (c / 0x80000 % 256) * 0x80000 + (c / 0x800 % 256) * 0x800
    ensures c % 0x80000 / 0x800 == c / 0x800 % 256
    ensures c % 0x8000000 / 0x800 == 0 <==> c % 0x8000000 == 0
  {
    var x := c / 0x10000;
    assert c == x * 0x10000;
    assert c / 0x80000 == x / 8 && c / 0x800 == x * 32;
    assert x * 32 % 256 == x % 8 * 32;
    assert c % 0x80000 == x % 8 * 0x10000;
    assert c % 0x8000000 == x % 2048 * 0x10000;
    assert x % 2048 == x / 8 % 256 * 8 + x % 8;
  }

  lemma LastBytes(p: seq<Byte>, c: nat)
    requires c < 0x9000000 && c % 0x10000 == 0
    ensures var low := c % 0x8000000; var b1 := c / 0x80000 % 256; var b2 := c / 0x800 % 256;
            Frac(p + [b1] + (if b2 == 0 then [] else [b2]), 0.0) == Frac(p, low as real / TOP)
  {
    LastDigits(c);
    var low, b1, b2 := c % 0x8000000, c / 0x80000 % 256, c / 0x800 % 256;
    FracAppend(p, b1, b2 as real / 256.0);
    FracAppend(p, b1, 0.0);
    FracAppend(p + [b1], b2, 0.0);
    assert p + [b1] + [] == p + [b1];
  }

  /** What finish_pass sends denotes exactly the chosen number of the final interval. */
  lemma FinishValue(e: ReadyEnc)
    ensures Frac(Finish(e), 0.0) == Value(e, (FinalC(e) - e.c) as real)
  {
    FinalAligned(e);
    var c := Shl(FinalC(e), e.ct);
    var low := c % 0x8000000;
    var e1 := if c / 0x8000000 % 32 != 0 then ReleaseCarry(e) else ReleasePlain(e);
    var p := e1.data + Repeat(e1.zc, 0);
    if c >= 0x8000000 {
      CarryValue(e, c as real / TOP);
      assert c as real / TOP - 1.0 == low as real / TOP;
    } else {
      PlainPending(e);
    }
    assert Value(e, (FinalC(e) - e.c) as real) == Frac(p, low as real / TOP);
    LastDigits(c);
    LastBytes(p, c);
    if low == 0 {
      FracConcat(e1.data, Repeat(e1.zc, 0), 0.0);
      FracZeros(e1.zc);
    }
  }

  // ------------------------------------------------------------------ offsets

  /** The offset before one decision, given the one after. */
  ghost function BeforeCode(e: ReadyEnc, row: Row, sv: State, bit: Bit, z: real): real {
    var e1 := Narrow(e, row, sv, bit).0;
    NarrowKeepsOk(e, row, sv, bit);
    (e1.c - e.c) as real + BeforeRenorm(e1.a, z)
  }

  /** The offset of the final code string in the interval of e, when ds remain to be coded. */
  ghost function Offset(e: ReadyEnc, st: Stats, ds: seq<Decision>): real
    decreases ds
  {
    if ds == [] then (FinalC(e) - e.c) as real else
      var sv := Stat(st, ds[0].bin);
      var (e2, st2) := EncStep(e, st, ds[0]);
      BeforeCode(e, RowFor(st, ds[0].bin), sv, ds[0].bit, Offset(e2, st2, ds[1..]))
  }

  // ------------------------------------------------------------------ decoder

  /** The decoder holds the leading bits of the offset z inside an interval of width a. */
  ghost predicate Holds(d: Dec, a: nat, z: real) {
    && d.a == a && 0 <= d.ct <= 7
    && 0.0 <= z < a as real
    && d.c as real + Frac(d.rest, 0.0) == Scale(z, d.ct)
  }

  /** ... once it has brought in the bits it still misses. */
  ghost predicate InStep(d: GoodDec, a: nat, z: real) {
    a >= 0x8000 && Holds(Fill(d), a, z)
  }

  lemma NextByteFrac(rest: seq<Byte>)
    ensures 256.0 * Frac(rest, 0.0) == NextByte(rest) as real + Frac(AfterNext(rest), 0.0)
  {
  }

  lemma FillOnceHolds(d: Dec, a: nat, z: real)
    requires 1 <= a < 0x8000 && Holds(d, a, z)
    ensures Holds(FillOnce(d), 2 * a, 2.0 * z)
  {
    if d.ct == 0 {
      NextByteFrac(d.rest);
      ScaleByByte(z);
      assert Scale(z, 8) == Scale(2.0 * z, 7);
    } else {
      assert Scale(z, d.ct) == Scale(2.0 * z, d.ct - 1);
    }
  }

  lemma {:induction false} FillHolds(d: GoodDec, a: nat, z: real)
    requires 1 <= a <= 0x10000 && Holds(d, a, BeforeRenorm(a, z))
    ensures Holds(Fill(d), Fill(d).a, z)
    decreases 0x8000 - a
  {
    if a < 0x8000 {
      FillOnceHolds(d, a, BeforeRenorm(a, z));
      FillHolds(FillOnce(d), 2 * a, z);
    }
  }

  /** Comparing C with the aligned sub-interval decides on which side the offset lies. */
  lemma CutDecides(d: Dec, a: nat, z: real)
    requires Holds(d, d.a, z)
    ensures d.c >= Shl(a, d.ct) <==> z >= a as real
    ensures d.c >= Shl(a, d.ct) ==>
              (d.c - Shl(a, d.ct)) as real + Frac(d.rest, 0.0) == Scale(z - a as real, d.ct)
  {
    FracBounds(d.rest, 0.0);
    ShlIsScale(a, d.ct);
    ScaleMonotone(z, a as real, d.ct);
    ScaleAdd(z - a as real, a as real, d.ct);
    assert z - a as real + a as real == z;
  }

  /** The encoder moved the base of the interval exactly when it took the upper part. */
  lemma NarrowParts(e: ReadyEnc, row: Row, sv: State, bit: Bit)
    ensures var a := e.a - row.qe; var (e1, sv1) := Narrow(e, row, sv, bit);
            if e1.c == e.c then
              e1.a == a && (bit, sv1) ==
                (if a >= 0x8000 then (sv / 128, sv)
                 else if a < row.qe then (1 - sv / 128, Successor(sv, row.lps))
                 else (sv / 128, Successor(sv, row.mps)))
            else
              e1.c == e.c + a && e1.a == row.qe && (bit, sv1) ==
                (if a < row.qe then (sv / 128, Successor(sv, row.mps)) else (1 - sv / 128, Successor(sv, row.lps)))
  {
  }

  /** The decoder follows the offset into the lower part of its interval ... */
  lemma DecideLower(d: GoodDec, row: Row, sv: State, z: real)
    requires 0x8000 <= d.a && z < (d.a - row.qe) as real && Holds(d, d.a, z)
    ensures d.c < Shl(d.a - row.qe, d.ct) && Holds(d.(a := d.a - row.qe), d.a - row.qe, z)
  {
    CutDecides(d, d.a - row.qe, z);
  }

  /** ... and into the upper part. */
  lemma DecideUpper(d: GoodDec, row: Row, sv: State, z: real)
    requires 0x8000 <= d.a && 0.0 <= z < row.qe as real
    requires Holds(d, d.a, (d.a - row.qe) as real + z)
    ensures var cut := Shl(d.a - row.qe, d.ct);
            d.c >= cut && Holds(d.(c := d.c - cut, a := row.qe), row.qe, z)
  {
    var a := d.a - row.qe;
    CutDecides(d, a, a as real + z);
    assert a as real + z - a as real == z;
  }

  lemma DecideRecovers(d: GoodDec, e: ReadyEnc, row: Row, sv: State, bit: Bit, z: real)
    requires var e1 := Narrow(e, row, sv, bit).0;
             0.0 <= z < e1.a as real && Holds(d, e.a, (e1.c - e.c) as real + z)
    ensures var (e1, sv1) := Narrow(e, row, sv, bit);
            var (d1, sv2, bit2) := Decide(d, row, sv);
            bit2 == bit && sv2 == sv1 && Holds(d1, e1.a, z)
  {
    NarrowParts(e, row, sv, bit);
    if Narrow(e, row, sv, bit).0.c == e.c {
      DecideLower(d, row, sv, z);
    } else {
      DecideUpper(d, row, sv, z);
    }
  }

  lemma {:induction false} SameWidth(e: Enc, d: GoodDec)
    requires EncOk(e) && d.a == e.a
    ensures Renorm(e).a == Fill(d).a
    decreases 0x8000 - e.a
  {
    if e.a < 0x8000 {
      ShiftKeepsOk(e);
      SameWidth(ShiftOnce(e), FillOnce(d));
    }
  }

  /** One decision: the encoder's code string survives, the decoder answers with the coded
      bit, updates the bin alike, and is again in step. */
  lemma CodeRecovers(d: GoodDec, e: ReadyEnc, row: Row, sv: State, bit: Bit, z: real)
    requires 0.0 <= z < EncCode(e, row, sv, bit).0.a as real
    requires InStep(d, e.a, BeforeCode(e, row, sv, bit, z))
    ensures var (d1, sv1, bit1) := DecCode(d, row, sv);
            var (e2, sv2) := EncCode(e, row, sv, bit);
            bit1 == bit && sv1 == sv2 && InStep(d1, e2.a, z)
  {
    var e1 := Narrow(e, row, sv, bit).0;
    NarrowKeepsOk(e, row, sv, bit);
    RenormValue(e1, z);
    DecideRecovers(Fill(d), e, row, sv, bit, BeforeRenorm(e1.a, z));
    var d1 := DecCode(d, row, sv).0;
    FillHolds(d1, e1.a, z);
    SameWidth(e1, d1);
  }

  lemma CodeValue(e: ReadyEnc, row: Row, sv: State, bit: Bit, z: real)
    requires 0.0 <= z < EncCode(e, row, sv, bit).0.a as real
    ensures var z0 := BeforeCode(e, row, sv, bit, z);
            0.0 <= z0 < e.a as real && Value(EncCode(e, row, sv, bit).0, z) == Value(e, z0)
  {
    var e1 := Narrow(e, row, sv, bit).0;
    NarrowKeepsOk(e, row, sv, bit);
    RenormValue(e1, z);
    var z1 := BeforeRenorm(e1.a, z);
    assert e1.c as real + z1 == e.c as real + ((e1.c - e.c) as real + z1);
    assert Pending(e1) == Pending(e);
  }

  /** The bytes of the finished segment are the code string seen from every earlier state. */
  lemma {:induction false} RunValue(e: ReadyEnc, st: Stats, ds: seq<Decision>)
    ensures 0.0 <= Offset(e, st, ds) < e.a as real
    ensures Value(e, Offset(e, st, ds)) == Frac(Finish(EncRun(e, st, ds).0), 0.0)
    decreases ds
  {
    if ds == [] {
      FinalOffset(e);
      FinishValue(e);
    } else {
      var (e2, st2) := EncStep(e, st, ds[0]);
      RunValue(e2, st2, ds[1..]);
      CodeValue(e, RowFor(st, ds[0].bin), Stat(st, ds[0].bin), ds[0].bit, Offset(e2, st2, ds[1..]));
    }
  }

  /** The decoder started in (d, st) answers ds, decision by decision, and ends in (d1, st1). */
  ghost predicate Answers(d: GoodDec, st: Stats, ds: seq<Decision>, d1: GoodDec, st1: Stats)
    decreases ds
  {
    if ds == [] then d1 == d && st1 == st else
      var (d2, st2, bit) := DecStep(d, st, ds[0].bin);
      bit == ds[0].bit && Answers(d2, st2, ds[1..], d1, st1)
  }

  /** What a following of decisions is to end in. */
  type Goal = (GoodDec, Stats)

  lemma StepRecovers(d: GoodDec, e: ReadyEnc, st: Stats, x: Decision, z: real)
    requires 0.0 <= z < EncStep(e, st, x).0.a as real
    requires InStep(d, e.a, BeforeCode(e, RowFor(st, x.bin), Stat(st, x.bin), x.bit, z))
    ensures var (e1, st1) := EncStep(e, st, x);
            var (d1, st2, bit) := DecStep(d, st, x.bin);
            bit == x.bit && st2 == st1 && InStep(d1, e1.a, z)
  {
    CodeRecovers(d, e, RowFor(st, x.bin), Stat(st, x.bin), x.bit, z);
  }

  lemma {:induction false} RunAnswers(d: GoodDec, e: ReadyEnc, st: Stats, ds: seq<Decision>) returns (d1: GoodDec)
    requires InStep(d, e.a, Offset(e, st, ds))
    ensures Answers(d, st, ds, d1, EncRun(e, st, ds).1)
    decreases ds
  {
    if ds == [] {
      d1 := d;
    } else {
      var (e1, st1) := EncStep(e, st, ds[0]);
      RunValue(e1, st1, ds[1..]);
      StepRecovers(d, e, st, ds[0], Offset(e1, st1, ds[1..]));
      d1 := RunAnswers(DecStep(d, st, ds[0].bin).0, e1, st1, ds[1..]);
    }
  }

  /** A decoder at the start of a segment is in step with an encoder at its start. */
  lemma StartInStep(data: seq<Byte>, z: real)
    requires 0.0 <= z < 65536.0 && Value(EncStart, z) == Frac(data, 0.0)
    ensures InStep(DecStart(data), 0x10000, z)
  {
    var d0: GoodDec := DecStart(data);
    var d1: GoodDec := FillOnce(d0);
    var d2: GoodDec := FillOnce(d1);
    NextByteFrac(data);
    NextByteFrac(d1.rest);
    assert Fill(d0) == Fill(d1) == d2;
    assert Pending(EncStart) == [];
    assert Scale(z, 11) == Scale(2.0 * z, 10) == Scale(4.0 * z, 9) == Scale(8.0 * z, 8);
    ScaleByByte(8.0 * z);
  }

  /** Main result.  Coding any sequence of decisions from the initial registers and decoding
      the resulting bytes, with zeros supplied after their end, gives back every bit and
      leaves every statistics bin as the encoder left it. */
  lemma RoundTrip(st: Stats, ds: seq<Decision>) returns (d1: GoodDec)
    ensures Answers(DecStart(Finish(SegmentRun(st, ds).0)), st, ds, d1, SegmentRun(st, ds).1)
  {
    StartOk();
    var data := Finish(SegmentRun(st, ds).0);
    RunValue(EncStart, st, ds);
    StartInStep(data, Offset(EncStart, st, ds));
    d1 := RunAnswers(DecStart(data), EncStart, st, ds);
  }
}
