/** The register file of the arithmetic encoder (jcarith.c): the fields c, a, sc, zc, ct and
    buffer, the statistics areas, and the bytes that have gone out. */
module ArithCoderObject {
  import opened ArithTable
  import opened Fractions
  import opened ArithCoding
  import opened ArithAdaptation
  import opened ArithModel
  import opened Segments

  /** How the current segment was opened: the bytes already in the destination, and the
      statistics areas at that point. */
  class Opening {
    ghost var closed: seq<Byte>
    ghost var model0: Stats

    ghost constructor (closed: seq<Byte>, model0: Stats)
      ensures this.closed == closed && this.model0 == model0
    {
      this.closed := closed;
      this.model0 := model0;
    }
  }

  class ArithCoder {
    var c: nat
    var a: nat
    var sc: nat
    var zc: nat
    var ct: nat
    var buffer: int
    const aritab: Table
    var bins: map<Bin, State>
    var dest: seq<Byte>             // the destination, every byte written so far
    ghost const opening: Opening
    ghost var data: seq<Byte>       // the bytes sent in this segment, before stuffing
    ghost var trace: seq<Decision>  // the decisions coded in this segment

    constructor (tab: Table)
      ensures Valid() && Model() == FreshStats(tab) && trace == [] && dest == [] && fresh(opening)
    {
      aritab := tab;
      bins := map[FixedBin := 113];
      c, a, sc, zc, ct, buffer := 0, 0x10000, 0, 0, 11, -1;
      dest, data, trace := [], [], [];
      opening := new Opening([], FreshStats(tab));
      StartOk();
      EmptySegment(FreshStats(tab));
      new;
      assert RunsOver(trace);
    }

    ghost function Regs(): Enc
      reads this
    {
      Enc(c, a, sc, zc, ct, buffer, data)
    }

    ghost function Model(): Stats
      reads this
    {
      Stats(aritab, bins)
    }

    ghost function State(): (Enc, Stats)
      reads this
    {
      (Regs(), Model())
    }

    ghost predicate Sent()
      reads this, opening
    {
      dest == opening.closed + Stuff(data)
    }

    ghost predicate Ready()
      reads this, opening
    {
      EncOk(Regs()) && a >= 0x8000 && Sent()
    }

    /** The registers and statistics areas are those of a run over tr. */
    ghost predicate RunsOver(tr: seq<Decision>)
      reads this, opening
    {
      Ready() && SegmentRun(opening.model0, tr) == State()
    }

    /** The state is that of a run over the trace.  Callers see the run only when they ask for
        RunsOver(trace). */
    ghost predicate Valid()
      reads this, opening
    {
      forall tr {:trigger RunsOver(tr)} :: tr == trace ==> RunsOver(tr)
    }

    /** Both emit_byte calls of the source: the byte, and the zero that stuffs an FF. */
    method EmitData(val: Byte)
      requires Sent()
      modifies this`dest, this`data
      ensures Sent() && data == old(data) + [val]
    {
      EmitByte(val);
      if val == 0xFF {
        EmitByte(0);
      }
      data := data + [val];
      StuffByte(old(data), val);
    }

    method EmitByte(val: Byte)
      modifies this`dest
      ensures dest == old(dest) + [val]
    {
      dest := dest + [val];
    }

    /** if (e->zc) do emit_byte(0x00) while (--e->zc) */
    method SendZeros()
      requires Sent()
      modifies this`dest, this`data, this`zc
      ensures Sent() && zc == 0 && data == old(data) + Repeat(old(zc), 0)
    {
      ghost var n := zc;
      while zc > 0
        invariant zc <= n && Sent() && data == old(data) + Repeat(n - zc, 0)
      {
        EmitData(0);
        assert Repeat(n - zc, 0) + [0] == Repeat(n - zc + 1, 0);
        zc := zc - 1;
      }
    }

    method SendStackedFFs()
      requires Sent()
      modifies this`dest, this`data, this`sc
      ensures Sent() && sc == 0 && data == old(data) + Repeat(old(sc), 0xFF)
    {
      ghost var n := sc;
      while sc > 0
        invariant sc <= n && Sent() && data == old(data) + Repeat(n - sc, 0xFF)
      {
        EmitData(0xFF);
        assert Repeat(n - sc, 0xFF) + [0xFF] == Repeat(n - sc + 1, 0xFF);
        sc := sc - 1;
      }
    }

    /** The overflow branch of arith_encode and finish_pass. */
    method Overflow()
      requires Sent() && buffer <= 0xFE
      modifies this`dest, this`data, this`zc, this`sc
      ensures Sent() && Regs() == ReleaseCarry(old(Regs()))
    {
      if buffer >= 0 {
        SendZeros();
        EmitData(buffer + 1);
      }
      zc := zc + sc;
      sc := 0;
    }

    /** The branch without overflow. */
    method NoOverflow()
      requires Sent() && buffer <= 0xFE
      modifies this`dest, this`data, this`zc, this`sc
      ensures Sent() && Regs() == ReleasePlain(old(Regs()))
    {
      if buffer == 0 {
        zc := zc + 1;
      } else if buffer >= 0 {
        SendZeros();
        EmitData(buffer);
      }
      if sc != 0 {
        SendZeros();
        SendStackedFFs();
      }
    }

    method Renormalise()
      requires EncOk(Regs()) && a < 0x8000 && Sent()
      modifies this`a, this`c, this`ct, this`buffer, this`dest, this`data, this`zc, this`sc
      ensures Ready() && Regs() == Renorm(old(Regs()))
    {
      var again := true;
      while again
        invariant EncOk(Regs()) && Sent() && Renorm(Regs()) == Renorm(old(Regs()))
        invariant again <==> a < 0x8000
        decreases 0x10000 - a
      {
        ghost var e := Regs();
        ShiftKeepsOk(e);
        a := 2 * a;
        c := 2 * c;
        ct := ct - 1;
        if ct == 0 {
          var temp := c / 0x80000;
          if temp > 0xFF {
            Overflow();
            buffer := temp % 256;
          } else if temp == 0xFF {
            sc := sc + 1;
          } else {
            NoOverflow();
            buffer := temp % 256;
          }
          c := c % 0x80000;
          ct := ct + 8;
        }
        assert Regs() == ShiftOnce(e);
        again := a < 0x8000;
      }
    }

    /** arith_encode */
    method EncodeDecision(bin: Bin, val: Bit)
      requires Ready() && InArea(bin)
      modifies this`a, this`c, this`ct, this`buffer, this`dest, this`data, this`zc, this`sc, this`bins
      ensures Ready() && State() == EncStep(old(Regs()), old(Model()), Decision(bin, val))
    {
      ghost var e, st := Regs(), Model();
      var sv := Stat(Stats(aritab, bins), bin);
      var row := RowFor(Stats(aritab, bins), bin);
      NarrowKeepsOk(e, row, sv, val);
      var sv1 := sv;
      a := a - row.qe;
      if val != sv / 128 {
        if a >= row.qe {
          c := c + a;
          a := row.qe;
        }
        sv1 := Successor(sv, row.lps);
      } else {
        if a >= 0x8000 {
          assert (Regs(), sv1) == Narrow(e, row, sv, val);
          return;
        }
        if a < row.qe {
          c := c + a;
          a := row.qe;
        }
        sv1 := Successor(sv, row.mps);
      }
      assert (Regs(), sv1) == Narrow(e, row, sv, val);
      bins := Store(Stats(aritab, bins), bin, sv1).bins;
      Renormalise();
      assert (Regs(), sv1) == EncCode(e, row, sv, val);
    }

    /** arith_encode, with its place in the run recorded. */
    method ArithEncode(bin: Bin, val: Bit)
      requires Valid() && InArea(bin)
      modifies this
      ensures Valid() && trace == old(trace) + [Decision(bin, val)]
      ensures aritab == JpegAritab() ==> Adapted(old(Model()), old(a), Decision(bin, val), Model())
    {
      assert RunsOver(trace);
      StartOk();
      EncRunConcat(EncStart, opening.model0, trace, [Decision(bin, val)]);
      EncodeDecision(bin, val);
      if aritab == JpegAritab() {
        EncoderAdapts(old(Regs()), old(Model()), Decision(bin, val));
      }
      trace := trace + [Decision(bin, val)];
      assert RunsOver(trace);
    }

    /** finish_pass */
    method FinishPass()
      requires Ready()
      modifies this`c, this`zc, this`sc, this`dest, this`data
      ensures Sent() && data == Finish(old(Regs()))
    {
      var top := a - 1 + c;
      var temp := top - top % 0x10000;
      c := if temp < c then temp + 0x8000 else temp;
      c := Shl(c, ct);
      ReleaseAndSend(old(Regs()));
    }

    method ReleaseAndSend(ghost e: ReadyEnc)
      requires Sent() && c == Shl(FinalC(e), e.ct) && Regs() == e.(c := c)
      modifies this`zc, this`sc, this`dest, this`data
      ensures Sent() && data == Finish(e)
    {
      if c / 0x8000000 % 32 != 0 {
        Overflow();
        assert (data, zc) == (ReleaseCarry(e).data, ReleaseCarry(e).zc);
        SendLastBytes();
      } else {
        NoOverflow();
        assert (data, zc) == (ReleasePlain(e).data, ReleasePlain(e).zc);
        SendLastBytes();
      }
    }

    /** Output final bytes only if they are not 0. */
    method SendLastBytes()
      requires Sent()
      modifies this`zc, this`dest, this`data
      ensures Sent()
      ensures data == WithLastBytes(old(Regs()), c)
    {
      if c % 0x8000000 / 0x800 != 0 {
        SendZeros();
        EmitData(c / 0x80000 % 256);
        if c % 0x80000 / 0x800 != 0 {
          EmitData(c / 0x800 % 256);
        }
      }
    }

    /** The reset at the end of start_pass and emit_restart. */
    method Reset()
      modifies this`c, this`a, this`sc, this`zc, this`ct, this`buffer, this`data, this`trace, opening
      ensures Valid() && trace == [] && opening.model0 == Model() && opening.closed == dest
    {
      c := 0;
      a := 0x10000;
      sc := 0;
      zc := 0;
      ct := 11;
      buffer := -1;
      data := [];
      trace := [];
      opening.closed := dest;
      opening.model0 := Model();
      StartOk();
      EmptySegment(Model());
      assert Regs() == EncStart;
      assert Ready();
      assert RunsOver(trace);
    }

    /** Zeroes the statistics areas of the components in the scan. */
    method ClearAreas(scan: Scan)
      modifies this`bins
      ensures Model() == Cleared(scan, old(Model()))
    {
      bins := map b | b in bins && !IsCleared(scan, b) :: bins[b];
    }
  }
}
