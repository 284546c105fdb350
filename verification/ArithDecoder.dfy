/** The register file of the arithmetic decoder (jdarith.c): the fields c, a and ct, the
    statistics areas, and the place reached in the input. */
module ArithDecoderObject {
  import opened ArithTable
  import opened ArithCoding
  import opened ArithAdaptation
  import opened ArithModel
  import opened ArithRoundTrip
  import opened Segments

  const EOI := 0xD9

  /** Where the current segment ends: the code of its marker, and the position behind it. */
  class Closing {
    ghost var code: Byte
    ghost var behind: nat

    ghost constructor (code: Byte, behind: nat)
      ensures this.code == code && this.behind == behind
    {
      this.code := code;
      this.behind := behind;
    }
  }

  class ArithDecoder {
    var c: nat
    var a: nat
    var ct: int
    const aritab: Table
    var bins: map<Bin, State>
    const raw: seq<Byte>    // the input
    var pos: nat            // how much of it has been read
    var unreadMarker: Byte  // a marker that has been read but not processed, or 0
    var halfEoi: bool       // the first half of a fake EOI marker has been delivered
    ghost const closing: Closing

    constructor (tab: Table, raw: seq<Byte>, pos: nat)
      requires pos <= |raw|
      ensures this.raw == raw && this.pos == pos && unreadMarker == 0 && fresh(closing)
      ensures Live() && Model() == FreshStats(tab) && Regs() == DecStart(DataFrom(raw, pos))
    {
      aritab := tab;
      bins := map[FixedBin := 113];
      c, a, ct := 0, 0, -16;
      this.raw, this.pos := raw, pos;
      unreadMarker, halfEoi := 0, false;
      closing := new Closing(if MarkerFrom(raw, pos) < |raw| then raw[MarkerFrom(raw, pos)] else EOI,
                             if MarkerFrom(raw, pos) < |raw| then MarkerFrom(raw, pos) + 1 else |raw|);
      new;
      assert EndsAt(closing.behind, closing.code);
    }

    ghost predicate InputOk()
      reads this
    {
      pos <= |raw| && !halfEoi
    }

    /** The data bytes of the segment that have not been read. */
    ghost function Rest(): seq<Byte>
      requires InputOk()
      reads this
    {
      if unreadMarker != 0 then [] else DataFrom(raw, pos)
    }

    /** The marker that ends the segment; the end of the input counts as EOI. */
    ghost function MarkerCode(): Byte
      requires InputOk()
      reads this
    {
      if unreadMarker != 0 then unreadMarker
      else if MarkerFrom(raw, pos) < |raw| then raw[MarkerFrom(raw, pos)] else EOI
    }

    /** Where the input continues behind that marker. */
    ghost function Behind(): (q: nat)
      requires InputOk()
      reads this
      ensures q <= |raw|
    {
      if unreadMarker != 0 then pos
      else if MarkerFrom(raw, pos) < |raw| then MarkerFrom(raw, pos) + 1 else |raw|
    }

    ghost function Regs(): Dec
      requires InputOk()
      reads this
    {
      Dec(c, a, ct, Rest())
    }

    ghost function Model(): Stats
      reads this
    {
      Stats(aritab, bins)
    }

    ghost predicate Ready()
      reads this
    {
      InputOk() && DecOk(Regs())
    }

    ghost predicate EndsAt(behind: nat, code: Byte)
      reads this
    {
      InputOk() && Behind() == behind && MarkerCode() == code
    }

    /** The input is between two reads, and the segment ends where it did when it was opened
        (looked up only on demand). */
    ghost predicate Live()
      reads this, closing
    {
      && InputOk()
      && forall q {:trigger EndsAt(q, closing.code)} :: q == closing.behind ==> EndsAt(q, closing.code)
    }

    /** ... and no error has been flagged by ct = -1. */
    ghost predicate Running()
      reads this, closing
    {
      Live() && DecOk(Dec(c, a, ct, []))
    }

    ghost predicate AnswersAt(ds: seq<Decision>, goal: Goal)
      reads this
    {
      Ready() && Answers(Regs(), Model(), ds, goal.0, goal.1)
    }

    /** The input holds the answers to the decisions ds (looked up only on demand). */
    ghost predicate Follows(ds: seq<Decision>, goal: Goal)
      reads this
    {
      forall x {:trigger AnswersAt(x, goal)} :: x == ds ==> AnswersAt(x, goal)
    }

    /** get_byte, with the fake EOI that the data source supplies at the end of its input. */
    method GetByte() returns (b: Byte)
      requires pos <= |raw|
      modifies this`pos, this`halfEoi
      ensures old(pos) < |raw| ==> b == raw[old(pos)] && pos == old(pos) + 1 && halfEoi == old(halfEoi)
      ensures old(pos) == |raw| ==> pos == |raw| && halfEoi == !old(halfEoi) && b == if old(halfEoi) then EOI else 0xFF
    {
      if pos < |raw| {
        b := raw[pos];
        pos := pos + 1;
      } else {
        b := if halfEoi then EOI else 0xFF;
        halfEoi := !halfEoi;
      }
    }

    /** The input part of arith_decode: the next data byte, or 0 once a marker is reached. */
    method NextData() returns (data: Byte)
      requires InputOk()
      modifies this`pos, this`halfEoi, this`unreadMarker
      ensures InputOk() && data == NextByte(old(Rest())) && Rest() == AfterNext(old(Rest()))
      ensures MarkerCode() == old(MarkerCode()) && Behind() == old(Behind())
    {
      if unreadMarker != 0 {
        data := 0;
      } else {
        data := GetByte();
        if data == 0xFF {
          data := SkipPadding();
          if data == 0 {
            data := 0xFF;
          } else {
            unreadMarker := data;
            data := 0;
          }
        }
      }
    }

    /** do data = get_byte(cinfo); while (data == 0xFF) */
    method SkipPadding() returns (data: Byte)
      requires pos <= |raw| && (halfEoi ==> pos == |raw|)
      modifies this`pos, this`halfEoi
      ensures InputOk() && data != 0xFF
      ensures var q := if old(halfEoi) then |raw| else SkipFF(raw, old(pos));
              if q < |raw| then data == raw[q] && pos == q + 1 else data == EOI && pos == |raw|
    {
      ghost var q := if halfEoi then |raw| else SkipFF(raw, pos);
      data := GetByte();
      while data == 0xFF
        invariant pos <= |raw| && (halfEoi ==> pos == |raw|)
        invariant data == 0xFF ==> q == if halfEoi then |raw| else SkipFF(raw, pos)
        invariant data != 0xFF ==> !halfEoi && if q < |raw| then data == raw[q] && pos == q + 1 else data == EOI && pos == |raw|
        decreases data == 0xFF, |raw| - pos, !halfEoi
      {
        data := GetByte();
      }
    }

    /** Renormalization & data input. */
    method FillRegister()
      requires Ready()
      modifies this`c, this`a, this`ct, this`pos, this`halfEoi, this`unreadMarker
      ensures Ready() && Regs() == Fill(old(Regs()))
      ensures MarkerCode() == old(MarkerCode()) && Behind() == old(Behind())
    {
      ghost var goal := Fill(Regs());
      while a < 0x8000
        invariant Ready() && Fill(Regs()) == goal
        invariant MarkerCode() == old(MarkerCode()) && Behind() == old(Behind())
        decreases if a == 0 then -ct else 0, 0x10000 - a
      {
        ghost var d := Regs();
        ct := ct - 1;
        if ct < 0 {
          var data := NextData();
          c := c * 256 + data;
          ct := ct + 8;
          if ct < 0 {
            ct := ct + 1;
            if ct == 0 {
              a := 0x8000;
            }
          }
        }
        a := 2 * a;
        assert Regs() == FillOnce(d);
      }
    }

    /** arith_decode */
    method DecodeDecision(bin: Bin) returns (bit: Bit)
      requires Ready() && InArea(bin)
      modifies this`c, this`a, this`ct, this`pos, this`halfEoi, this`unreadMarker, this`bins
      ensures Ready() && (Regs(), Model(), bit) == DecStep(old(Regs()), old(Model()), bin)
      ensures aritab == JpegAritab() ==>
                Adapted(old(Model()), old(Fill(Regs()).a), Decision(bin, bit), Model())
      ensures MarkerCode() == old(MarkerCode()) && Behind() == old(Behind())
    {
      FillRegister();
      var sv := Stat(Stats(aritab, bins), bin);
      var sv1;
      sv1, bit := DecideBit(RowFor(Stats(aritab, bins), bin), sv);
      bins := Store(Stats(aritab, bins), bin, sv1).bins;
      if aritab == JpegAritab() {
        DecoderAdapts(old(Regs()), old(Model()), bin);
      }
    }

    /** The decoding procedures of section D.2, with the register filled; sv is the state of the
        bin. */
    method DecideBit(row: Row, sv: State) returns (sv1: State, bit: Bit)
      requires Ready() && a >= 0x8000
      modifies this`c, this`a
      ensures Ready() && (Regs(), sv1, bit) == Decide(old(Regs()), row, sv)
    {
      var mps: Bit := sv / 128;
      sv1 := sv;
      bit := mps;
      a := a - row.qe;
      var temp := Shl(a, ct);
      if c >= temp {
        c := c - temp;
        if a < row.qe {
          sv1 := Successor(sv, row.mps);
        } else {
          sv1 := Successor(sv, row.lps);
          bit := 1 - mps;
        }
        a := row.qe;
      } else if a < 0x8000 {
        if a < row.qe {
          sv1 := Successor(sv, row.lps);
          bit := 1 - mps;
        } else {
          sv1 := Successor(sv, row.mps);
        }
      }
    }

    /** arith_decode inside an MCU routine.  As long as the input holds the answers to `todo`,
        the next answer is the bit that was coded. */
    method ArithDecode(bin: Bin, ghost on: bool, ghost todo: seq<Decision>, ghost goal: Goal) returns (bit: Bit)
      requires Running() && InArea(bin)
      requires on ==> todo != [] && todo[0].bin == bin && Follows(todo, goal)
      modifies this
      ensures Running()
      ensures on ==> bit == todo[0].bit && Follows(todo[1..], goal)
      ensures aritab == JpegAritab() ==>
                Adapted(old(Model()), old(Fill(Regs()).a), Decision(bin, bit), Model())
    {
      assert EndsAt(closing.behind, closing.code);
      if on {
        assert AnswersAt(todo, goal);
      }
      bit := DecodeDecision(bin);
      assert EndsAt(closing.behind, closing.code);
      if on {
        assert AnswersAt(todo[1..], goal);
      }
    }

    /** entropy->ct = -1: the data cannot be what an encoder writes. */
    method Fail()
      requires Live()
      modifies this`ct
      ensures Live() && ct == -1
    {
      assert EndsAt(closing.behind, closing.code);
      ct := -1;
      assert EndsAt(closing.behind, closing.code);
    }

    /** next_marker: skips to the code of the next marker, over stuffed bytes if need be. */
    method NextMarker()
      requires InputOk() && unreadMarker == 0
      modifies this`pos, this`halfEoi, this`unreadMarker
      ensures InputOk() && unreadMarker == old(MarkerCode()) && pos == old(Behind())
    {
      ghost var q := MarkerFrom(raw, pos);
      var found := false;
      while !found
        invariant InputOk() && (unreadMarker != 0 <==> found)
        invariant !found ==> MarkerFrom(raw, pos) == q
        invariant found ==> if q < |raw| then unreadMarker == raw[q] && pos == q + 1 else unreadMarker == EOI && pos == |raw|
        decreases !found, |raw| - pos
      {
        SkipData();
        var code := SkipPadding();
        if code != 0 {
          unreadMarker := code;
          found := true;
        }
      }
    }

    /** Reads up to and including the next FF. */
    method SkipData()
      requires InputOk()
      modifies this`pos, this`halfEoi
      ensures pos <= |raw| && old(pos) <= pos
      ensures if halfEoi then pos == |raw| == MarkerFrom(raw, old(pos))
              else old(pos) < pos && raw[pos - 1] == 0xFF && MarkerFrom(raw, pos - 1) == MarkerFrom(raw, old(pos))
    {
      ghost var q := MarkerFrom(raw, pos);
      var code := GetByte();
      while code != 0xFF
        invariant old(pos) <= pos <= |raw|
        invariant halfEoi ==> code == 0xFF && pos == |raw| == q
        invariant !halfEoi ==> old(pos) < pos && code == raw[pos - 1] && MarkerFrom(raw, pos - 1) == q
        decreases |raw| - pos + (if halfEoi then 0 else 1)
      {
        code := GetByte();
      }
    }

    /** read_restart_marker: whether restart marker `num` came next; it is then swallowed. */
    method ReadRestartMarker(num: RestartNum) returns (ok: bool)
      requires InputOk()
      modifies this`pos, this`halfEoi, this`unreadMarker
      ensures InputOk() && (ok <==> old(MarkerCode()) == RST0 + num)
      ensures pos == old(Behind()) && unreadMarker == if ok then 0 else old(MarkerCode())
    {
      if unreadMarker == 0 {
        NextMarker();
      }
      ok := unreadMarker == RST0 + num;
      if ok {
        unreadMarker := 0;
      }
    }

    /** Re-initialize statistics areas; initialize arithmetic decoding variables. */
    method Open(scan: Scan)
      requires InputOk() && unreadMarker == 0
      modifies this, closing
      ensures Running() && pos == old(pos) && unreadMarker == 0
      ensures closing.code == MarkerCode() && closing.behind == Behind()
      ensures Model() == Cleared(scan, old(Model())) && Regs() == DecStart(DataFrom(raw, pos))
    {
      bins := map b | b in bins && !IsCleared(scan, b) :: bins[b];
      c, a, ct := 0, 0, -16;
      closing.code, closing.behind := MarkerCode(), Behind();
      assert EndsAt(closing.behind, closing.code);
    }
  }
}
