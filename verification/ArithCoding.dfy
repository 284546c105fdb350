/** The adaptive binary arithmetic coder: what arith_encode / finish_pass (jcarith.c) and
    arith_decode (jdarith.c) do to their registers, one function per step, and the proof that
    the decoder recovers every decision. */
module ArithCoding {
  import opened ArithTable
  import opened Fractions

  // ------------------------------------------------------------------ statistics bins

  const NUM_ARITH_TBLS := 16
  const DC_STAT_BINS := 64
  const AC_STAT_BINS := 256

  /** A statistics bin: a byte of dc_stats[tbl], a byte of ac_stats[tbl], or fixed_bin. */
  datatype Bin = DcBin(tbl: nat, idx: nat) | AcBin(tbl: nat, idx: nat) | FixedBin

  predicate InArea(b: Bin) {
    match b
    case DcBin(tbl, idx) => tbl < NUM_ARITH_TBLS && idx < DC_STAT_BINS
    case AcBin(tbl, idx) => tbl < NUM_ARITH_TBLS && idx < AC_STAT_BINS
    case FixedBin => true
  }

  /** The estimation table together with the statistics areas; a bin that is not in the map
      holds 0, as after MEMZERO. */
  datatype Stats = Stats(tab: Table, bins: map<Bin, State>)

  function FreshStats(tab: Table): Stats {
    Stats(tab, map[FixedBin := 113])
  }

  function Stat(st: Stats, b: Bin): State {
    if b in st.bins then st.bins[b] else 0
  }

  function Store(st: Stats, b: Bin, v: State): Stats {
    if Stat(st, b) == v then st else st.(bins := st.bins[b := v])
  }

  /** The table line that a bin selects. */
  function RowFor(st: Stats, b: Bin): Row {
    st.tab[Stat(st, b) % 128]
  }

  /** One binary decision coded with one bin. */
  datatype Decision = Decision(bin: Bin, bit: Bit)

  /** (sv & 0x80) ^ next */
  function Successor(sv: State, next: State): State {
    (sv / 128 + next / 128) % 2 * 128 + next % 128
  }

  function Shl(x: nat, n: nat): (r: nat)
    decreases n
  {
    if n == 0 then x else Shl(2 * x, n - 1)
  }

  // ------------------------------------------------------------------ encoder

  /** The registers of the encoder.  `data` holds the bytes already sent, before FF stuffing. */
  datatype Enc = Enc(c: nat, a: nat, sc: nat, zc: nat, ct: nat, buffer: int, data: seq<Byte>)

  const EncStart := Enc(0, 0x10000, 0, 0, 11, -1, [])

  /** Everything produced so far, including what a carry may still change. */
  ghost function Pending(e: Enc): seq<Byte>
    requires e.buffer < 256
  {
    e.data + Repeat(e.zc, 0) + (if e.buffer >= 0 then [e.buffer] else []) + Repeat(e.sc, 0xFF)
  }

  /** A carry has reached the buffered byte. */
  function ReleaseCarry(e: Enc): Enc
    requires e.buffer <= 0xFE
  {
    var e1 := if e.buffer >= 0 then e.(data := e.data + Repeat(e.zc, 0) + [e.buffer + 1], zc := 0) else e;
    e1.(zc := e1.zc + e1.sc, sc := 0)
  }

  /** No carry can reach the buffered byte any more. */
  function ReleasePlain(e: Enc): Enc
    requires e.buffer <= 0xFE
  {
    var e1 := if e.buffer == 0 then e.(zc := e.zc + 1)
              else if e.buffer > 0 then e.(data := e.data + Repeat(e.zc, 0) + [e.buffer], zc := 0)
              else e;
    if e1.sc == 0 then e1
    else e1.(data := e1.data + Repeat(e1.zc, 0) + Repeat(e1.sc, 0xFF), zc := 0, sc := 0)
  }

  /** Another byte is ready in bits 19-27 of C. */
  function ByteOut(e: Enc): Enc
    requires e.buffer <= 0xFE
  {
    var temp := e.c / 0x80000;
    var e1 := if temp > 0xFF then ReleaseCarry(e).(buffer := temp % 256)
              else if temp == 0xFF then e.(sc := e.sc + 1)
              else ReleasePlain(e).(buffer := temp % 256);
    e1.(c := e.c % 0x80000, ct := 8)
  }

  /** One turn of the renormalisation loop. */
  function ShiftOnce(e: Enc): Enc
    requires e.buffer <= 0xFE && e.ct >= 1
  {
    var e1 := e.(a := 2 * e.a, c := 2 * e.c, ct := e.ct - 1);
    if e1.ct == 0 then ByteOut(e1) else e1
  }

  /** The registers stay inside their widths, and until the first byte is buffered the
      interval has not left the first byte. */
  predicate EncOk(e: Enc) {
    && 1 <= e.a <= 0x10000
    && 1 <= e.ct <= 11
    && -1 <= e.buffer <= 0xFE
    && Shl(e.c + e.a, e.ct) <= 0x9000000
    && (e.buffer < 0 ==> e.data == [] && e.zc == 0 && Shl(e.c + e.a, e.ct) <= 0x8000000)
  }

  lemma StartOk()
    ensures EncOk(EncStart)
  {
    assert Shl(0x10000, 11) == Shl(0x20000, 10) == Shl(0x40000, 9) == Shl(0x80000, 8) == Shl(0x100000, 7)
        == Shl(0x200000, 6) == Shl(0x400000, 5) == Shl(0x800000, 4) == Shl(0x1000000, 3) == Shl(0x2000000, 2)
        == Shl(0x4000000, 1) == 0x8000000;
  }

  /** An encoder between two decisions. */
  type ReadyEnc = e: Enc | EncOk(e) && e.a >= 0x8000 witness (StartOk(); EncStart)

  lemma {:induction false} ShlMonotone(x: nat, y: nat, n: nat)
    requires x <= y
    ensures Shl(x, n) <= Shl(y, n)
    ensures x < y ==> Shl(x, n) < Shl(y, n)
    decreases n
  {
    if n != 0 {
      ShlMonotone(2 * x, 2 * y, n - 1);
    }
  }

  lemma ShlByByte(x: nat)
    ensures Shl(x, 8) == 256 * x
  {
    assert Shl(x, 8) == Shl(2 * x, 7) == Shl(4 * x, 6) == Shl(8 * x, 5) == Shl(16 * x, 4)
        == Shl(32 * x, 3) == Shl(64 * x, 2) == Shl(128 * x, 1) == Shl(256 * x, 0);
  }

  lemma ShiftKeepsOk(e: Enc)
    requires EncOk(e) && e.a < 0x8000
    ensures EncOk(ShiftOnce(e)) && ShiftOnce(e).a == 2 * e.a
  {
    assert Shl(e.c + e.a, e.ct) == Shl(2 * (e.c + e.a), e.ct - 1);
    if e.ct == 1 {
      var e1 := e.(a := 2 * e.a, c := 2 * e.c, ct := 0);
      assert Shl(2 * (e.c + e.a), 0) == e1.c + e1.a;
      ByteOutKeepsOk(e1);
    }
  }

  lemma ByteOutKeepsOk(e: Enc)
    requires e.ct == 0 && 1 <= e.a <= 0x10000 && -1 <= e.buffer <= 0xFE
    requires e.c + e.a <= 0x9000000
    requires e.buffer < 0 ==> e.data == [] && e.zc == 0 && e.c + e.a <= 0x8000000
    ensures EncOk(ByteOut(e)) && ByteOut(e).a == e.a
  {
    var temp, low := e.c / 0x80000, e.c % 0x80000;
    assert e.c == temp * 0x80000 + low;
    assert temp <= 0x120;
    ShlByByte(low + e.a);
  }

  function Renorm(e: Enc): ReadyEnc
    requires EncOk(e)
    decreases 0x10000 - e.a
  {
    if e.a >= 0x8000 then e else ShiftKeepsOk(e); Renorm(ShiftOnce(e))
  }

  /** The choice of sub-interval and of the next state of the bin. */
  function Narrow(e: ReadyEnc, row: Row, sv: State, bit: Bit): (Enc, State) {
    var a := e.a - row.qe;
    if bit != sv / 128 then
      (if a >= row.qe then e.(c := e.c + a, a := row.qe) else e.(a := a), Successor(sv, row.lps))
    else if a >= 0x8000 then
      (e.(a := a), sv)
    else
      (if a < row.qe then e.(c := e.c + a, a := row.qe) else e.(a := a), Successor(sv, row.mps))
  }

  lemma NarrowKeepsOk(e: ReadyEnc, row: Row, sv: State, bit: Bit)
    ensures EncOk(Narrow(e, row, sv, bit).0)
  {
    var e1 := Narrow(e, row, sv, bit).0;
    var a := e.a - row.qe;
    assert e1 == e.(a := a) || e1 == e.(c := e.c + a, a := row.qe);
    ShlMonotone(e1.c + e1.a, e.c + e.a, e.ct);
  }

  /** arith_encode with the table line of the bin already fetched. */
  function EncCode(e: ReadyEnc, row: Row, sv: State, bit: Bit): (ReadyEnc, State) {
    NarrowKeepsOk(e, row, sv, bit);
    var (e1, sv1) := Narrow(e, row, sv, bit);
    (Renorm(e1), sv1)
  }

  /** arith_encode */
  function EncStep(e: ReadyEnc, st: Stats, d: Decision): (ReadyEnc, Stats) {
    var (e1, sv1) := EncCode(e, RowFor(st, d.bin), Stat(st, d.bin), d.bit);
    (e1, Store(st, d.bin, sv1))
  }

  function EncRun(e: ReadyEnc, st: Stats, ds: seq<Decision>): (ReadyEnc, Stats)
    decreases ds
  {
    if ds == [] then (e, st) else
      var (e1, st1) := EncStep(e, st, ds[0]);
      EncRun(e1, st1, ds[1..])
  }

  lemma {:induction false} EncRunConcat(e: ReadyEnc, st: Stats, a: seq<Decision>, b: seq<Decision>)
    ensures var (e1, st1) := EncRun(e, st, a); EncRun(e, st, a + b) == EncRun(e1, st1, b)
    decreases a
  {
    if a == [] {
      assert a + b == b;
    } else {
      assert (a + b)[0] == a[0] && (a + b)[1..] == a[1..] + b;
      var (e1, st1) := EncStep(e, st, a[0]);
      EncRunConcat(e1, st1, a[1..], b);
    }
  }

  /** A whole segment, from the initial registers. */
  function SegmentRun(st: Stats, ds: seq<Decision>): (ReadyEnc, Stats) {
    StartOk();
    EncRun(EncStart, st, ds)
  }

  lemma EmptySegment(st: Stats)
    ensures SegmentRun(st, []) == (EncStart, st)
  {
    StartOk();
  }

  /** The number in the coding interval with the most trailing zero bits. */
  function FinalC(e: ReadyEnc): nat {
    var top := e.a - 1 + e.c;
    var temp := top - top % 0x10000;
    if temp < e.c then temp + 0x8000 else temp
  }

  /** The last bytes, unless they are zero. */
  function WithLastBytes(e: Enc, c: nat): seq<Byte> {
    if c % 0x8000000 / 0x800 == 0 then e.data else
      e.data + Repeat(e.zc, 0) + [c / 0x80000 % 256] +
      (if c % 0x80000 / 0x800 == 0 then [] else [c / 0x800 % 256])
  }

  /** finish_pass: all bytes of the segment, before stuffing. */
  function Finish(e: ReadyEnc): seq<Byte> {
    var c := Shl(FinalC(e), e.ct);
    WithLastBytes(if c / 0x8000000 % 32 != 0 then ReleaseCarry(e) else ReleasePlain(e), c)
  }

  // ------------------------------------------------------------------ decoder

  /** The registers of the decoder and the data bytes of the segment not yet read. */
  datatype Dec = Dec(c: nat, a: nat, ct: int, rest: seq<Byte>)

  function DecStart(data: seq<Byte>): Dec {
    Dec(0, 0, -16, data)
  }

  predicate DecOk(d: Dec) {
    && d.a <= 0x10000
    && (d.a == 0 ==> d.ct == -16 || d.ct == -8)
    && (d.a != 0 ==> 0 <= d.ct <= 7)
  }

  /** A decoder that has not met an error. */
  type GoodDec = d: Dec | DecOk(d) witness DecStart([])

  function NextByte(rest: seq<Byte>): Byte {
    if rest == [] then 0 else rest[0]
  }

  function AfterNext(rest: seq<Byte>): seq<Byte> {
    if rest == [] then [] else rest[1..]
  }

  /** One turn of the renormalisation and input loop. */
  function FillOnce(d: Dec): Dec {
    var ct := d.ct - 1;
    if ct >= 0 then d.(a := 2 * d.a, ct := ct) else
      var d1 := d.(c := d.c * 256 + NextByte(d.rest), rest := AfterNext(d.rest));
      if ct + 8 >= 0 then d1.(a := 2 * d.a, ct := ct + 8)
      else if ct + 9 == 0 then d1.(a := 2 * 0x8000, ct := 0)
      else d1.(a := 2 * d.a, ct := ct + 9)
  }

  function Fill(d: GoodDec): (r: GoodDec)
    ensures r.a >= 0x8000
    decreases if d.a == 0 then -d.ct else 0, 0x10000 - d.a
  {
    if d.a >= 0x8000 then d else Fill(FillOnce(d))
  }

  /** The decision, the next state of the bin, and the narrowed registers. */
  function Decide(d: GoodDec, row: Row, sv: State): (GoodDec, State, Bit)
    requires d.a >= 0x8000
  {
    var a := d.a - row.qe;
    var mps: Bit := sv / 128;
    var cut := Shl(a, d.ct);
    if d.c >= cut then
      var d1 := d.(c := d.c - cut, a := row.qe);
      if a < row.qe then (d1, Successor(sv, row.mps), mps)
      else (d1, Successor(sv, row.lps), 1 - mps)
    else
      var d1 := d.(a := a);
      if a >= 0x8000 then (d1, sv, mps)
      else if a < row.qe then (d1, Successor(sv, row.lps), 1 - mps)
      else (d1, Successor(sv, row.mps), mps)
  }

  function DecCode(d: GoodDec, row: Row, sv: State): (GoodDec, State, Bit) {
    Decide(Fill(d), row, sv)
  }

  /** arith_decode */
  function DecStep(d: GoodDec, st: Stats, bin: Bin): (GoodDec, Stats, Bit) {
    var (d1, sv1, bit) := DecCode(d, RowFor(st, bin), Stat(st, bin));
    (d1, Store(st, bin, sv1), bit)
  }
}
