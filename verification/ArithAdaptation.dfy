/** What coding a decision does to the statistics areas and to the coding interval, told by
    Table D.3 of ITU-T T.81 alone: the same for the encoder and the decoder, and without the
    packed words in which jaricom.c keeps the table. */
module ArithAdaptation {
  import opened ArithTable
  import opened ArithCoding

  /** A bin that held sv and coded `bit`, by section D.1.5: without renormalisation it stays as it
      is.  Otherwise an MPS takes the index to Next_Index_MPS and keeps the sense of the MPS; an LPS
      takes it to Next_Index_LPS, and the sense flips exactly if Switch_MPS is 1. */
  ghost predicate Estimates(sv: State, bit: Bit, renormalises: bool, sv1: State) {
    var e, mps := Entries(sv % 128), sv / 128;
    if !renormalises then sv1 == sv
    else if bit == mps then sv1 % 128 == e.nextMps && sv1 / 128 == mps
    else sv1 % 128 == e.nextLps && sv1 / 128 == if e.switchMps == 1 then 1 - mps else mps
  }

  /** Coding decision d with an interval of size a turned the statistics st into st1: only the MPS
      that leaves an interval of at least 0x8000 does not renormalise, and no other bin changes. */
  ghost predicate Adapted(st: Stats, a: nat, d: Decision, st1: Stats) {
    var sv := Stat(st, d.bin);
    var renormalises := d.bit != sv / 128 || a - Entries(sv % 128).qe < 0x8000;
    && st1.tab == st.tab
    && Estimates(sv, d.bit, renormalises, Stat(st1, d.bin))
    && forall b :: b != d.bin ==> Stat(st1, b) == Stat(st, b)
  }

  /** jpeg_aritab holds Table D.3. */
  lemma LineOf(index: nat)
    requires index <= 113
    ensures var row, e := JpegAritab()[index], Entries(index);
            && row.qe == e.qe
            && row.mps == e.nextMps
            && row.lps % 128 == e.nextLps
            && row.lps / 128 == e.switchMps
  {
    UnpackPack(Entries(index));
  }

  lemma SuccessorParts(sv: State, next: State)
    ensures Successor(sv, next) % 128 == next % 128
    ensures Successor(sv, next) / 128 == if next / 128 == 0 then sv / 128 else 1 - sv / 128
  {
  }

  /** The three ways in which both sides leave a bin. */
  ghost predicate Moves(a: nat, row: Row, sv: State, bit: Bit, sv1: State) {
    if bit != sv / 128 then sv1 == Successor(sv, row.lps)
    else if a - row.qe < 0x8000 then sv1 == Successor(sv, row.mps)
    else sv1 == sv
  }

  lemma MovesEstimate(a: nat, index: nat, sv: State, bit: Bit, sv1: State)
    requires index == sv % 128 && Moves(a, JpegAritab()[index], sv, bit, sv1)
    ensures Estimates(sv, bit, bit != sv / 128 || a - Entries(index).qe < 0x8000, sv1)
  {
    var row := JpegAritab()[index];
    LineOf(index);
    SuccessorParts(sv, row.lps);
    SuccessorParts(sv, row.mps);
  }

  lemma NarrowMoves(e: ReadyEnc, row: Row, sv: State, bit: Bit)
    ensures Moves(e.a, row, sv, bit, EncCode(e, row, sv, bit).1)
  {
  }

  lemma DecideMoves(d: GoodDec, row: Row, sv: State)
    requires d.a >= 0x8000
    ensures var (d1, sv1, bit) := Decide(d, row, sv); Moves(d.a, row, sv, bit, sv1)
  {
  }

  lemma StoreAdapts(st: Stats, a: nat, d: Decision, sv1: State)
    requires st.tab == JpegAritab() && Moves(a, RowFor(st, d.bin), Stat(st, d.bin), d.bit, sv1)
    ensures Adapted(st, a, d, Store(st, d.bin, sv1))
  {
    MovesEstimate(a, Stat(st, d.bin) % 128, Stat(st, d.bin), d.bit, sv1);
  }

  lemma EncoderAdapts(e: ReadyEnc, st: Stats, d: Decision)
    requires st.tab == JpegAritab()
    ensures Adapted(st, e.a, d, EncStep(e, st, d).1)
  {
    var row, sv := RowFor(st, d.bin), Stat(st, d.bin);
    NarrowMoves(e, row, sv, d.bit);
    StoreAdapts(st, e.a, d, EncCode(e, row, sv, d.bit).1);
  }

  lemma DecoderAdapts(d: GoodDec, st: Stats, bin: Bin)
    requires st.tab == JpegAritab()
    ensures var (d1, st1, bit) := DecStep(d, st, bin);
            Adapted(st, Fill(d).a, Decision(bin, bit), st1)
  {
    var row, sv := RowFor(st, bin), Stat(st, bin);
    var (d1, sv1, bit) := DecCode(d, row, sv);
    DecideMoves(Fill(d), row, sv);
    StoreAdapts(st, Fill(d).a, Decision(bin, bit), sv1);
  }

  /** Until something is coded, a bin says that 0 is the MPS and stands at the first line of the
      table; fixed_bin stands at the last. */
  lemma FreshBins(tab: Table, b: Bin)
    ensures Stat(FreshStats(tab), b) == if b.FixedBin? then 113 else 0
  {
  }

  lemma LastLineStays(bit: Bit, renormalises: bool, sv1: State)
    requires Estimates(113, bit, renormalises, sv1)
    ensures sv1 == 113
  {
    assert Entries(113) == E(0x5a1d, 113, 113, 0);
  }

  lemma FixedBinKept(st: Stats, a: nat, d: Decision, st1: Stats)
    requires Adapted(st, a, d, st1) && Stat(st, FixedBin) == 113
    ensures st1.tab == st.tab && Stat(st1, FixedBin) == 113
  {
    if d.bin == FixedBin {
      LastLineStays(d.bit, d.bit != 0 || a - Entries(113).qe < 0x8000, Stat(st1, FixedBin));
    }
  }

  /** fixed_bin does not adapt: it gives both values the same probability throughout a segment. */
  lemma {:induction false} FixedBinStays(e: ReadyEnc, st: Stats, ds: seq<Decision>)
    requires st.tab == JpegAritab() && Stat(st, FixedBin) == 113
    ensures var (e1, st1) := EncRun(e, st, ds); st1.tab == JpegAritab() && Stat(st1, FixedBin) == 113
    decreases ds
  {
    if ds != [] {
      var (e1, st1) := EncStep(e, st, ds[0]);
      EncoderAdapts(e, st, ds[0]);
      FixedBinKept(st, e.a, ds[0], st1);
      FixedBinStays(e1, st1, ds[1..]);
    }
  }

  /** The sub-intervals of the two values share the coding interval, and the LPS never has the
      larger one (the conditional exchange of section D.1.4).  Without an exchange the LPS takes
      Qe at the top. */
  lemma SubIntervals(e: ReadyEnc, st: Stats, bin: Bin)
    requires st.tab == JpegAritab()
    ensures var sv := Stat(st, bin);
            var mps: Bit, qe := sv / 128, Entries(sv % 128).qe;
            var m := Narrow(e, RowFor(st, bin), sv, mps).0;
            var l := Narrow(e, RowFor(st, bin), sv, 1 - mps).0;
            && m.a + l.a == e.a && l.a <= m.a
            && (if 2 * qe <= e.a then l.a == qe && m.c == e.c && l.c == e.c + m.a
                else m.a == qe && l.c == e.c && m.c == e.c + l.a)
  {
    LineOf(Stat(st, bin) % 128);
  }
}
