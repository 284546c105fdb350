/** The Huffman tables of a scan: made for its symbols at the end of a gathering pass, and derived at
    the start of a pass of the encoder and of the decoder. */
module HuffmanScanTables {
  import opened ArithTable
  import opened ArithModel
  import opened HuffmanCodes
  import opened HuffmanDerived
  import opened HuffmanMerge
  import opened HuffmanLimit
  import opened HuffmanGenerate
  import opened HuffmanItems
  import opened HuffmanEncoder
  import opened HuffmanDecoder

  /** The table slots of the coder; those that are not defined hold nothing. */
  datatype Slots = Slots(dc: seq<Option<HuffTbl>>, ac: seq<Option<HuffTbl>>)

  type HuffSlots = s: Slots | |s.dc| == |s.ac| == NUM_HUFF_TBLS witness Slots([None, None, None, None], [None, None, None, None])

  /** A table without codes, for the slots that a scan does not use. */
  function NoCodes(): HuffTbl {
    TableInfo(seq(17, _ => 0), seq(256, _ => 0))
  }

  /** A component before n uses the table. */
  predicate DcUpTo(sc: HuffScan, n: nat, tbl: HuffNo)
    requires n <= sc.comps
  {
    CodesDc(sc) && exists ci :: 0 <= ci < n && sc.dcTbl[ci] == tbl
  }

  predicate AcUpTo(sc: HuffScan, n: nat, tbl: HuffNo)
    requires n <= sc.comps
  {
    sc.Last() != 0 && exists ci :: 0 <= ci < n && sc.acTbl[ci] == tbl
  }

  predicate NeedsDc(sc: HuffScan, tbl: HuffNo) {
    DcUpTo(sc, sc.comps, tbl)
  }

  predicate NeedsAc(sc: HuffScan, tbl: HuffNo) {
    AcUpTo(sc, sc.comps, tbl)
  }

  // ------------------------------------------------------------------ derived tables

  ghost predicate Accepted(t: HuffTbl, isDc: bool) {
    Legal(t.bits) && GoodSymbols(t, Total(t.bits), isDc)
  }

  ghost predicate Usable(o: Option<HuffTbl>, isDc: bool) {
    o.Some? && Accepted(o.value, isDc)
  }

  /** The tables that the scan needs are defined and legal. */
  ghost predicate AllAccepted(sc: HuffScan, s: HuffSlots) {
    && (forall i: HuffNo :: NeedsDc(sc, i) ==> Usable(s.dc[i], true))
    && forall i: HuffNo :: NeedsAc(sc, i) ==> Usable(s.ac[i], false)
  }

  /** The table that a scan finds in a slot. */
  function InUse(needed: bool, o: Option<HuffTbl>): HuffTbl {
    if needed && o.Some? then o.value else NoCodes()
  }

  function DcIn(sc: HuffScan, s: HuffSlots, tbl: HuffNo): HuffTbl {
    InUse(NeedsDc(sc, tbl), s.dc[tbl])
  }

  function AcIn(sc: HuffScan, s: HuffSlots, tbl: HuffNo): HuffTbl {
    InUse(NeedsAc(sc, tbl), s.ac[tbl])
  }

  /** c has been derived from the table. */
  ghost predicate Derived(c: CTable, t: HuffTbl) {
    Legal(t.bits) && Encodes(c, t, Total(t.bits))
  }

  /** t are the tables of the encoder for these slots. */
  ghost predicate Derives(t: Tables, sc: HuffScan, s: HuffSlots) {
    && AllAccepted(sc, s)
    && forall i: HuffNo :: Derived(t.dc[i], DcIn(sc, s, i)) && Derived(t.ac[i], AcIn(sc, s, i))
  }

  /** A slot of the encoder's tables, when it is known whether the components so far need it. */
  ghost predicate DerivedFor(c: CTable, o: Option<HuffTbl>, needed: bool, isDc: bool) {
    (needed ==> Usable(o, isDc)) && Derived(c, InUse(needed, o))
  }

  /** The same, as far as the components before n go (unfolded only on demand). */
  ghost predicate DerivesUpTo(t: Tables, sc: HuffScan, s: HuffSlots, n: nat)
    requires n <= sc.comps
  {
    forall i {:trigger DerivesSlots(t, sc, s, i)} :: i == n ==> DerivesSlots(t, sc, s, i)
  }

  ghost predicate DerivesSlots(t: Tables, sc: HuffScan, s: HuffSlots, n: nat) {
    n <= sc.comps
    && forall i: HuffNo :: DerivedFor(t.dc[i], s.dc[i], DcUpTo(sc, n, i), true) && DerivedFor(t.ac[i], s.ac[i], AcUpTo(sc, n, i), false)
  }

  function NothingDerived(): CTable {
    CTable(seq(256, _ => 0), seq(256, _ => 0))
  }

  lemma DerivesStarts(t: Tables, sc: HuffScan, s: HuffSlots)
    requires forall i: HuffNo :: t.dc[i] == t.ac[i] == NothingDerived()
    ensures DerivesUpTo(t, sc, s, 0)
  {
    NoCodesAccepted();
    assert DerivesSlots(t, sc, s, 0);
  }

  lemma OneComponentMore(sc: HuffScan, n: nat, i: HuffNo)
    requires n < sc.comps
    ensures DcUpTo(sc, n + 1, i) <==> DcUpTo(sc, n, i) || (CodesDc(sc) && sc.dcTbl[n] == i)
    ensures AcUpTo(sc, n + 1, i) <==> AcUpTo(sc, n, i) || (sc.Last() != 0 && sc.acTbl[n] == i)
  {
  }

  lemma DerivesStep(t: Tables, t1: Tables, sc: HuffScan, s: HuffSlots, n: nat, dc: HuffNo, ac: HuffNo)
    requires n < sc.comps && DerivesUpTo(t, sc, s, n) && dc == sc.dcTbl[n] && ac == sc.acTbl[n]
    requires if CodesDc(sc) then t1.dc == t.dc[dc := t1.dc[dc]] && DerivedFor(t1.dc[dc], s.dc[dc], true, true) else t1.dc == t.dc
    requires if sc.Last() != 0 then t1.ac == t.ac[ac := t1.ac[ac]] && DerivedFor(t1.ac[ac], s.ac[ac], true, false) else t1.ac == t.ac
    ensures DerivesUpTo(t1, sc, s, n + 1)
  {
    assert DerivesSlots(t, sc, s, n);
    forall i: HuffNo
      ensures DerivedFor(t1.dc[i], s.dc[i], DcUpTo(sc, n + 1, i), true)
      ensures DerivedFor(t1.ac[i], s.ac[i], AcUpTo(sc, n + 1, i), false)
    {
      OneComponentMore(sc, n, i);
      assert DerivedFor(t.dc[i], s.dc[i], DcUpTo(sc, n, i), true) && DerivedFor(t.ac[i], s.ac[i], AcUpTo(sc, n, i), false);
    }
    assert DerivesSlots(t1, sc, s, n + 1);
  }

  lemma AllDerived(t: Tables, sc: HuffScan, s: HuffSlots)
    requires DerivesUpTo(t, sc, s, sc.comps)
    ensures Derives(t, sc, s)
  {
    assert DerivesSlots(t, sc, s, sc.comps);
    forall i: HuffNo
      ensures DerivedFor(t.dc[i], s.dc[i], NeedsDc(sc, i), true) && DerivedFor(t.ac[i], s.ac[i], NeedsAc(sc, i), false)
    {
    }
  }

  /** The tables that component ci needs are usable. */
  ghost predicate ServesComponent(sc: HuffScan, s: HuffSlots, ci: nat)
    requires ci < sc.comps
  {
    && (CodesDc(sc) ==> Usable(s.dc[sc.dcTbl[ci]], true))
    && (sc.Last() != 0 ==> Usable(s.ac[sc.acTbl[ci]], false))
  }

  lemma ServesAll(sc: HuffScan, s: HuffSlots, ci: nat)
    requires ci < sc.comps
    ensures AllAccepted(sc, s) ==> ServesComponent(sc, s, ci)
  {
    assert CodesDc(sc) ==> NeedsDc(sc, sc.dcTbl[ci]);
    assert sc.Last() != 0 ==> NeedsAc(sc, sc.acTbl[ci]);
  }

  method DeriveEncoderTable(o: Option<HuffTbl>, isDc: bool) returns (r: Option<CTable>)
    ensures r.Some? <==> Usable(o, isDc)
    ensures r.Some? ==> DerivedFor(r.value, o, true, isDc)
  {
    r := None;
    if o.Some? {
      r := MakeCDerivedTbl(o.value, isDc);
    }
  }

  /** The tables of one component. */
  method DeriveForComponent(sc: HuffScan, s: HuffSlots, ci: nat, t: Tables) returns (ok: bool, t1: Tables)
    requires ci < sc.comps && DerivesUpTo(t, sc, s, ci)
    ensures ServesComponent(sc, s, ci) ==> ok
    ensures ok ==> DerivesUpTo(t1, sc, s, ci + 1)
  {
    ok, t1 := true, t;
    var dc: HuffNo, ac: HuffNo := sc.dcTbl[ci], sc.acTbl[ci];
    if CodesDc(sc) {
      var d := DeriveEncoderTable(s.dc[dc], true);
      ok := d.Some?;
      if ok {
        t1 := t1.(dc := t1.dc[dc := d.value]);
      }
    }
    if ok && sc.Last() != 0 {
      var a := DeriveEncoderTable(s.ac[ac], false);
      ok := a.Some?;
      if ok {
        t1 := t1.(ac := t1.ac[ac := a.value]);
      }
    }
    if ok {
      DerivesStep(t, t1, sc, s, ci, dc, ac);
    }
  }

  /** start_pass_huff: the tables that the components use are derived, some perhaps more than once. */
  method DeriveEncoderTables(sc: HuffScan, s: HuffSlots) returns (r: Option<Tables>)
    ensures r.Some? <==> AllAccepted(sc, s)
    ensures r.Some? ==> Derives(r.value, sc, s)
  {
    var none := seq(NUM_HUFF_TBLS, _ => NothingDerived());
    var t: Tables := TableSet(none, none);
    DerivesStarts(t, sc, s);
    for ci := 0 to sc.comps
      invariant DerivesUpTo(t, sc, s, ci)
    {
      var ok;
      ServesAll(sc, s, ci);
      ok, t := DeriveForComponent(sc, s, ci, t);
      if !ok {
        return None;
      }
    }
    AllDerived(t, sc, s);
    r := Some(t);
  }

  /** The decoder's tables. */
  datatype DecoderTables = DecoderTables(dc: seq<DTable>, ac: seq<DTable>)

  ghost predicate SoundFor(d: DTable, t: HuffTbl, isDc: bool) {
    Sound(d) && (isDc ==> SoundDc(d)) && d.pub == t
  }

  /** They are derived from the slots that the components before n use (unfolded only on demand). */
  ghost predicate SoundUpTo(d: DecoderTables, sc: HuffScan, s: HuffSlots, n: nat) {
    forall i {:trigger SoundSlots(d, sc, s, i)} :: i == n ==> SoundSlots(d, sc, s, i)
  }

  ghost predicate SoundSlots(d: DecoderTables, sc: HuffScan, s: HuffSlots, n: nat) {
    n <= sc.comps && |d.dc| == |d.ac| == NUM_HUFF_TBLS
    && forall i: HuffNo :: SoundFor(d.dc[i], InUse(DcUpTo(sc, n, i), s.dc[i]), true)
                           && SoundFor(d.ac[i], InUse(AcUpTo(sc, n, i), s.ac[i]), false)
  }

  lemma SoundStep(d: DecoderTables, d1: DecoderTables, sc: HuffScan, s: HuffSlots, n: nat, dc: HuffNo, ac: HuffNo)
    requires n < sc.comps && SoundUpTo(d, sc, s, n) && dc == sc.dcTbl[n] && ac == sc.acTbl[n]
    requires |d1.dc| == |d.dc| == |d1.ac| == |d.ac| == NUM_HUFF_TBLS
    requires if CodesDc(sc) then d1.dc == d.dc[dc := d1.dc[dc]] && s.dc[dc].Some? && SoundFor(d1.dc[dc], s.dc[dc].value, true)
             else d1.dc == d.dc
    requires if sc.Last() != 0 then d1.ac == d.ac[ac := d1.ac[ac]] && s.ac[ac].Some? && SoundFor(d1.ac[ac], s.ac[ac].value, false)
             else d1.ac == d.ac
    ensures SoundUpTo(d1, sc, s, n + 1)
  {
    assert SoundSlots(d, sc, s, n);
    forall i: HuffNo
      ensures SoundFor(d1.dc[i], InUse(DcUpTo(sc, n + 1, i), s.dc[i]), true)
      ensures SoundFor(d1.ac[i], InUse(AcUpTo(sc, n + 1, i), s.ac[i]), false)
    {
      OneComponentMore(sc, n, i);
      assert SoundFor(d.dc[i], InUse(DcUpTo(sc, n, i), s.dc[i]), true) && SoundFor(d.ac[i], InUse(AcUpTo(sc, n, i), s.ac[i]), false);
    }
    assert SoundSlots(d1, sc, s, n + 1);
  }

  method DeriveDecoderTable(o: Option<HuffTbl>, isDc: bool) returns (r: Option<DTable>)
    ensures Usable(o, isDc) ==> r.Some?
    ensures r.Some? ==> o.Some? && SoundFor(r.value, o.value, isDc)
  {
    r := None;
    if o.Some? {
      r := MakeDDerivedTbl(o.value, isDc);
    }
  }

  /** The tables of one component. */
  method DecodeTablesFor(sc: HuffScan, s: HuffSlots, ci: nat, d: DecoderTables) returns (ok: bool, d1: DecoderTables)
    requires ci < sc.comps && SoundUpTo(d, sc, s, ci) && |d.dc| == |d.ac| == NUM_HUFF_TBLS
    ensures ServesComponent(sc, s, ci) ==> ok
    ensures ok ==> |d1.dc| == |d1.ac| == NUM_HUFF_TBLS && SoundUpTo(d1, sc, s, ci + 1)
  {
    ok, d1 := true, d;
    var dc: HuffNo, ac: HuffNo := sc.dcTbl[ci], sc.acTbl[ci];
    if CodesDc(sc) {
      var t := DeriveDecoderTable(s.dc[dc], true);
      ok := t.Some?;
      if ok {
        d1 := d1.(dc := d1.dc[dc := t.value]);
      }
    }
    if ok && sc.Last() != 0 {
      var t := DeriveDecoderTable(s.ac[ac], false);
      ok := t.Some?;
      if ok {
        d1 := d1.(ac := d1.ac[ac := t.value]);
      }
    }
    if ok {
      SoundStep(d, d1, sc, s, ci, dc, ac);
    }
  }

  /** start_pass_huff_decoder: the tables that the components use; the others get no codes. */
  method DeriveDecoderTables(sc: HuffScan, s: HuffSlots) returns (ok: bool, d: DecoderTables)
    ensures AllAccepted(sc, s) ==> ok
    ensures ok ==> |d.dc| == |d.ac| == NUM_HUFF_TBLS && SoundUpTo(d, sc, s, sc.comps)
  {
    NoCodesAccepted();
    var none := MakeDDerivedTbl(NoCodes(), true);
    d := DecoderTables(seq(NUM_HUFF_TBLS, _ => none.value), seq(NUM_HUFF_TBLS, _ => none.value));
    ok := true;
    assert SoundFor(none.value, NoCodes(), true);
    assert SoundSlots(d, sc, s, 0);
    for ci := 0 to sc.comps
      invariant |d.dc| == |d.ac| == NUM_HUFF_TBLS && SoundUpTo(d, sc, s, ci)
    {
      ServesAll(sc, s, ci);
      ok, d := DecodeTablesFor(sc, s, ci, d);
      if !ok {
        return;
      }
    }
  }

  lemma BothInverted(t: Tables, sc: HuffScan, s: HuffSlots, d: DecoderTables, i: HuffNo)
    requires Derives(t, sc, s) && |d.dc| == |d.ac| == NUM_HUFF_TBLS && SoundUpTo(d, sc, s, sc.comps)
    ensures Inverts(d.dc[i], t.dc[i]) && Inverts(d.ac[i], t.ac[i]) && SoundDc(d.dc[i]) && Sound(d.ac[i])
  {
    assert SoundSlots(d, sc, s, sc.comps);
    assert SoundFor(d.dc[i], DcIn(sc, s, i), true) && SoundFor(d.ac[i], AcIn(sc, s, i), false);
  }

  lemma NoCodesAccepted()
    ensures Accepted(NoCodes(), true) && Accepted(NoCodes(), false) && Derived(NothingDerived(), NoCodes())
  {
    NothingUpTo(NoCodes().bits, 17);
  }

  lemma {:induction false} NothingUpTo(b: Lengths, m: nat)
    requires m <= 17 && forall l :: 0 <= l < 17 ==> b[l] == 0
    ensures First(b, m) == 0 && LegalUpTo(b, m) && (m >= 1 ==> MinCode(b, m) == 0)
  {
    if m >= 1 {
      NothingUpTo(b, m - 1);
    }
  }

  /** No code is longer than 16 bits. */
  lemma CodesAreShort(t: Tables, sc: HuffScan, s: HuffSlots)
    requires Derives(t, sc, s)
    ensures ShortCodes(t)
  {
    forall it: Item | !it.Extra?
      ensures ItemSize(t, it) <= 16
    {
      match it {
        case DcSym(tbl, sym) => CodeIsShort(t.dc[tbl], DcIn(sc, s, tbl), sym);
        case AcSym(tbl, sym) => CodeIsShort(t.ac[tbl], AcIn(sc, s, tbl), sym);
        case Extra(_, _) =>
      }
    }
  }

  lemma CodeIsShort(c: CTable, t: HuffTbl, sym: Byte)
    requires Derived(c, t)
    ensures c.ehufsi[sym] <= 16
  {
    if c.ehufsi[sym] != 0 {
      var p :| 0 <= p < |t.vals[..Total(t.bits)]| && t.vals[..Total(t.bits)][p] == sym;
      assert HasLength(t.bits, p, Size(t.bits, p));
    }
  }

  // ------------------------------------------------------------------ tables from counts

  /** A symbol of DC table or AC table `tbl`. */
  function Sym(isDc: bool, tbl: HuffNo, s: Byte): Item {
    if isDc then DcSym(tbl, s) else AcSym(tbl, s)
  }

  predicate HasSym(its: seq<Item>, isDc: bool, tbl: HuffNo) {
    exists s: Byte :: Sym(isDc, tbl, s) in its
  }

  predicate OfTable(it: Item, isDc: bool, tbl: HuffNo) {
    (it.DcSym? && isDc && it.tbl == tbl) || (it.AcSym? && !isDc && it.tbl == tbl)
  }

  /** How many symbols of the table occur. */
  function Tally(its: seq<Item>, isDc: bool, tbl: HuffNo): nat {
    if its == [] then 0
    else Tally(its[..|its| - 1], isDc, tbl) + if OfTable(its[|its| - 1], isDc, tbl) then 1 else 0
  }

  /** The frequencies of the symbols of the table, and no pseudo-symbol yet. */
  function Frequencies(m: multiset<Item>, isDc: bool, tbl: HuffNo): (f: seq<nat>)
    ensures |f| == PSEUDO + 1
  {
    seq(PSEUDO + 1, s requires 0 <= s < PSEUDO + 1 => if s < PSEUDO then m[Sym(isDc, tbl, s)] else 0)
  }

  lemma {:induction false} SumNone(f: seq<nat>, n: nat)
    requires n <= |f| && forall i :: 0 <= i < n ==> f[i] == 0
    ensures Sum(f, n) == 0
  {
    if n != 0 {
      SumNone(f, n - 1);
    }
  }

  /** The frequencies add up to the number of symbols. */
  lemma {:induction false} FrequenciesAddUp(its: seq<Item>, isDc: bool, tbl: HuffNo)
    ensures Sum(Frequencies(multiset(its), isDc, tbl), PSEUDO) == Tally(its, isDc, tbl)
  {
    if its == [] {
      SumNone(Frequencies(multiset(its), isDc, tbl), PSEUDO);
    } else {
      var n := |its| - 1;
      FrequenciesAddUp(its[..n], isDc, tbl);
      assert its == its[..n] + [its[n]];
      var f, g := Frequencies(multiset(its[..n]), isDc, tbl), Frequencies(multiset(its), isDc, tbl);
      if OfTable(its[n], isDc, tbl) {
        assert g == f[its[n].sym := f[its[n].sym] + 1];
        SumAdd(f, its[n].sym, 1, PSEUDO);
      } else {
        assert g == f;
      }
    }
  }

  lemma {:induction false} ActiveWithout(f: seq<nat>, n: nat, a: nat, b: nat)
    requires n <= |f| && a < b < |f| && f[a] == f[b] == 0
    ensures Active(f, n) + (if a < n then 1 else 0) + (if b < n then 1 else 0) <= n
  {
    if n != 0 {
      ActiveWithout(f, n - 1, a, b);
    }
  }

  lemma {:induction false} ActiveWith(f: seq<nat>, n: nat, a: nat)
    requires a < n <= |f| && f[a] != 0
    ensures Active(f, n) >= 1
  {
    if a < n - 1 {
      ActiveWith(f, n - 1, a);
    }
  }

  /** Symbols 15 and 31 do not occur, so that at least two of the 256 are not used. */
  lemma UsableCounts(its: seq<Item>, isDc: bool, tbl: HuffNo)
    requires AllUsable(its) && HasSym(its, isDc, tbl)
    ensures 1 <= Active(Frequencies(multiset(its), isDc, tbl), PSEUDO) <= 254
  {
    var f := Frequencies(multiset(its), isDc, tbl);
    NotUsed(its, isDc, tbl, 15);
    NotUsed(its, isDc, tbl, 31);
    ActiveWithout(f, PSEUDO, 15, 31);
    var s: Byte :| Sym(isDc, tbl, s) in its;
    ActiveWith(f, PSEUDO, s);
  }

  lemma NotUsed(its: seq<Item>, isDc: bool, tbl: HuffNo, s: Byte)
    requires AllUsable(its) && (s == 15 || s == 31)
    ensures Frequencies(multiset(its), isDc, tbl)[s] == 0
  {
    if Sym(isDc, tbl, s) in its {
      EachUsable(its, Sym(isDc, tbl, s));
    }
  }

  /** The counts of the table with the pseudo-symbol. */
  function WithPseudo(m: multiset<Item>, isDc: bool, tbl: HuffNo): seq<nat> {
    Frequencies(m, isDc, tbl)[PSEUDO := 1]
  }

  /** Huffman's procedure gives some symbol of these counts a code of more than MAX_CLEN bits; then there
      are at least as many of them as a Fibonacci tree of that depth has. */
  ghost predicate Overflows(its: seq<Item>, isDc: bool, tbl: HuffNo) {
    && Tally(its, isDc, tbl) + 1 >= Fib(MAX_CLEN + 3)
    && exists cs: seq<nat>, top: nat :: OptimalLengths(WithPseudo(multiset(its), isDc, tbl), cs, top) && SomeLong(cs)
  }

  /** However Huffman's procedure breaks ties, it gives some symbol of these counts such a code. */
  ghost predicate MustOverflow(its: seq<Item>, isDc: bool, tbl: HuffNo) {
    AlwaysLong(WithPseudo(multiset(its), isDc, tbl))
  }

  ghost predicate AlwaysLong(f: seq<nat>) {
    forall cs: seq<nat>, top: nat :: OptimalLengths(f, cs, top) ==> SomeLong(cs)
  }

  predicate SomeLong(cs: seq<nat>) {
    exists s :: 0 <= s < |cs| && cs[s] > MAX_CLEN
  }

  /** Less symbols than this never overflow. */
  lemma FewNeverOverflow(its: seq<Item>, isDc: bool, tbl: HuffNo)
    requires Tally(its, isDc, tbl) < 9227464
    ensures !Overflows(its, isDc, tbl)
  {
    FibOfOverflow();
  }

  lemma FibOfOverflow()
    ensures Fib(MAX_CLEN + 3) == 9227465
  {
    assert Fib(8) == 21 && Fib(9) == 34;
    assert Fib(16) == 987 && Fib(17) == 1597;
    assert Fib(24) == 46368 && Fib(25) == 75025;
  }

  /** The counters of the table hold the counts in m, and there is room for the pseudo-symbol. */
  ghost predicate RowHolds(counts: SymbolCounts, m: multiset<Item>, isDc: bool, tbl: HuffNo)
    reads counts.dc, counts.ac
  {
    && counts.dc != counts.ac
    && counts.dc.Length0 == counts.ac.Length0 == NUM_HUFF_TBLS && counts.dc.Length1 == counts.ac.Length1 == PSEUDO + 1
    && forall s: Byte :: (if isDc then counts.dc[tbl, s] else counts.ac[tbl, s]) == m[Sym(isDc, tbl, s)]
  }

  /** The counters of a table become what is left of the frequencies. */
  method WriteBack(counts: SymbolCounts, isDc: bool, tbl: HuffNo, freq: array<nat>)
    requires freq.Length == PSEUDO + 1 && counts.dc != counts.ac
    requires counts.dc.Length0 == counts.ac.Length0 == NUM_HUFF_TBLS && counts.dc.Length1 == counts.ac.Length1 == PSEUDO + 1
    modifies counts.dc, counts.ac
    ensures forall i: HuffNo, s: Byte :: isDc || i != tbl ==> counts.ac[i, s] == old(counts.ac[i, s])
    ensures forall i: HuffNo, s: Byte :: !isDc || i != tbl ==> counts.dc[i, s] == old(counts.dc[i, s])
  {
    for s := 0 to PSEUDO + 1
      invariant forall i: HuffNo, s: Byte :: isDc || i != tbl ==> counts.ac[i, s] == old(counts.ac[i, s])
      invariant forall i: HuffNo, s: Byte :: !isDc || i != tbl ==> counts.dc[i, s] == old(counts.dc[i, s])
    {
      if isDc {
        counts.dc[tbl, s] := freq[s];
      } else {
        counts.ac[tbl, s] := freq[s];
      }
    }
  }

  /** jpeg_gen_optimal_table on the counts of a table that is in use: unless a length overflows, the table
      is accepted by both sides, and it has a code for every symbol that has been counted.  It works on the
      counters themselves, and does not leave the counts in them. */
  method Optimize(counts: SymbolCounts, isDc: bool, tbl: HuffNo) returns (g: Generated)
    requires RowHolds(counts, multiset(counts.seen), isDc, tbl) && AllUsable(counts.seen) && HasSym(counts.seen, isDc, tbl)
    requires Tally(counts.seen, isDc, tbl) < MAX_WEIGHT
    modifies counts.dc, counts.ac
    ensures forall m, d, i: HuffNo {:trigger RowHolds(counts, m, d, i)} ::
              (d != isDc || i != tbl) && old(RowHolds(counts, m, d, i)) ==> RowHolds(counts, m, d, i)
    ensures g.LengthOverflow? ==> Overflows(counts.seen, isDc, tbl)
    ensures MustOverflow(counts.seen, isDc, tbl) ==> g.LengthOverflow?
    ensures g.Generated? ==> Accepted(g.table, isDc) && OptimalFor(g.table, WithPseudo(multiset(counts.seen), isDc, tbl))
    ensures g.Generated? ==> forall s: Byte :: Sym(isDc, tbl, s) in counts.seen ==>
              s in g.table.vals[..Total(g.table.bits)]
  {
    ghost var seen := counts.seen;
    var freq := new nat[PSEUDO + 1](_ => 0);
    for s := 0 to PSEUDO
      invariant freq[PSEUDO] == 0 && unchanged(counts.dc) && unchanged(counts.ac)
      invariant forall i :: 0 <= i < s ==> freq[i] == multiset(seen)[Sym(isDc, tbl, i)]
    {
      freq[s] := if isDc then counts.dc[tbl, s] else counts.ac[tbl, s];
    }
    assert freq[..] == Frequencies(multiset(seen), isDc, tbl);
    g := OptimizeFrequencies(freq, seen, isDc, tbl);
    WriteBack(counts, isDc, tbl, freq);
    forall m, d, i: HuffNo | (d != isDc || i != tbl) && old(RowHolds(counts, m, d, i))
      ensures RowHolds(counts, m, d, i)
    {
    }
  }

  method OptimizeFrequencies(freq: array<nat>, ghost seen: seq<Item>, isDc: bool, tbl: HuffNo) returns (g: Generated)
    requires freq.Length == PSEUDO + 1 && freq[..] == Frequencies(multiset(seen), isDc, tbl)
    requires AllUsable(seen) && HasSym(seen, isDc, tbl) && Tally(seen, isDc, tbl) < MAX_WEIGHT
    modifies freq
    ensures g.LengthOverflow? ==> Overflows(seen, isDc, tbl)
    ensures MustOverflow(seen, isDc, tbl) ==> g.LengthOverflow?
    ensures g.Generated? ==> Accepted(g.table, isDc) && OptimalFor(g.table, WithPseudo(multiset(seen), isDc, tbl))
    ensures g.Generated? ==> forall s: Byte :: Sym(isDc, tbl, s) in seen ==> s in g.table.vals[..Total(g.table.bits)]
  {
    ghost var f := freq[..];
    UsableCounts(seen, isDc, tbl);
    FrequenciesAddUp(seen, isDc, tbl);
    ghost var cs, top;
    g, cs, top := GenOptimalTable(freq);
    assert f[PSEUDO := 1] == WithPseudo(multiset(seen), isDc, tbl);
    assert g.LengthOverflow? <==> SomeLong(cs);
    if g.Generated? {
      assert MadeBy(g.table, WithPseudo(multiset(seen), isDc, tbl), cs, top);
      GeneratedFits(seen, isDc, tbl, f[PSEUDO := 1], g.table, cs);
    }
  }

  lemma GeneratedFits(its: seq<Item>, isDc: bool, tbl: HuffNo, f: seq<nat>, t: HuffTbl, cs: seq<nat>)
    requires AllUsable(its) && f == Frequencies(multiset(its), isDc, tbl)[PSEUDO := 1]
    requires |cs| == PSEUDO + 1 && TableOf(t, f, cs)
    ensures Accepted(t, isDc)
    ensures forall s: Byte :: Sym(isDc, tbl, s) in its ==> s in t.vals[..Total(t.bits)]
  {
    if isDc {
      forall s: Byte | f[s] != 0
        ensures s <= 15
      {
        assert Sym(isDc, tbl, s) in its;
        EachUsable(its, Sym(isDc, tbl, s));
      }
    }
    TableAccepted(t, f, cs, isDc);
    forall s: Byte | Sym(isDc, tbl, s) in its
      ensures s in t.vals[..Total(t.bits)]
    {
      assert f[s] != 0;
    }
  }

  // ------------------------------------------------------------------ the end of a gathering pass

  /** The table has a code for each of these symbols. */
  ghost predicate Covers(t: HuffTbl, its: seq<Item>, isDc: bool, tbl: HuffNo) {
    Legal(t.bits) && forall s: Byte :: Sym(isDc, tbl, s) in its ==> s in t.vals[..Total(t.bits)]
  }

  /** The table has been made for these symbols, none of which had to get too long a code: it comes from an
      optimal code for their numbers. */
  ghost predicate Made(o: Option<HuffTbl>, its: seq<Item>, isDc: bool, tbl: HuffNo) {
    && Usable(o, isDc) && Covers(o.value, its, isDc, tbl) && !MustOverflow(its, isDc, tbl)
    && OptimalFor(o.value, WithPseudo(multiset(its), isDc, tbl))
  }

  /** The tables that the scan needs have been made, and the other slots are as they were. */
  ghost predicate MadeFor(sc: HuffScan, s0: HuffSlots, s: HuffSlots, its: seq<Item>) {
    && (forall i: HuffNo :: if NeedsDc(sc, i) then Made(s.dc[i], its, true, i) else s.dc[i] == s0.dc[i])
    && forall i: HuffNo :: if NeedsAc(sc, i) then Made(s.ac[i], its, false, i) else s.ac[i] == s0.ac[i]
  }

  /** The tables that component ci needs are in use, and the counts are not too large. */
  ghost predicate Makeable(sc: HuffScan, its: seq<Item>, ci: Component) {
    && (CodesDc(sc) ==> HasSym(its, true, sc.dcTbl[ci]) && Tally(its, true, sc.dcTbl[ci]) < MAX_WEIGHT)
    && (sc.Last() != 0 ==> HasSym(its, false, sc.acTbl[ci]) && Tally(its, false, sc.acTbl[ci]) < MAX_WEIGHT)
  }

  /** A table that component ci needs overflows. */
  ghost predicate OverflowsFor(sc: HuffScan, its: seq<Item>, ci: Component) {
    || (CodesDc(sc) && Overflows(its, true, sc.dcTbl[ci]))
    || (sc.Last() != 0 && Overflows(its, false, sc.acTbl[ci]))
  }

  ghost predicate SomeOverflow(sc: HuffScan, its: seq<Item>) {
    exists ci: Component :: ci < sc.comps && OverflowsFor(sc, its, ci)
  }

  /** A table that the scan needs cannot but overflow. */
  ghost predicate SomeMustOverflow(sc: HuffScan, its: seq<Item>) {
    || (exists i: HuffNo :: NeedsDc(sc, i) && MustOverflow(its, true, i))
    || exists i: HuffNo :: NeedsAc(sc, i) && MustOverflow(its, false, i)
  }

  /** finish_pass_gather: each table that the components use is generated once, which is all that its counters
      can be used for, and replaces what was in its slot.  It fails only if an optimal code is too long, and
      surely if each is. */
  method FinishGather(scan: HuffScan, counts: SymbolCounts, slots: HuffSlots) returns (r: Option<HuffSlots>)
    requires counts.Valid() && AllUsable(counts.seen)
    requires forall ci: Component :: ci < scan.comps ==> Makeable(scan, counts.seen, ci)
    modifies counts.dc, counts.ac
    ensures r.Some? ==> MadeFor(scan, slots, r.value, counts.seen)
    ensures r.None? ==> SomeOverflow(scan, counts.seen)
    ensures SomeMustOverflow(scan, counts.seen) ==> r.None?
  {
    var w := Work(slots, [false, false, false, false], [false, false, false, false]);
    ghost var seen := counts.seen;
    NothingMade(scan, slots, w, seen);
    assert counts.Matches(multiset(seen));
    for ci := 0 to scan.comps
      invariant WorkOk(w, slots, seen) && DidUpTo(scan, ci, w) && RowsIntact(counts, w)
    {
      var ok;
      ok, w := MakeTables(scan, counts, ci, slots, w);
      if !ok {
        return None;
      }
    }
    AllMade(scan, slots, w, seen);
    r := Some(w.slots);
  }

  lemma NothingMade(sc: HuffScan, s0: HuffSlots, w: Work, its: seq<Item>)
    requires w.slots == s0 && forall i: HuffNo :: !w.didDc[i] && !w.didAc[i]
    ensures WorkOk(w, s0, its) && DidUpTo(sc, 0, w)
  {
    assert WorkOkNow(w, s0, its);
  }

  /** The counters of the tables that have not been made still hold the counts. */
  ghost predicate RowsIntact(counts: SymbolCounts, w: Work)
    reads counts, counts.dc, counts.ac
  {
    && (forall i: HuffNo :: !w.didDc[i] ==> RowHolds(counts, multiset(counts.seen), true, i))
    && forall i: HuffNo :: !w.didAc[i] ==> RowHolds(counts, multiset(counts.seen), false, i)
  }

  /** The tables of one component. */
  method MakeTables(scan: HuffScan, counts: SymbolCounts, ci: nat, ghost s0: HuffSlots, w0: Work) returns (ok: bool, w: Work)
    requires RowsIntact(counts, w0) && AllUsable(counts.seen) && WorkOk(w0, s0, counts.seen)
    requires ci < scan.comps && DidUpTo(scan, ci, w0) && Makeable(scan, counts.seen, ci)
    modifies counts.dc, counts.ac
    ensures ok ==> WorkOk(w, s0, counts.seen) && DidUpTo(scan, ci + 1, w) && RowsIntact(counts, w)
    ensures !ok ==> SomeOverflow(scan, counts.seen)
  {
    ok, w := true, w0;
    if CodesDc(scan) {
      ok, w := MakeTable(counts, true, scan.dcTbl[ci], s0, w);
    }
    if ok && scan.Last() != 0 {
      ok, w := MakeTable(counts, false, scan.acTbl[ci], s0, w);
    }
    if ok {
      OneMore(scan, ci, w0, w);
    } else {
      assert OverflowsFor(scan, counts.seen, ci);
    }
  }

  /** The flags say which tables the components before n use. */
  ghost predicate DidUpTo(sc: HuffScan, n: nat, w: Work)
    requires n <= sc.comps
  {
    forall i: HuffNo :: (w.didDc[i] <==> DcUpTo(sc, n, i)) && (w.didAc[i] <==> AcUpTo(sc, n, i))
  }

  lemma AllMade(sc: HuffScan, s0: HuffSlots, w: Work, its: seq<Item>)
    requires WorkOk(w, s0, its) && DidUpTo(sc, sc.comps, w)
    ensures MadeFor(sc, s0, w.slots, its) && !SomeMustOverflow(sc, its)
  {
    assert WorkOkNow(w, s0, its);
  }

  lemma OneMore(sc: HuffScan, ci: nat, w0: Work, w: Work)
    requires ci < sc.comps && DidUpTo(sc, ci, w0)
    requires w.didDc == if CodesDc(sc) then w0.didDc[sc.dcTbl[ci] := true] else w0.didDc
    requires w.didAc == if sc.Last() != 0 then w0.didAc[sc.acTbl[ci] := true] else w0.didAc
    ensures DidUpTo(sc, ci + 1, w)
  {
    forall i: HuffNo
      ensures (w.didDc[i] <==> DcUpTo(sc, ci + 1, i)) && (w.didAc[i] <==> AcUpTo(sc, ci + 1, i))
    {
      OneComponentMore(sc, ci, i);
    }
  }

  /** The slots, and the tables that have been made. */
  datatype Work = Work(slots: HuffSlots, didDc: Flags, didAc: Flags)

  type Flags = f: seq<bool> | |f| == NUM_HUFF_TBLS witness [false, false, false, false]

  /** The tables that have been made are right (unfolded only on demand). */
  ghost predicate WorkOk(w: Work, s0: HuffSlots, its: seq<Item>) {
    forall i {:trigger WorkOkNow(w, s0, i)} :: i == its ==> WorkOkNow(w, s0, i)
  }

  ghost predicate WorkOkNow(w: Work, s0: HuffSlots, its: seq<Item>) {
    && (forall i: HuffNo :: if w.didDc[i] then Made(w.slots.dc[i], its, true, i) else w.slots.dc[i] == s0.dc[i])
    && forall i: HuffNo :: if w.didAc[i] then Made(w.slots.ac[i], its, false, i) else w.slots.ac[i] == s0.ac[i]
  }

  /** A table is made unless that has been done for another component. */
  method MakeTable(counts: SymbolCounts, isDc: bool, tbl: HuffNo, ghost s0: HuffSlots, w0: Work) returns (ok: bool, w: Work)
    requires RowsIntact(counts, w0) && AllUsable(counts.seen) && WorkOk(w0, s0, counts.seen)
    requires HasSym(counts.seen, isDc, tbl) && Tally(counts.seen, isDc, tbl) < MAX_WEIGHT
    modifies counts.dc, counts.ac
    ensures ok ==> RowsIntact(counts, w)
    ensures !ok ==> Overflows(counts.seen, isDc, tbl)
    ensures MustOverflow(counts.seen, isDc, tbl) ==> !ok
    ensures ok ==> WorkOk(w, s0, counts.seen)
    ensures ok ==> w.didDc == if isDc then w0.didDc[tbl := true] else w0.didDc
    ensures ok ==> w.didAc == if isDc then w0.didAc else w0.didAc[tbl := true]
  {
    ok, w := true, w0;
    ghost var seen := counts.seen;
    if if isDc then w.didDc[tbl] else w.didAc[tbl] {
      AlreadyMade(w, s0, seen, isDc, tbl);
    } else {
      var g := Optimize(counts, isDc, tbl);
      ok := g.Generated?;
      if ok {
        w := WithTable(w0, isDc, tbl, g.table);
        TableAdded(w0, s0, seen, isDc, tbl, g.table);
      }
    }
  }

  function WithTable(w: Work, isDc: bool, tbl: HuffNo, t: HuffTbl): Work {
    if isDc then Work(w.slots.(dc := w.slots.dc[tbl := Some(t)]), w.didDc[tbl := true], w.didAc)
    else Work(w.slots.(ac := w.slots.ac[tbl := Some(t)]), w.didDc, w.didAc[tbl := true])
  }

  lemma TableAdded(w: Work, s0: HuffSlots, its: seq<Item>, isDc: bool, tbl: HuffNo, t: HuffTbl)
    requires WorkOk(w, s0, its) && Made(Some(t), its, isDc, tbl)
    ensures WorkOk(WithTable(w, isDc, tbl, t), s0, its)
  {
    assert WorkOkNow(w, s0, its);
    assert WorkOkNow(WithTable(w, isDc, tbl, t), s0, its);
  }

  lemma AlreadyMade(w: Work, s0: HuffSlots, its: seq<Item>, isDc: bool, tbl: HuffNo)
    requires WorkOk(w, s0, its) && if isDc then w.didDc[tbl] else w.didAc[tbl]
    ensures !MustOverflow(its, isDc, tbl)
    ensures if isDc then w.didDc == w.didDc[tbl := true] else w.didAc == w.didAc[tbl := true]
  {
    assert WorkOkNow(w, s0, its);
  }

  /** The tables that the scan needs list the symbol. */
  predicate Lists(sc: HuffScan, s: HuffSlots, it: Item) {
    match it
    case DcSym(tbl, sym) => ListsSym(DcIn(sc, s, tbl), sym)
    case AcSym(tbl, sym) => ListsSym(AcIn(sc, s, tbl), sym)
    case Extra(_, _) => true
  }

  predicate ListsSym(t: HuffTbl, sym: Byte) {
    Total(t.bits) <= 256 && sym in t.vals[..Total(t.bits)]
  }

  lemma ListedHasCode(c: CTable, t: HuffTbl, sym: Byte)
    requires Derived(c, t)
    ensures c.ehufsi[sym] != 0 <==> ListsSym(t, sym)
  {
    if sym in t.vals[..Total(t.bits)] {
      var p :| 0 <= p < |t.vals[..Total(t.bits)]| && t.vals[..Total(t.bits)][p] == sym;
      assert HasLength(t.bits, p, Size(t.bits, p));
    }
  }

  /** Derived tables have codes for the items exactly if the tables list all their symbols. */
  lemma HaveCodesListed(t: Tables, sc: HuffScan, s: HuffSlots, its: seq<Item>)
    requires Derives(t, sc, s)
    ensures HaveCodes(t, its) <==> forall i :: 0 <= i < |its| ==> Lists(sc, s, its[i])
  {
    HaveCodesAll(t, its);
    forall i | 0 <= i < |its|
      ensures HasCode(t, its[i]) <==> Lists(sc, s, its[i])
    {
      match its[i] {
        case DcSym(tbl, sym) => ListedHasCode(t.dc[tbl], DcIn(sc, s, tbl), sym);
        case AcSym(tbl, sym) => ListedHasCode(t.ac[tbl], AcIn(sc, s, tbl), sym);
        case Extra(_, _) =>
      }
    }
  }
}
