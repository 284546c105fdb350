/** What the Huffman encoder codes: symbols and extra bits, for each kind of scan (sections F.1.2 and
    G.1.2 of ITU-T T.81), independently of the tables. */
module HuffmanItems {
  import opened ArithTable
  import opened ArithModel
  import opened PointTransform
  import opened HuffmanCodes
  import opened HuffmanDerived

  const NUM_HUFF_TBLS := 4

  type HuffNo = x: nat | x < NUM_HUFF_TBLS

  /** A Huffman symbol of a DC or AC table, or the n low bits of a number. */
  datatype Item = DcSym(tbl: HuffNo, sym: Byte) | AcSym(tbl: HuffNo, sym: Byte) | Extra(v: nat, n: nat)

  /** The derived tables for DC and AC. */
  datatype TableSet = TableSet(dc: seq<CTable>, ac: seq<CTable>)

  type Tables = t: TableSet | |t.dc| == |t.ac| == NUM_HUFF_TBLS
    witness TableSet(seq(4, _ => CTable(seq(256, _ => 0), seq(256, _ => 0))),
                     seq(4, _ => CTable(seq(256, _ => 0), seq(256, _ => 0))))

  function CodeBits(c: CTable, sym: Byte): seq<Bit> {
    BitsOf(c.ehufco[sym], c.ehufsi[sym])
  }

  function ItemBits(t: Tables, it: Item): seq<Bit> {
    match it
    case DcSym(tbl, sym) => CodeBits(t.dc[tbl], sym)
    case AcSym(tbl, sym) => CodeBits(t.ac[tbl], sym)
    case Extra(v, n) => BitsOf(v, n)
  }

  function ItemsBits(t: Tables, its: seq<Item>): seq<Bit> {
    if its == [] then [] else ItemBits(t, its[0]) + ItemsBits(t, its[1..])
  }

  /** The tables have a code for the item. */
  predicate HasCode(t: Tables, it: Item) {
    match it
    case DcSym(tbl, sym) => t.dc[tbl].ehufsi[sym] != 0
    case AcSym(tbl, sym) => t.ac[tbl].ehufsi[sym] != 0
    case Extra(_, _) => true
  }

  predicate HaveCodes(t: Tables, its: seq<Item>) {
    its == [] || (HasCode(t, its[0]) && HaveCodes(t, its[1..]))
  }

  /** Symbols that occur: DC categories up to 11, AC coefficients of up to 10 bits. */
  predicate Usable(it: Item) {
    match it
    case DcSym(_, sym) => sym <= 11
    case AcSym(_, sym) => sym % 16 <= 10
    case Extra(_, _) => true
  }

  predicate AllUsable(its: seq<Item>) {
    its == [] || (AllUsable(its[..|its| - 1]) && Usable(its[|its| - 1]))
  }

  lemma MoreUsable(its: seq<Item>, it: Item)
    requires AllUsable(its) && Usable(it)
    ensures AllUsable(its + [it])
  {
    assert (its + [it])[..|its|] == its;
  }

  lemma {:induction false} EachUsable(its: seq<Item>, it: Item)
    requires AllUsable(its) && it in its
    ensures Usable(it)
  {
    var n := |its| - 1;
    if it in its[..n] {
      EachUsable(its[..n], it);
    } else {
      assert its == its[..n] + [its[n]];
    }
  }

  lemma {:induction false} HaveCodesConcat(t: Tables, a: seq<Item>, b: seq<Item>)
    ensures HaveCodes(t, a + b) <==> HaveCodes(t, a) && HaveCodes(t, b)
  {
    if a == [] {
      assert a + b == b;
    } else {
      assert (a + b)[1..] == a[1..] + b;
      HaveCodesConcat(t, a[1..], b);
    }
  }

  /** The tables have codes for all symbols exactly if they have one for each. */
  lemma {:induction false} HaveCodesAll(t: Tables, its: seq<Item>)
    ensures HaveCodes(t, its) <==> forall i :: 0 <= i < |its| ==> HasCode(t, its[i])
  {
    if its != [] {
      HaveCodesAll(t, its[1..]);
      assert forall i :: 1 <= i < |its| ==> its[i] == its[1..][i - 1];
    }
  }

  lemma {:induction false} ItemsBitsConcat(t: Tables, a: seq<Item>, b: seq<Item>)
    ensures ItemsBits(t, a + b) == ItemsBits(t, a) + ItemsBits(t, b)
  {
    if a == [] {
      assert a + b == b;
    } else {
      assert (a + b)[1..] == a[1..] + b;
      ItemsBitsConcat(t, a[1..], b);
    }
  }

  // ------------------------------------------------------------------ magnitudes

  /** The number of bits of a magnitude. */
  function BitLen(w: nat): nat {
    if w == 0 then 0 else 1 + BitLen(w / 2)
  }

  /** The bits sent for v: the value if it is positive, the complement of its magnitude if it is
      negative. */
  function Complement(v: int, n: nat): int {
    if v >= 0 then v else v - 1 + Pow2(n)
  }

  /** HUFF_EXTEND, figure F.12. */
  function Extend(x: int, s: nat): int
    requires s >= 1
  {
    if x < Pow2(s - 1) then x - (Pow2(s) - 1) else x
  }

  lemma {:induction false} BitLenBound(w: nat)
    ensures w < Pow2(BitLen(w)) && (w != 0 ==> BitLen(w) >= 1 && Pow2(BitLen(w) - 1) <= w)
  {
    if w != 0 {
      BitLenBound(w / 2);
    }
  }

  lemma {:induction false} BitLenMonotone(w: nat, n: nat)
    requires w < Pow2(n)
    ensures BitLen(w) <= n
    decreases n
  {
    if w != 0 {
      BitLenMonotone(w / 2, n - 1);
    }
  }

  lemma Powers()
    ensures Pow2(15) == 0x8000 && Pow2(17) == 0x20000
  {
    assert Pow2(15) == 8 * Pow2(12) == 64 * Pow2(9) == 512 * Pow2(6) == 4096 * Pow2(3) == 0x8000;
  }

  /** Sign extension inverts the complement coding. */
  lemma ExtendInverts(v: int)
    requires v != 0
    ensures var n := BitLen(Abs(v)); n >= 1 && 0 <= Complement(v, n) < Pow2(n) && Extend(Complement(v, n), n) == v
  {
    BitLenBound(Abs(v));
  }

  // ------------------------------------------------------------------ sequential and first scans

  /** Section F.1.2.1: a DC difference. */
  function DcItems(tbl: HuffNo, diff: int): seq<Item>
    requires Abs(diff) <= 0x8000
  {
    Powers();
    BitLenMonotone(Abs(diff), 17);
    BitLenBound(Abs(diff));
    var n := BitLen(Abs(diff));
    [DcSym(tbl, n)] + if n == 0 then [] else [Extra(Complement(diff, n), n)]
  }

  /** ZRL codes for runs over 15. */
  function Zrls(tbl: HuffNo, r: nat): seq<Item> {
    if r < 16 then [] else [AcSym(tbl, 0xF0)] + Zrls(tbl, r - 16)
  }

  /** A coefficient v that is not zero, after a run of r zeros. */
  function RunItems(tbl: HuffNo, r: nat, v: int): seq<Item>
    requires v != 0 && BitLen(Abs(v)) <= 15
  {
    var n := BitLen(Abs(v));
    ExtendInverts(v);
    Zrls(tbl, r) + [AcSym(tbl, r % 16 * 16 + n), Extra(Complement(v, n), n)]
  }

  /** The items of a band before the end of band, and the correction bits that go with the end of
      band, if there is one. */
  datatype BandItems = BandItems(body: seq<Item>, tail: Option<seq<Bit>>)

  function Before(its: seq<Item>, b: BandItems): BandItems {
    b.(body := its + b.body)
  }

  lemma CoefLen(c: Coef, al: nat)
    ensures BitLen(Abs(Trunc(c, al))) <= 15
  {
    TruncShrinks(c, al);
    Powers();
    BitLenMonotone(Abs(Trunc(c, al)), 15);
  }

  /** Figure F.2 or G.3 from coefficient k on, after a run of r zeros. */
  function FirstItems(tbl: HuffNo, z: ZBlock, al: nat, k: nat, se: Index, r: nat): BandItems
    decreases se + 1 - k
  {
    if k > se then BandItems([], if r > 0 then Some([]) else None)
    else
      var v := Trunc(z[k], al);
      CoefLen(z[k], al);
      if v == 0 then FirstItems(tbl, z, al, k + 1, se, r + 1)
      else Before(RunItems(tbl, r, v), FirstItems(tbl, z, al, k + 1, se, 0))
  }

  /** The AC items of a block of a sequential scan. */
  function SequentialAc(tbl: HuffNo, z: ZBlock, se: Index): seq<Item> {
    var b := FirstItems(tbl, z, 0, 1, se, 0);
    b.body + if b.tail.Some? then [AcSym(tbl, 0)] else []
  }

  /** The bit of a DC value that a refinement scan sends. */
  function DcBit(sc: Scan, z: ZBlock): Bit {
    Shr(z[0], sc.al) % 2
  }

  /** A block of a sequential scan, or of a scan of DC coefficients. */
  function BlockItems(dcTbl: HuffNo, tbl: HuffNo, sc: Scan, last: Coef, z: ZBlock): seq<Item> {
    match sc.Routine()
    case Sequential => DcItems(dcTbl, z[0] - last) + SequentialAc(tbl, z, sc.limSe)
    case DcFirst => DcItems(dcTbl, DcValue(sc, z) - last)
    case DcRefine => [Extra(DcBit(sc, z), 1)]
    case AcFirst => []
    case AcRefine => []
  }

  /** The tables of all components exist, and an MCU has only blocks of the components of the scan. */
  predicate HuffTables(sc: ScanInfo) {
    && |sc.dcTbl| == |sc.acTbl| == MAX_COMPS_IN_SCAN
    && (forall i :: 0 <= i < MAX_COMPS_IN_SCAN ==> sc.dcTbl[i] < NUM_HUFF_TBLS && sc.acTbl[i] < NUM_HUFF_TBLS)
    && forall j :: 0 <= j < |sc.membership| ==> sc.membership[j] < sc.comps
  }

  /** A scan with Huffman tables. */
  type HuffScan = sc: ScanInfo | sc.Legal() && HuffTables(sc)
    witness ScanInfo(false, 0, 0, 0, 0, 0, 0, [], [0, 0, 0, 0], [0, 0, 0, 0], seq(16, _ => 0), seq(16, _ => 0),
                     seq(16, _ => 0), [0], 0)

  function DcNo(sc: HuffScan, ci: Component): HuffNo {
    sc.dcTbl[ci]
  }

  function AcNo(sc: HuffScan, ci: Component): HuffNo {
    sc.acTbl[ci]
  }

  /** The last DC value of each component. */
  type DcValues = s: seq<Coef> | |s| == MAX_COMPS_IN_SCAN witness [0, 0, 0, 0]

  /** The predictions after a block of component m. */
  function NextLast(sc: Scan, last: DcValues, m: Component, z: ZBlock): DcValues {
    if CodesDc(sc) then last[m := DcValue(sc, z)] else last
  }

  /** The blocks of an MCU of such a scan, of the components ms. */
  function McuItems(sc: HuffScan, last: DcValues, ms: seq<Component>, zs: Mcu): seq<Item>
    requires |ms| == |zs|
    decreases |zs|
  {
    if zs == [] then []
    else
      BlockItems(DcNo(sc, ms[0]), AcNo(sc, ms[0]), sc, last[ms[0]], zs[0])
      + McuItems(sc, NextLast(sc, last, ms[0], zs[0]), ms[1..], zs[1..])
  }

  function LastAfter(sc: HuffScan, last: DcValues, ms: seq<Component>, zs: Mcu): DcValues
    requires |ms| == |zs|
    decreases |zs|
  {
    if zs == [] then last else LastAfter(sc, NextLast(sc, last, ms[0], zs[0]), ms[1..], zs[1..])
  }

  // ------------------------------------------------------------------ refinement scans

  function BitItems(s: seq<Bit>): (its: seq<Item>)
    ensures |its| == |s|
  {
    if s == [] then [] else [Extra(s[0], 1)] + BitItems(s[1..])
  }

  /** The last coefficient of k..se whose magnitude becomes 1, or 0. */
  function LastNew(z: ZBlock, al: nat, k: nat, se: Index): (e: nat)
    ensures e <= se && (e != 0 ==> k <= e && Abs(Trunc(z[e], al)) == 1)
    ensures forall i :: k <= i <= se && Abs(Trunc(z[i], al)) == 1 ==> i <= e
    decreases se + 1 - k
  {
    if k > se then 0
    else
      var e := LastNew(z, al, k + 1, se);
      if e == 0 && Abs(Trunc(z[k], al)) == 1 then k else e
  }

  /** Figure G.7 from coefficient k on, after r zeros and the correction bits br. */
  function RefineItems(tbl: HuffNo, z: ZBlock, al: nat, k: nat, se: Index, r: nat, br: seq<Bit>, eob: nat): BandItems
    decreases se + 1 - k, r
  {
    if k > se then BandItems([], if r > 0 || br != [] then Some(br) else None)
    else
      var v := Abs(Trunc(z[k], al));
      if v == 0 then RefineItems(tbl, z, al, k + 1, se, r + 1, br, eob)
      else if r > 15 && k <= eob then
        Before([AcSym(tbl, 0xF0)] + BitItems(br), RefineItems(tbl, z, al, k, se, r - 16, [], eob))
      else if v > 1 || r > 15 then RefineItems(tbl, z, al, k + 1, se, r, br + [v % 2], eob)
      else
        Before([AcSym(tbl, r * 16 + 1), Extra(if Trunc(z[k], al) < 0 then 0 else 1, 1)] + BitItems(br),
               RefineItems(tbl, z, al, k + 1, se, 0, [], eob))
  }

  // ------------------------------------------------------------------ runs of ends of band

  const MAX_CORR_BITS := 1000

  /** Section G.1.2.2: e ends of band, and their correction bits. */
  function EobItems(tbl: HuffNo, e: nat, be: seq<Bit>): seq<Item> {
    if e == 0 then [] else EobHead(tbl, e) + BitItems(be)
  }

  /** The symbol EOBn and the n low bits of the run; runs of more than 14 extra bits do not occur. */
  function EobHead(tbl: HuffNo, e: nat): seq<Item> {
    var n := Log2(e);
    if n > 14 then [] else [AcSym(tbl, n * 16)] + if n == 0 then [] else [Extra(e, n)]
  }

  /** The run must be sent now: the counter or the bit buffer might overflow. */
  predicate RunFull(e: nat, be: seq<Bit>) {
    e == 0x7FFF || |be| > MAX_CORR_BITS - 64 + 1
  }

  /** The items of a scan of AC coefficients from now on, when e ends of band and their correction
      bits be have not been sent. */
  function Coming(tbl: HuffNo, bs: seq<BandItems>, e: nat, be: seq<Bit>): seq<Item>
    decreases |bs|, 1
  {
    if bs == [] then EobItems(tbl, e, be)
    else if bs[0].body != [] then
      EobItems(tbl, e, be) + bs[0].body + AfterBand(tbl, bs[0].tail, bs[1..], 0, [])
    else AfterBand(tbl, bs[0].tail, bs[1..], e, be)
  }

  /** The same after the body of a band with the given tail. */
  function AfterBand(tbl: HuffNo, tail: Option<seq<Bit>>, bs: seq<BandItems>, e: nat, be: seq<Bit>): seq<Item>
    decreases |bs| + 1, 0
  {
    match tail
    case None => Coming(tbl, bs, e, be)
    case Some(t) =>
      if RunFull(e + 1, be + t) then EobItems(tbl, e + 1, be + t) + Coming(tbl, bs, 0, [])
      else Coming(tbl, bs, e + 1, be + t)
  }

  /** Bands without items of their own. */
  predicate OnlyTails(bs: seq<BandItems>) {
    forall i :: 0 <= i < |bs| ==> bs[i].body == [] && bs[i].tail.Some?
  }

  function Tails(bs: seq<BandItems>): seq<Bit>
    requires OnlyTails(bs)
  {
    if bs == [] then [] else bs[0].tail.value + Tails(bs[1..])
  }

  /** A band without items of its own has an end of band. */
  predicate Proper(bs: seq<BandItems>) {
    forall i :: 0 <= i < |bs| ==> bs[i].body == [] ==> bs[i].tail.Some?
  }

  lemma ItemsAssoc(a: seq<Item>, b: seq<Item>, c: seq<Item>)
    ensures (a + b) + c == a + (b + c)
  {
  }

  /** How many of the bands bs join a run of e ends of band with the correction bits be. */
  function Joined(bs: seq<BandItems>, e: nat, be: seq<Bit>): nat
    decreases |bs|, 0
  {
    if bs == [] || bs[0].body != [] || bs[0].tail.None? then 0
    else 1 + JoinedAfter(bs[1..], e + 1, be + bs[0].tail.value)
  }

  /** The same when the run has just become as long as this. */
  function JoinedAfter(bs: seq<BandItems>, e: nat, be: seq<Bit>): nat
    decreases |bs|, 1
  {
    if RunFull(e, be) then 0 else Joined(bs, e, be)
  }

  /** Ends of band that have been begun are followed by more bands without items of their own, until
      the run is sent, and then by what would be sent if there had been no run. */
  lemma {:induction false} RunSplits(tbl: HuffNo, bs: seq<BandItems>, e: nat, be: seq<Bit>) returns (n: nat)
    requires 1 <= e <= 0x7FFF && !RunFull(e, be) && Proper(bs)
    ensures n == Joined(bs, e, be)
    ensures n <= |bs| && e + n <= 0x7FFF && OnlyTails(bs[..n])
    ensures Coming(tbl, bs, e, be) == EobItems(tbl, e + n, be + Tails(bs[..n])) + Coming(tbl, bs[n..], 0, [])
    decreases |bs|, 0
  {
    if bs == [] || bs[0].body != [] {
      n := 0;
      assert be + Tails([]) == be && bs[0..] == bs;
      NoRun(tbl, bs, e, be);
    } else {
      var t := bs[0].tail.value;
      var m := AfterSplits(tbl, t, bs[1..], e, be, be + t);
      n := m + 1;
      TailsMore(bs, m, be);
      TailOnly(tbl, bs, e, be);
    }
  }

  lemma TailOnly(tbl: HuffNo, bs: seq<BandItems>, e: nat, be: seq<Bit>)
    requires bs != [] && bs[0].body == [] && bs[0].tail.Some?
    ensures Coming(tbl, bs, e, be) == AfterBand(tbl, Some(bs[0].tail.value), bs[1..], e, be)
    ensures Joined(bs, e, be) == 1 + JoinedAfter(bs[1..], e + 1, be + bs[0].tail.value)
  {
  }

  lemma TailsMore(bs: seq<BandItems>, m: nat, be: seq<Bit>)
    requires bs != [] && m < |bs| && bs[0].body == [] && bs[0].tail.Some? && OnlyTails(bs[1..][..m])
    ensures OnlyTails(bs[..m + 1]) && bs[1..][m..] == bs[m + 1..]
    ensures be + Tails(bs[..m + 1]) == be + bs[0].tail.value + Tails(bs[1..][..m])
  {
    assert bs[..m + 1] == [bs[0]] + bs[1..][..m];
  }

  lemma NoRun(tbl: HuffNo, bs: seq<BandItems>, e: nat, be: seq<Bit>)
    requires bs == [] || bs[0].body != []
    ensures Coming(tbl, bs, e, be) == EobItems(tbl, e, be) + Coming(tbl, bs, 0, [])
  {
    if bs != [] {
      ItemsAssoc(EobItems(tbl, e, be), bs[0].body, AfterBand(tbl, bs[0].tail, bs[1..], 0, []));
      assert [] + bs[0].body == bs[0].body;
    }
  }

  lemma {:induction false} AfterSplits(tbl: HuffNo, t: seq<Bit>, bs: seq<BandItems>, e: nat, be: seq<Bit>, be1: seq<Bit>)
    returns (n: nat)
    requires e < 0x7FFF && Proper(bs) && be1 == be + t
    ensures n == JoinedAfter(bs, e + 1, be1)
    ensures n <= |bs| && e + 1 + n <= 0x7FFF && OnlyTails(bs[..n])
    ensures AfterBand(tbl, Some(t), bs, e, be)
         == EobItems(tbl, e + 1 + n, be1 + Tails(bs[..n])) + Coming(tbl, bs[n..], 0, [])
    decreases |bs|, 1
  {
    if RunFull(e + 1, be1) {
      n := 0;
      assert be1 + Tails([]) == be1 && bs[0..] == bs;
    } else {
      n := RunSplits(tbl, bs, e + 1, be1);
    }
  }

  /** A band that begins with items of its own sends the run before it. */
  lemma EventStep(tbl: HuffNo, its: seq<Item>, b: BandItems, bs: seq<BandItems>, e: nat, be: seq<Bit>)
    requires its != []
    ensures Coming(tbl, [Before(its, b)] + bs, e, be)
         == (EobItems(tbl, e, be) + its) + Coming(tbl, [b] + bs, 0, [])
  {
    var after := AfterBand(tbl, b.tail, bs, 0, []);
    assert ([Before(its, b)] + bs)[1..] == bs && ([b] + bs)[1..] == bs;
    ItemsAssoc(EobItems(tbl, e, be), its, b.body);
    ItemsAssoc(EobItems(tbl, e, be) + its, b.body, after);
    assert Coming(tbl, [b] + bs, 0, []) == b.body + after by {
      if b.body == [] {
        assert [] + after == after;
      } else {
        assert [] + b.body == b.body;
      }
    }
  }

  lemma LastStep(tbl: HuffNo, tail: Option<seq<Bit>>, bs: seq<BandItems>, e: nat, be: seq<Bit>)
    ensures Coming(tbl, [BandItems([], tail)] + bs, e, be) == AfterBand(tbl, tail, bs, e, be)
  {
    assert ([BandItems([], tail)] + bs)[1..] == bs;
  }

  // ------------------------------------------------------------------ the events of a refinement

  function EventHead(tbl: HuffNo, sym: Byte, sign: Option<Bit>): seq<Item> {
    [AcSym(tbl, sym)] + match sign case None => [] case Some(s) => [Extra(s, 1)]
  }

  function EventItems(tbl: HuffNo, sym: Byte, sign: Option<Bit>, br: seq<Bit>): seq<Item> {
    EventHead(tbl, sym, sign) + BitItems(br)
  }

  lemma ZrlUnfolds(tbl: HuffNo, z: ZBlock, al: nat, k: nat, se: Index, r: nat, br: seq<Bit>, eob: nat)
    requires k <= se && Trunc(z[k], al) != 0 && r > 15 && k <= eob
    ensures RefineItems(tbl, z, al, k, se, r, br, eob)
         == Before(EventItems(tbl, 0xF0, None, br), RefineItems(tbl, z, al, k, se, r - 16, [], eob))
  {
    assert [AcSym(tbl, 0xF0)] + [] == [AcSym(tbl, 0xF0)];
  }

  lemma NewUnfolds(tbl: HuffNo, z: ZBlock, al: nat, k: nat, se: Index, r: nat, br: seq<Bit>, eob: nat)
    requires k <= se && Abs(Trunc(z[k], al)) == 1 && r <= 15
    ensures RefineItems(tbl, z, al, k, se, r, br, eob)
         == Before(EventItems(tbl, r * 16 + 1, Some(if Trunc(z[k], al) < 0 then 0 else 1), br),
                   RefineItems(tbl, z, al, k + 1, se, 0, [], eob))
  {
    var sign := if Trunc(z[k], al) < 0 then 0 else 1;
    assert [AcSym(tbl, r * 16 + 1)] + [Extra(sign, 1)] == [AcSym(tbl, r * 16 + 1), Extra(sign, 1)];
  }

  lemma CorrectionUnfolds(tbl: HuffNo, z: ZBlock, al: nat, k: nat, se: Index, r: nat, br: seq<Bit>, eob: nat)
    requires k <= se && Abs(Trunc(z[k], al)) > 1 && (r <= 15 || k > eob)
    ensures RefineItems(tbl, z, al, k, se, r, br, eob)
         == RefineItems(tbl, z, al, k + 1, se, r, br + [Abs(Trunc(z[k], al)) % 2], eob)
  {
  }

  function Later(e: nat, eob: nat): nat {
    if e == 0 then eob else e
  }
}
