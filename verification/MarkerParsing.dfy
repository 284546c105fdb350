/** What the marker reader (jdmarker.c) makes of the parameters of a marker that has arrived completely. */
module MarkerParsing {
  import opened ArithTable
  import opened HuffmanCodes
  import opened Segments

  const M_SOF0: Byte := 0xC0
  const M_SOF1: Byte := 0xC1
  const M_SOF2: Byte := 0xC2
  const M_SOF9: Byte := 0xC9
  const M_SOF10: Byte := 0xCA
  const M_DHT: Byte := 0xC4
  const M_DAC: Byte := 0xCC
  const M_SOI: Byte := 0xD8
  const M_EOI: Byte := 0xD9
  const M_SOS: Byte := 0xDA
  const M_DQT: Byte := 0xDB
  const M_DNL: Byte := 0xDC
  const M_DRI: Byte := 0xDD
  const M_APP0: Byte := 0xE0
  const M_JPG8: Byte := 0xF8
  const M_COM: Byte := 0xFE
  const M_TEM: Byte := 0x01

  const NUM_QUANT_TBLS := 4
  const NUM_HUFF := 4
  const NUM_ARITH := 16
  const MAX_SCAN_COMPS := 4

  // ------------------------------------------------------------------ the decompression object

  datatype HuffSlot = DcSlot(i: nat) | AcSlot(i: nat)

  datatype CompInfo = CompInfo(id: nat, h: nat, v: nat, tq: nat)

  /** A saved APPn or COM marker: at most the length limit of its data is kept. */
  datatype SavedMarker = SavedMarker(code: Byte, originalLength: nat, data: seq<Byte>)

  /** The fields that the markers set; a table that is not in its map has not been defined. */
  datatype Header = Header(
    sawSoi: bool, sawSof: bool, restartInterval: nat,
    baseline: bool, progressive: bool, arith: bool, precision: nat, height: nat, width: nat, comps: seq<CompInfo>,
    huff: map<HuffSlot, HuffTbl>, quant: map<nat, seq<nat>>, dcCond: map<nat, (nat, nat)>, acCond: map<nat, nat>,
    scan: seq<nat>, tblNos: map<nat, (nat, nat)>, ss: nat, se: nat, ah: nat, al: nat,
    scanNumber: nat, nextRestart: nat, subtractGreen: bool, saved: seq<SavedMarker>)

  /** reset_marker_reader */
  const FRESH := Header(false, false, 0, false, false, false, 0, 0, 0, [], map[], map[], map[], map[], [], map[], 0, 0, 0, 0,
                        0, 0, false, [])

  /** The result of reading parameters: where they end, or not enough bytes, or an error exit. */
  datatype Parsed<T> = Parsed(next: nat, value: T) | Short | Failed

  predicate Has(raw: seq<Byte>, p: nat, n: nat) {
    p + n <= |raw|
  }

  function Word(raw: seq<Byte>, p: nat): nat
    requires Has(raw, p, 2)
  {
    var high: nat, low: nat := raw[p], raw[p + 1];
    high * 256 + low
  }

  // ------------------------------------------------------------------ DHT

  function SumOf(b: seq<Byte>): nat {
    if b == [] then 0 else SumOf(b[..|b| - 1]) + b[|b| - 1]
  }

  function ZeroFilled(vals: seq<Byte>): (r: seq<Byte>)
    requires |vals| <= 256
    ensures |r| == 256
  {
    vals + seq(256 - |vals|, _ => 0)
  }

  /** The table slot of a DHT index byte, if there is one. */
  function SlotOf(index: Byte): (r: HuffSlot)
    ensures r.i == if index / 16 % 2 == 1 then index - 16 else index
  {
    if index / 16 % 2 == 1 then AcSlot(index - 16) else DcSlot(index)
  }

  /** The rest of get_dht from p on, with `length` bytes to go and the tables defined so far. */
  function Dht(raw: seq<Byte>, p: nat, length: int, d: map<HuffSlot, HuffTbl>): Parsed<map<HuffSlot, HuffTbl>>
    decreases length
  {
    if length <= 16 then (if length != 0 then Failed else Parsed(p, d))
    else if !Has(raw, p, 17) then Short
    else
      var count := SumOf(raw[p + 1..p + 17]);
      if count > 256 || count > length - 17 then Failed
      else if !Has(raw, p + 17, count) then Short
      else if SlotOf(raw[p]).i >= NUM_HUFF then Failed
      else Dht(raw, p + 17 + count, length - 17 - count, d[SlotOf(raw[p]) := TableAt(raw, p, count)])
  }

  function TableAt(raw: seq<Byte>, p: nat, count: nat): HuffTbl
    requires Has(raw, p, 17 + count) && count <= 256
  {
    TableInfo([0] + raw[p + 1..p + 17], ZeroFilled(raw[p + 17..p + 17 + count]))
  }

  lemma {:induction false} DhtGrows(raw: seq<Byte>, p: nat, length: int, d: map<HuffSlot, HuffTbl>)
    ensures Dht(raw, p, length, d).Parsed? ==> d.Keys <= Dht(raw, p, length, d).value.Keys && Dht(raw, p, length, d).next >= p
    decreases length
  {
    if length > 16 && Has(raw, p, 17) {
      var count := SumOf(raw[p + 1..p + 17]);
      if count <= 256 && count <= length - 17 && Has(raw, p + 17, count) && SlotOf(raw[p]).i < NUM_HUFF {
        DhtGrows(raw, p + 17 + count, length - 17 - count, d[SlotOf(raw[p]) := TableAt(raw, p, count)]);
      }
    }
  }

  // ------------------------------------------------------------------ DAC

  datatype Conditions = Conditions(dc: map<nat, (nat, nat)>, ac: map<nat, nat>)

  function Dac(raw: seq<Byte>, p: nat, length: int, d: Conditions): Parsed<Conditions>
    decreases length
  {
    if length <= 0 then (if length != 0 then Failed else Parsed(p, d))
    else if !Has(raw, p, 2) then Short
    else
      var index, val := raw[p], raw[p + 1];
      if index >= 2 * NUM_ARITH then Failed
      else if index >= NUM_ARITH then Dac(raw, p + 2, length - 2, d.(ac := d.ac[index - NUM_ARITH := val]))
      else if val % 16 > val / 16 then Failed
      else Dac(raw, p + 2, length - 2, d.(dc := d.dc[index := (val % 16, val / 16)]))
  }

  lemma {:induction false} DacGrows(raw: seq<Byte>, p: nat, length: int, d: Conditions)
    ensures Dac(raw, p, length, d).Parsed? ==> d.dc.Keys <= Dac(raw, p, length, d).value.dc.Keys
                                               && d.ac.Keys <= Dac(raw, p, length, d).value.ac.Keys
                                               && Dac(raw, p, length, d).next >= p
    decreases length
  {
    if length > 0 && Has(raw, p, 2) {
      var index, val := raw[p], raw[p + 1];
      if NUM_ARITH <= index < 2 * NUM_ARITH {
        DacGrows(raw, p + 2, length - 2, d.(ac := d.ac[index - NUM_ARITH := val]));
      } else if index < NUM_ARITH && val % 16 <= val / 16 {
        DacGrows(raw, p + 2, length - 2, d.(dc := d.dc[index := (val % 16, val / 16)]));
      }
    }
  }

  // ------------------------------------------------------------------ DQT

  type Entry = v: nat | v < 64

  type Order = o: seq<Entry> | |o| >= 64 witness seq(64, i => i)

  /** The natural orders for the numbers of entries that have one of their own; the last is for 8x8 blocks. */
  datatype Orders = Orders(o2: Order, o3: Order, o4: Order, o5: Order, o6: Order, o7: Order, o8: Order)
  {
    function For(count: nat): Order {
      if count == 4 then o2 else if count == 9 then o3 else if count == 16 then o4 else if count == 25 then o5
      else if count == 36 then o6 else if count == 49 then o7 else o8
    }

    /** The order for whole blocks reaches every entry. */
    ghost predicate Onto() {
      forall v: Entry :: Reached(v)
    }

    predicate Reached(v: Entry) {
      exists i :: 0 <= i < 64 && o8[i] == v
    }
  }

  const IDENTITY: Order := seq(64, i => i)

  lemma IdentityIsOnto()
    ensures Orders(IDENTITY, IDENTITY, IDENTITY, IDENTITY, IDENTITY, IDENTITY, IDENTITY).Onto()
  {
    var o := Orders(IDENTITY, IDENTITY, IDENTITY, IDENTITY, IDENTITY, IDENTITY, IDENTITY);
    forall v: Entry
      ensures o.Reached(v)
    {
      assert o.o8[v] == v;
    }
  }

  type NaturalOrders = o: Orders | o.Onto()
    witness (IdentityIsOnto(); Orders(IDENTITY, IDENTITY, IDENTITY, IDENTITY, IDENTITY, IDENTITY, IDENTITY))

  /** The first n entries put in their places. */
  function Placed(order: Order, vals: seq<nat>, n: nat, base: seq<nat>): (r: seq<nat>)
    requires n <= |vals| && n <= 64 && |base| == 64
    ensures |r| == 64
  {
    if n == 0 then base else Placed(order, vals, n - 1, base)[order[n - 1] := vals[n - 1]]
  }

  /** Where an entry has been placed, the table before does not matter. */
  lemma {:induction false} PlacedOver(order: Order, vals: seq<nat>, n: nat, base: seq<nat>, other: seq<nat>, v: Entry)
    requires n <= |vals| && n <= 64 && |base| == |other| == 64 && exists i :: 0 <= i < n && order[i] == v
    ensures Placed(order, vals, n, base)[v] == Placed(order, vals, n, other)[v]
  {
    if order[n - 1] != v {
      var i :| 0 <= i < n && order[i] == v;
      assert i < n - 1;
      PlacedOver(order, vals, n - 1, base, other, v);
    }
  }

  lemma {:induction false} PlacedPrefix(order: Order, vals: seq<nat>, some: seq<nat>, n: nat, base: seq<nat>)
    requires n <= |some| <= |vals| && n <= 64 && |base| == 64 && forall i :: 0 <= i < n ==> vals[i] == some[i]
    ensures Placed(order, vals, n, base) == Placed(order, some, n, base)
  {
    if n != 0 {
      PlacedPrefix(order, vals, some, n - 1, base);
    }
  }

  lemma WholeTable(o: NaturalOrders, vals: seq<nat>, base: seq<nat>, other: seq<nat>)
    requires |vals| >= 64 && |base| == |other| == 64
    ensures Placed(o.o8, vals, 64, base) == Placed(o.o8, vals, 64, other)
  {
    forall v: Entry
      ensures Placed(o.o8, vals, 64, base)[v] == Placed(o.o8, vals, 64, other)[v]
    {
      assert o.Reached(v);
      PlacedOver(o.o8, vals, 64, base, other, v);
    }
  }

  function Ones(): (r: seq<nat>)
    ensures |r| == 64 && forall i :: 0 <= i < 64 ==> r[i] == 1
  {
    seq(64, _ => 1)
  }

  /** The number of entries of a table of which `length` bytes are left. */
  function EntryCount(prec: nat, length: nat): (n: nat)
    ensures n <= 64
  {
    if prec != 0 then (if length < 128 then length / 2 else 64) else if length < 64 then length else 64
  }

  /** Entry i of those from p on. */
  function EntryAt(raw: seq<Byte>, p: nat, prec: nat, i: nat): nat
    requires Has(raw, p, EntryBytes(prec, i + 1))
  {
    if prec != 0 then Word(raw, p + 2 * i) else raw[p + i]
  }

  function EntryBytes(prec: nat, n: nat): nat {
    if prec != 0 then 2 * n else n
  }

  /** n entries from p on. */
  function EntriesAt(raw: seq<Byte>, p: nat, prec: nat, n: nat): (r: seq<nat>)
    requires Has(raw, p, EntryBytes(prec, n))
    ensures |r| == n
  {
    seq(n, i requires 0 <= i < n => EntryAt(raw, p, prec, i))
  }

  function Dqt(o: NaturalOrders, raw: seq<Byte>, p: nat, length: int, d: map<nat, seq<nat>>): Parsed<map<nat, seq<nat>>>
    decreases length
  {
    if length <= 0 then (if length != 0 then Failed else Parsed(p, d))
    else if !Has(raw, p, 1) then Short
    else
      if raw[p] % 16 >= NUM_QUANT_TBLS then Failed
      else if !Has(raw, p + 1, TableBytes(raw[p], length - 1)) then Short
      else Dqt(o, raw, p + 1 + TableBytes(raw[p], length - 1), length - 1 - TableBytes(raw[p], length - 1),
               d[raw[p] % 16 := QuantAt(o, raw, p, length - 1)])
  }

  /** The size of a table with this index byte, of which `length` bytes are left. */
  function TableBytes(index: Byte, length: nat): nat {
    EntryBytes(index / 16, EntryCount(index / 16, length))
  }

  /** The table at p, of which `length` bytes are left. */
  function QuantAt(o: NaturalOrders, raw: seq<Byte>, p: nat, length: nat): (t: seq<nat>)
    requires Has(raw, p, 1) && Has(raw, p + 1, TableBytes(raw[p], length))
    ensures |t| == 64
  {
    QuantFrom(o, EntriesAt(raw, p + 1, raw[p] / 16, EntryCount(raw[p] / 16, length)))
  }

  function QuantFrom(o: NaturalOrders, vals: seq<nat>): (t: seq<nat>)
    requires |vals| <= 64
    ensures |t| == 64
  {
    Placed(o.For(|vals|), vals, |vals|, Ones())
  }

  lemma {:induction false} DqtGrows(o: NaturalOrders, raw: seq<Byte>, p: nat, length: int, d: map<nat, seq<nat>>)
    ensures Dqt(o, raw, p, length, d).Parsed? ==> d.Keys <= Dqt(o, raw, p, length, d).value.Keys && Dqt(o, raw, p, length, d).next >= p
    decreases length
  {
    if length > 0 && Has(raw, p, 1) {
      var bytes := TableBytes(raw[p], length - 1);
      if raw[p] % 16 < NUM_QUANT_TBLS && Has(raw, p + 1, bytes) {
        DqtGrows(o, raw, p + 1 + bytes, length - 1 - bytes, d[raw[p] % 16 := QuantAt(o, raw, p, length - 1)]);
      }
    }
  }

  // ------------------------------------------------------------------ SOF

  datatype Frame = Frame(precision: nat, height: nat, width: nat, comps: seq<CompInfo>)

  function Ids(comps: seq<CompInfo>): (ids: seq<nat>)
    ensures |ids| == |comps|
  {
    seq(|comps|, i requires 0 <= i < |comps| => comps[i].id)
  }

  function MaxOf(ids: seq<nat>): (m: nat)
    requires ids != []
    ensures m in ids && forall i :: 0 <= i < |ids| ==> ids[i] <= m
  {
    if |ids| == 1 then ids[0]
    else
      var m := MaxOf(ids[..|ids| - 1]);
      if ids[|ids| - 1] > m then ids[|ids| - 1] else m
  }

  /** A component id that has been seen is replaced by one more than the greatest so far. */
  function FreshId(c: nat, ids: seq<nat>): (r: nat)
    ensures r !in ids && (c !in ids ==> r == c)
  {
    if c in ids then MaxOf(ids) + 1 else c
  }

  function SofComps(raw: seq<Byte>, p: nat, n: nat, comps: seq<CompInfo>): Parsed<seq<CompInfo>>
    decreases n
  {
    if n == 0 then Parsed(p, comps)
    else if !Has(raw, p, 3) then Short
    else SofComps(raw, p + 3, n - 1, comps + [CompInfo(FreshId(raw[p], Ids(comps)), raw[p + 1] / 16, raw[p + 1] % 16, raw[p + 2])])
  }

  function Sof(raw: seq<Byte>, p: nat, sawSof: bool): Parsed<Frame> {
    if !Has(raw, p, 8) then Short
    else
      var height, width, n: nat := Word(raw, p + 3), Word(raw, p + 5), raw[p + 7];
      if sawSof || height == 0 || width == 0 || n == 0 || Word(raw, p) - 8 != 3 * n then Failed
      else
        var r := SofComps(raw, p + 8, n, []);
        if r.Parsed? then Parsed(r.next, Frame(raw[p + 2], height, width, r.value)) else if r.Short? then Short else Failed
  }

  ghost predicate DistinctIds(ids: seq<nat>) {
    forall i, j :: 0 <= i < j < |ids| ==> ids[i] != ids[j]
  }

  lemma {:induction false} SofCompsDistinct(raw: seq<Byte>, p: nat, n: nat, comps: seq<CompInfo>)
    requires DistinctIds(Ids(comps))
    ensures var r := SofComps(raw, p, n, comps);
            r.Parsed? ==> DistinctIds(Ids(r.value)) && |r.value| == |comps| + n && r.next == p + 3 * n
    decreases n
  {
    if n != 0 && Has(raw, p, 3) {
      var c := CompInfo(FreshId(raw[p], Ids(comps)), raw[p + 1] / 16, raw[p + 1] % 16, raw[p + 2]);
      assert Ids(comps + [c]) == Ids(comps) + [c.id];
      SofCompsDistinct(raw, p + 3, n - 1, comps + [c]);
    }
  }

  /** Whatever ids the marker names, the components get distinct ones. */
  lemma SofDistinct(raw: seq<Byte>, p: nat, sawSof: bool)
    ensures var r := Sof(raw, p, sawSof);
            r.Parsed? ==> DistinctIds(Ids(r.value.comps)) && |r.value.comps| >= 1 && r.next >= p
  {
    if Has(raw, p, 8) {
      SofCompsDistinct(raw, p + 8, raw[p + 7], []);
    }
  }

  // ------------------------------------------------------------------ SOS

  datatype ScanHeader = ScanHeader(scan: seq<nat>, tblNos: map<nat, (nat, nat)>, ss: nat, se: nat, ah: nat, al: nat)

  /** The index of the component with this id, or the number of components. */
  function IndexOf(comps: seq<CompInfo>, id: nat): (k: nat)
    ensures k <= |comps| && (k < |comps| ==> comps[k].id == id) && (k == |comps| ==> id !in Ids(comps))
  {
    if comps == [] then 0
    else
      var k := IndexOf(comps[..|comps| - 1], id);
      assert Ids(comps) == Ids(comps[..|comps| - 1]) + [comps[|comps| - 1].id];
      if k < |comps| - 1 then k else if comps[|comps| - 1].id == id then |comps| - 1 else |comps|
  }

  /** The ids of the components of the scan so far. */
  function ScanIds(comps: seq<CompInfo>, scan: seq<nat>): (ids: seq<nat>)
    ensures |ids| == |scan|
  {
    seq(|scan|, i requires 0 <= i < |scan| => if scan[i] < |comps| then comps[scan[i]].id else 0)
  }

  datatype ScanComps = ScanComps(scan: seq<nat>, tblNos: map<nat, (nat, nat)>)

  function SosComps(raw: seq<Byte>, p: nat, n: nat, comps: seq<CompInfo>, d: ScanComps): Parsed<ScanComps>
    decreases n
  {
    if n == 0 then Parsed(p, d)
    else if !Has(raw, p, 1) then Short
    else
      var k := IndexOf(comps, FreshId(raw[p], ScanIds(comps, d.scan)));
      if k == |comps| then Failed
      else if !Has(raw, p, 2) then Short
      else SosComps(raw, p + 2, n - 1, comps, ScanComps(d.scan + [k], d.tblNos[k := (raw[p + 1] / 16, raw[p + 1] % 16)]))
  }

  function Sos(raw: seq<Byte>, p: nat, sawSof: bool, progressive: bool, comps: seq<CompInfo>): Parsed<ScanHeader> {
    if !sawSof then Failed
    else if !Has(raw, p, 3) then Short
    else
      var n: nat := raw[p + 2];
      if Word(raw, p) != n * 2 + 6 || n > MAX_SCAN_COMPS || (n == 0 && !progressive) then Failed
      else
        var r := SosComps(raw, p + 3, n, comps, ScanComps([], map[]));
        if r.Failed? then Failed
        else if r.Short? || !Has(raw, r.next, 3) then Short
        else Parsed(r.next + 3, ScanHeader(r.value.scan, r.value.tblNos, raw[r.next], raw[r.next + 1], raw[r.next + 2] / 16,
                                           raw[r.next + 2] % 16))
  }

  ghost predicate DistinctIn(comps: seq<CompInfo>, scan: seq<nat>) {
    && (forall i :: 0 <= i < |scan| ==> scan[i] < |comps|)
    && forall i, j :: 0 <= i < j < |scan| ==> scan[i] != scan[j]
  }

  lemma {:induction false} SosCompsDistinct(raw: seq<Byte>, p: nat, n: nat, comps: seq<CompInfo>, d: ScanComps)
    requires DistinctIn(comps, d.scan)
    ensures var r := SosComps(raw, p, n, comps, d);
            r.Parsed? ==> DistinctIn(comps, r.value.scan) && |r.value.scan| == |d.scan| + n && r.next == p + 2 * n
                          && d.tblNos.Keys <= r.value.tblNos.Keys
    decreases n
  {
    if n != 0 && Has(raw, p, 2) {
      var k := IndexOf(comps, FreshId(raw[p], ScanIds(comps, d.scan)));
      if k < |comps| {
        forall i | 0 <= i < |d.scan|
          ensures d.scan[i] != k
        {
          assert ScanIds(comps, d.scan)[i] == comps[d.scan[i]].id;
        }
        SosCompsDistinct(raw, p + 2, n - 1, comps,
                         ScanComps(d.scan + [k], d.tblNos[k := (raw[p + 1] / 16, raw[p + 1] % 16)]));
      }
    }
  }

  /** The components of a scan are distinct components of the frame, so that a scan of all components is a
      permutation of them. */
  lemma SosDistinct(raw: seq<Byte>, p: nat, sawSof: bool, progressive: bool, comps: seq<CompInfo>)
    ensures var r := Sos(raw, p, sawSof, progressive, comps);
            r.Parsed? ==>
              && DistinctIn(comps, r.value.scan) && r.next >= p
              && (|r.value.scan| == |comps| ==> forall k :: 0 <= k < |comps| ==> k in r.value.scan)
  {
    if Has(raw, p, 3) {
      SosCompsDistinct(raw, p + 3, raw[p + 2], comps, ScanComps([], map[]));
      var r := Sos(raw, p, sawSof, progressive, comps);
      if r.Parsed? && |r.value.scan| == |comps| {
        forall k | 0 <= k < |comps|
          ensures k in r.value.scan
        {
          AllNamed(r.value.scan, |comps|, k);
        }
      }
    }
  }

  /** n distinct numbers below n are all of them. */
  lemma AllNamed(scan: seq<nat>, n: nat, k: nat)
    requires |scan| == n && k < n && (forall i :: 0 <= i < |scan| ==> scan[i] < n)
    requires forall i, j :: 0 <= i < j < |scan| ==> scan[i] != scan[j]
    ensures k in scan
  {
    CountDistinct(scan, |scan|);
    CountBelow(n);
    var named, below := FirstNamed(scan, |scan|), Below(n);
    if k !in scan {
      assert k !in named && k in below;
      Subset(named, below - {k});
      assert false;
    }
  }

  function FirstNamed(scan: seq<nat>, n: nat): (r: set<nat>)
    requires n <= |scan|
    ensures forall k: nat :: k in r <==> exists i :: 0 <= i < n && scan[i] == k
  {
    if n == 0 then {} else FirstNamed(scan, n - 1) + {scan[n - 1]}
  }

  function Below(n: nat): (r: set<nat>)
    ensures forall k: nat :: k in r <==> k < n
  {
    if n == 0 then {} else Below(n - 1) + {n - 1}
  }

  lemma {:induction false} CountDistinct(scan: seq<nat>, n: nat)
    requires n <= |scan| && forall i, j :: 0 <= i < j < |scan| ==> scan[i] != scan[j]
    ensures |FirstNamed(scan, n)| == n
  {
    if n != 0 {
      CountDistinct(scan, n - 1);
    }
  }

  lemma {:induction false} CountBelow(n: nat)
    ensures |Below(n)| == n
  {
    if n != 0 {
      CountBelow(n - 1);
    }
  }

  lemma Subset(a: set<nat>, b: set<nat>)
    requires a <= b
    ensures |a| <= |b|
  {
    assert b == a + (b - a);
  }

  // ------------------------------------------------------------------ DRI, LSE, and markers that are skipped or saved

  function Dri(raw: seq<Byte>, p: nat): Parsed<nat> {
    if !Has(raw, p, 2) then Short
    else if Word(raw, p) != 4 then Failed
    else if !Has(raw, p, 4) then Short
    else Parsed(p + 4, Word(raw, p + 2))
  }

  /** The only inverse color transform that is supported, value by value. */
  function LseValues(comps: seq<CompInfo>): seq<(nat, nat)>
    requires |comps| >= 3
  {
    [(2, 24), (1, 0x0D), (2, 255), (1, 3), (1, comps[1].id), (1, comps[0].id), (1, comps[2].id), (1, 0x80), (2, 0), (2, 0),
     (1, 0), (2, 1), (2, 0), (1, 0), (2, 1), (2, 0)]
  }

  /** One or two bytes as a number. */
  function Number(raw: seq<Byte>, p: nat, size: nat): nat
    requires 1 <= size <= 2 && Has(raw, p, size)
  {
    if size == 1 then raw[p] else Word(raw, p)
  }

  predicate Sizes(vs: seq<(nat, nat)>) {
    forall i :: 0 <= i < |vs| ==> 1 <= vs[i].0 <= 2
  }

  /** The values must be these. */
  function Expect(raw: seq<Byte>, p: nat, vs: seq<(nat, nat)>): Parsed<nat>
    requires Sizes(vs)
    decreases |vs|
  {
    if vs == [] then Parsed(p, 0)
    else if !Has(raw, p, vs[0].0) then Short
    else if Number(raw, p, vs[0].0) != vs[0].1 then Failed
    else Expect(raw, p + vs[0].0, vs[1..])
  }

  lemma {:induction false} ExpectMoves(raw: seq<Byte>, p: nat, vs: seq<(nat, nat)>)
    requires Sizes(vs)
    ensures Expect(raw, p, vs).Parsed? ==> Expect(raw, p, vs).next >= p
    decreases |vs|
  {
    if vs != [] && Has(raw, p, vs[0].0) && Number(raw, p, vs[0].0) == vs[0].1 {
      ExpectMoves(raw, p + vs[0].0, vs[1..]);
    }
  }

  function Lse(raw: seq<Byte>, p: nat, sawSof: bool, comps: seq<CompInfo>): Parsed<nat> {
    if !sawSof || |comps| < 3 then Failed else Expect(raw, p, LseValues(comps))
  }

  /** What the application wants done with an APPn or COM marker: skip it, look at its first bytes
      (get_interesting_appn), or save at most so many bytes of it. */
  datatype Handling = Skip | Look | Save(limit: nat)

  const APPN_DATA_LEN := 14

  /** The end of the marker, whatever its length word says. */
  function EndOf(raw: seq<Byte>, p: nat): (q: nat)
    requires Has(raw, p, 2)
    ensures q >= p + 2
  {
    if Word(raw, p) >= 2 then p + Word(raw, p) else p + 2
  }

  function Skipped(raw: seq<Byte>, p: nat): Parsed<nat> {
    if !Has(raw, p, 2) then Short else Parsed(EndOf(raw, p), 0)
  }

  /** The bytes that get_interesting_appn reads. */
  function LookLength(raw: seq<Byte>, p: nat): nat
    requires Has(raw, p, 2)
  {
    if EndOf(raw, p) - p - 2 >= APPN_DATA_LEN then APPN_DATA_LEN else EndOf(raw, p) - p - 2
  }

  function Looked(raw: seq<Byte>, p: nat): Parsed<nat> {
    if !Has(raw, p, 2) || !Has(raw, p + 2, LookLength(raw, p)) then Short else Parsed(EndOf(raw, p), 0)
  }

  /** A marker that is looked at waits for the first 14 bytes of its data, or for all of it if it is shorter; its
      length word counts two bytes more. */
  lemma LookedWaits(raw: seq<Byte>, p: nat)
    requires Has(raw, p, 2)
    ensures Looked(raw, p).Short? <==> |raw| < p + (if Word(raw, p) >= 16 then 16 else if Word(raw, p) >= 2 then Word(raw, p) else 2)
    ensures Looked(raw, p).Parsed? ==> Looked(raw, p).next == p + if Word(raw, p) >= 2 then Word(raw, p) else 2
  {
  }

  /** A marker that is being saved (cur_marker and bytes_read), or none. */
  datatype Current = NoMarker | Reading(code: Byte, originalLength: nat, limit: nat, data: seq<Byte>)

  /** The rest of save_marker for a marker that has been begun. */
  function Resumed(raw: seq<Byte>, p: nat, cur: Current): Parsed<SavedMarker>
    requires cur.Reading? && |cur.data| <= cur.limit <= cur.originalLength
  {
    if !Has(raw, p, cur.limit - |cur.data|) then Short
    else Parsed(p + cur.originalLength - |cur.data|,
                SavedMarker(cur.code, cur.originalLength, cur.data + raw[p..p + cur.limit - |cur.data|]))
  }

  /** save_marker where a marker begins. */
  function Begun(raw: seq<Byte>, p: nat, code: Byte, limit: nat): Current
    requires Has(raw, p, 2) && Word(raw, p) >= 2
  {
    var length := Word(raw, p) - 2;
    Reading(code, length, if length < limit then length else limit, [])
  }

  // ------------------------------------------------------------------ whole markers

  type Handlers = Byte -> Handling

  datatype Step = Next(next: nat, h: Header) | AtSos(next: nat, h: Header) | AtEoi(next: nat, h: Header) | NoMore | Error

  /** get_soi */
  function AfterSoi(h: Header): Header {
    h.(sawSoi := true, restartInterval := 0, subtractGreen := false,
       dcCond := AllSet(NUM_ARITH, (0, 1)), acCond := AllSet(NUM_ARITH, 5))
  }

  function AllSet<T>(n: nat, v: T): map<nat, T> {
    if n == 0 then map[] else AllSet(n - 1, v)[n - 1 := v]
  }

  /** The header with a frame, and what the kind of SOF marker says. */
  function WithFrame(h: Header, code: Byte, f: Frame): Header {
    WithKind(h, code).(precision := f.precision, height := f.height, width := f.width, comps := f.comps, sawSof := true)
  }

  function WithKind(h: Header, code: Byte): Header {
    h.(baseline := code == M_SOF0, progressive := code == M_SOF2 || code == M_SOF10, arith := code == M_SOF9 || code == M_SOF10)
  }

  predicate IsSof(code: Byte) {
    code == M_SOF0 || code == M_SOF1 || code == M_SOF2 || code == M_SOF9 || code == M_SOF10
  }

  function WithScan(h: Header, s: ScanHeader): Header {
    h.(scan := s.scan, tblNos := h.tblNos + s.tblNos, ss := s.ss, se := s.se, ah := s.ah, al := s.al, nextRestart := 0,
       scanNumber := if s.scan != [] then h.scanNumber + 1 else h.scanNumber)
  }

  predicate IsApp(code: Byte) {
    M_APP0 <= code <= 0xEF
  }

  /** What the parameters from p on make of the header, for the markers that define tables. */
  function ProcessTables(o: NaturalOrders, raw: seq<Byte>, code: Byte, p: nat, h: Header): Step {
    if !Has(raw, p, 2) then NoMore
    else if code == M_DHT then
      var r := Dht(raw, p + 2, Word(raw, p) - 2, map[]);
      if r.Parsed? then Next(r.next, h.(huff := h.huff + r.value)) else if r.Short? then NoMore else Error
    else if code == M_DQT then
      var r := Dqt(o, raw, p + 2, Word(raw, p) - 2, map[]);
      if r.Parsed? then Next(r.next, h.(quant := h.quant + r.value)) else if r.Short? then NoMore else Error
    else
      var r := Dac(raw, p + 2, Word(raw, p) - 2, Conditions(map[], map[]));
      if r.Parsed? then Next(r.next, h.(dcCond := h.dcCond + r.value.dc, acCond := h.acCond + r.value.ac))
      else if r.Short? then NoMore else Error
  }

  function ProcessSof(raw: seq<Byte>, code: Byte, p: nat, h: Header): Step {
    var r := Sof(raw, p, h.sawSof);
    if r.Parsed? then Next(r.next, WithFrame(h, code, r.value)) else if r.Short? then NoMore else Error
  }

  function ProcessSos(raw: seq<Byte>, p: nat, h: Header): Step {
    var r := Sos(raw, p, h.sawSof, h.progressive, h.comps);
    if r.Parsed? then AtSos(r.next, WithScan(h, r.value)) else if r.Short? then NoMore else Error
  }

  function ProcessSaved(raw: seq<Byte>, p: nat, h: Header, cur: Current): Step
    requires Progressing(cur)
  {
    if cur.NoMarker? then NoMore
    else
      var r := Resumed(raw, p, cur);
      if r.Parsed? then Next(r.next, h.(saved := h.saved + [r.value])) else NoMore
  }

  predicate Progressing(cur: Current) {
    cur.Reading? ==> |cur.data| <= cur.limit <= cur.originalLength
  }

  /** APPn and COM markers. */
  function ProcessVariable(hs: Handlers, raw: seq<Byte>, code: Byte, p: nat, h: Header, cur: Current): Step
    requires Progressing(cur)
  {
    match hs(code)
    case Skip => if Skipped(raw, p).Parsed? then Next(Skipped(raw, p).next, h) else NoMore
    case Look => if Looked(raw, p).Parsed? then Next(Looked(raw, p).next, h) else NoMore
    case Save(limit) =>
      if cur.Reading? then ProcessSaved(raw, p, h, cur)
      else if !Has(raw, p, 2) then NoMore
      else if Word(raw, p) < 2 then Next(p + 2, h)
      else ProcessSaved(raw, p + 2, h, Begun(raw, p, code, limit))
  }

  /** The switch of read_markers, with all bytes at hand. */
  function Process(hs: Handlers, o: NaturalOrders, raw: seq<Byte>, code: Byte, p: nat, h: Header, cur: Current): Step
    requires Progressing(cur)
  {
    if code == M_SOI then (if h.sawSoi then Error else Next(p, AfterSoi(h)))
    else if IsSof(code) then ProcessSof(raw, code, p, h)
    else if code == M_SOS then ProcessSos(raw, p, h)
    else if code == M_EOI then AtEoi(p, h)
    else if code == M_DAC || code == M_DHT || code == M_DQT then ProcessTables(o, raw, code, p, h)
    else if code == M_DRI then
      if Dri(raw, p).Parsed? then Next(Dri(raw, p).next, h.(restartInterval := Dri(raw, p).value))
      else if Dri(raw, p).Short? then NoMore else Error
    else if code == M_JPG8 then
      if Lse(raw, p, h.sawSof, h.comps).Parsed? then Next(Lse(raw, p, h.sawSof, h.comps).next, h.(subtractGreen := true))
      else if Lse(raw, p, h.sawSof, h.comps).Short? then NoMore else Error
    else if IsApp(code) || code == M_COM then ProcessVariable(hs, raw, code, p, h, cur)
    else if RST0 <= code <= RST0 + 7 || code == M_TEM then Next(p, h)
    else if code == M_DNL then (if Skipped(raw, p).Parsed? then Next(Skipped(raw, p).next, h) else NoMore)
    else Error
  }

  const RST0: Byte := 0xD0

  /** The codes of table B.1 of ITU-T T.81 for the markers that define tables: DHT, DQT and DAC. */
  lemma TableCodes(o: NaturalOrders, raw: seq<Byte>, p: nat, h: Header)
    requires Has(raw, p, 2)
    ensures var r := Dht(raw, p + 2, Word(raw, p) - 2, map[]);
            ProcessTables(o, raw, 0xC4, p, h)
            == if r.Parsed? then Next(r.next, h.(huff := h.huff + r.value)) else if r.Short? then NoMore else Error
    ensures var r := Dqt(o, raw, p + 2, Word(raw, p) - 2, map[]);
            ProcessTables(o, raw, 0xDB, p, h)
            == if r.Parsed? then Next(r.next, h.(quant := h.quant + r.value)) else if r.Short? then NoMore else Error
    ensures var r := Dac(raw, p + 2, Word(raw, p) - 2, Conditions(map[], map[]));
            ProcessTables(o, raw, 0xCC, p, h)
            == if r.Parsed? then Next(r.next, h.(dcCond := h.dcCond + r.value.dc, acCond := h.acCond + r.value.ac))
               else if r.Short? then NoMore else Error
  {
  }

  /** What the codes of the SOF markers say of the frame. */
  lemma FrameCodes(code: Byte, h: Header, f: Frame)
    ensures IsSof(code) <==> code == 0xC0 || code == 0xC1 || code == 0xC2 || code == 0xC9 || code == 0xCA
    ensures var h1 := WithFrame(h, code, f);
            && (h1.baseline <==> code == 0xC0)
            && (h1.progressive <==> code == 0xC2 || code == 0xCA)
            && (h1.arith <==> code == 0xC9 || code == 0xCA)
            && h1.precision == f.precision && h1.height == f.height && h1.width == f.width && h1.comps == f.comps && h1.sawSof
  {
  }

  /** The other codes of table B.1, and F8 of ITU-T T.87: what the reader does at each.  Any other code is an error. */
  lemma OtherCodes(hs: Handlers, o: NaturalOrders, raw: seq<Byte>, code: Byte, p: nat, h: Header, cur: Current)
    requires Progressing(cur)
    ensures var s := Process(hs, o, raw, code, p, h, cur);
      if IsSof(code) then s == ProcessSof(raw, code, p, h)
      else if code == 0xC4 || code == 0xDB || code == 0xCC then s == ProcessTables(o, raw, code, p, h)
      else if code == 0xD8 then s == if h.sawSoi then Error else Next(p, AfterSoi(h))
      else if code == 0xD9 then s == AtEoi(p, h)
      else if code == 0xDA then s == ProcessSos(raw, p, h)
      else if code == 0xDD then
        var r := Dri(raw, p);
        s == if r.Parsed? then Next(r.next, h.(restartInterval := r.value)) else if r.Short? then NoMore else Error
      else if code == 0xF8 then
        var r := Lse(raw, p, h.sawSof, h.comps);
        s == if r.Parsed? then Next(r.next, h.(subtractGreen := true)) else if r.Short? then NoMore else Error
      else if 0xE0 <= code <= 0xEF || code == 0xFE then s == ProcessVariable(hs, raw, code, p, h, cur)
      else if code == 0xDC then s == if Skipped(raw, p).Parsed? then Next(Skipped(raw, p).next, h) else NoMore
      else s == if 0xD0 <= code <= 0xD7 || code == 0x01 then Next(p, h) else Error
  {
  }

  lemma {:induction false} AllSetTo<T>(n: nat, v: T)
    ensures forall t: nat :: (t in AllSet(n, v) <==> t < n) && (t < n ==> AllSet(n, v)[t] == v)
  {
    if n != 0 {
      AllSetTo(n - 1, v);
    }
  }

  /** SOI sets the restart interval to 0, and the conditioning of all 16 tables to L = 0, U = 1 and Kx = 5; tables
      stay defined. */
  lemma SoiDefaults(h: Header)
    ensures var h1 := AfterSoi(h);
            && h1.sawSoi && h1.restartInterval == 0 && !h1.subtractGreen && h1.huff == h.huff && h1.quant == h.quant
            && (forall t: nat :: t in h1.dcCond <==> t < 16) && (forall t: nat :: t < 16 ==> h1.dcCond[t] == (0, 1))
            && (forall t: nat :: t in h1.acCond <==> t < 16) && (forall t: nat :: t < 16 ==> h1.acCond[t] == 5)
  {
    AllSetTo<(nat, nat)>(NUM_ARITH, (0, 1));
    AllSetTo<nat>(NUM_ARITH, 5);
  }

  lemma ProcessMoves(hs: Handlers, o: NaturalOrders, raw: seq<Byte>, code: Byte, p: nat, h: Header, cur: Current)
    requires Progressing(cur)
    ensures var s := Process(hs, o, raw, code, p, h, cur); s.Next? ==> s.next >= p
  {
    if IsSof(code) {
      SofDistinct(raw, p, h.sawSof);
    } else if Has(raw, p, 2) && code == M_DHT {
      DhtGrows(raw, p + 2, Word(raw, p) - 2, map[]);
    } else if Has(raw, p, 2) && code == M_DQT {
      DqtGrows(o, raw, p + 2, Word(raw, p) - 2, map[]);
    } else if Has(raw, p, 2) && code == M_DAC {
      DacGrows(raw, p + 2, Word(raw, p) - 2, Conditions(map[], map[]));
    } else if code == M_JPG8 && h.sawSof && |h.comps| >= 3 {
      ExpectMoves(raw, p, LseValues(h.comps));
    }
  }

  // ------------------------------------------------------------------ a run of markers

  datatype Outcome = ReachesSos(next: nat, h: Header) | ReachesEoi(next: nat, h: Header) | Starves | Fails

  /** What read_markers comes to from this state when all bytes have arrived: `unread` is the code of a
      marker whose parameters start, or go on, at pos; 0 if the next marker is still to be found. */
  function Fate(hs: Handlers, o: NaturalOrders, raw: seq<Byte>, pos: nat, unread: Byte, h: Header, cur: Current): Outcome
    requires Progressing(cur)
    decreases if pos <= |raw| then |raw| - pos else 0, unread != 0
  {
    if unread != 0 then
      var s := Process(hs, o, raw, unread, pos, h, cur);
      ProcessMoves(hs, o, raw, unread, pos, h, cur);
      if s.Next? then Fate(hs, o, raw, s.next, 0, s.h, NoMarker)
      else if s.AtSos? then ReachesSos(s.next, s.h)
      else if s.AtEoi? then ReachesEoi(s.next, s.h)
      else if s.NoMore? then Starves else Fails
    else if !h.sawSoi then
      if !Has(raw, pos, 2) then Starves
      else if raw[pos] != 0xFF || raw[pos + 1] != M_SOI then Fails
      else Fate(hs, o, raw, pos + 2, M_SOI, h, cur)
    else if pos > |raw| || MarkerFrom(raw, pos) == |raw| then Starves
    else Fate(hs, o, raw, MarkerFrom(raw, pos) + 1, raw[MarkerFrom(raw, pos)], h, cur)
  }
}
