/** The markers that the compressor writes (jcmarker.c), as bytes, and what the marker reader makes of each. */
module MarkerSegments {
  import opened ArithTable
  import opened HuffmanCodes
  import opened Segments
  import opened MarkerParsing
  import SizeArithmetic

  datatype Transform = NoTransform | SubtractGreen | OtherTransform

  /** The fields of the compression object that its markers show; tblNos are dc_tbl_no and ac_tbl_no of each
      component, scan is cur_comp_info. */
  datatype Compression = Compression(
    height: nat, width: nat, precision: nat, blockSize: nat, arith: bool, progressive: bool, transform: Transform,
    comps: seq<CompInfo>, tblNos: seq<(nat, nat)>,
    quant: map<nat, seq<nat>>, huff: map<HuffSlot, HuffTbl>, dcCond: seq<(nat, nat)>, acCond: seq<nat>,
    restartInterval: nat, scan: seq<nat>, ss: nat, se: nat, ah: nat, al: nat)
  {
    /** lim_Se */
    function LimSe(): (r: nat)
      ensures r <= 63
    {
      SizeArithmetic.LimSe(blockSize)
    }

    /** natural_order */
    function NaturalOrder(o: NaturalOrders): Order {
      if blockSize == 2 then o.o2 else if blockSize == 3 then o.o3 else if blockSize == 4 then o.o4
      else if blockSize == 5 then o.o5 else if blockSize == 6 then o.o6 else if blockSize == 7 then o.o7 else o.o8
    }

    /** What initial_setup checks, and the sizes of the fields; component ids are bytes. */
    ghost predicate FrameFits() {
      && 0 < height && 0 < width && precision < 256 && 1 <= blockSize <= 16
      && 1 <= |comps| < 256 && |tblNos| == |comps|
      && (forall i :: 0 <= i < |comps| ==> CompFits(comps[i]))
      && QuantsFit()
    }

    ghost predicate QuantsFit() {
      1 <= blockSize && forall n :: n in quant ==> |quant[n]| == 64 && Words(quant[n])
    }

    ghost predicate HuffsFit() {
      forall s :: s in huff ==> Count(huff[s]) <= 256
    }

    /** The same for the current scan. */
    ghost predicate ScanFits() {
      && |tblNos| == |comps| && DistinctIn(comps, scan) && 1 <= |scan| <= MAX_SCAN_COMPS
      && (forall i :: 0 <= i < |comps| ==> CompFits(comps[i]))
      && ss < 256 && se < 256 && ah < 16 && al < 16 && restartInterval < 65536
      && |dcCond| == |acCond| == NUM_ARITH
      && (forall i :: 0 <= i < |scan| ==> NumbersFit(scan[i]))
      && (arith ==> forall t :: 0 <= t < NUM_ARITH ==> CondFits(t))
      && HuffsFit()
    }

    predicate NumbersFit(k: nat)
      requires |tblNos| == |comps|
    {
      k < |comps| && tblNos[k].0 < TableCount() && tblNos[k].1 < TableCount()
    }

    function TableCount(): nat {
      if arith then NUM_ARITH else NUM_HUFF
    }

    predicate CondFits(t: nat)
      requires t < NUM_ARITH && |dcCond| == |acCond| == NUM_ARITH
    {
      dcCond[t].0 < 16 && dcCond[t].1 < 16 && acCond[t] < 256
    }

    /** The bounds of DC conditioning t are in order. */
    predicate Ordered(t: nat)
      requires t < |dcCond|
    {
      dcCond[t].0 <= dcCond[t].1
    }

    predicate NeedsDc() {
      ss == 0 && ah == 0
    }

    predicate NeedsAc() {
      se != 0
    }

    /** The table numbers that a SOS marker shows for component k. */
    function ShownNos(k: nat): (nat, nat)
      requires k < |tblNos|
    {
      (if NeedsDc() then tblNos[k].0 else 0, if NeedsAc() then tblNos[k].1 else 0)
    }

    /** A SOF0 marker is right. */
    ghost predicate IsBaseline(o: NaturalOrders)
      requires FrameFits()
    {
      && !arith && !progressive && precision == 8 && blockSize == 8
      && forall i :: 0 <= i < |comps| ==> tblNos[i].0 <= 1 && tblNos[i].1 <= 1 && !Wide(o, comps[i].tq)
    }

    /** Quantizer table n needs 16 bits. */
    predicate Wide(o: NaturalOrders, n: nat)
      requires 1 <= blockSize && (n in quant ==> |quant[n]| == 64)
    {
      n in quant && exists k :: 0 <= k <= LimSe() && Zigzag(o, quant[n])[k] > 255
    }

    /** The entries of a table that are sent, in the order in which they are. */
    function Zigzag(o: NaturalOrders, t: seq<nat>): (r: seq<nat>)
      requires 1 <= blockSize && |t| == 64
      ensures |r| == LimSe() + 1
    {
      seq(LimSe() + 1, k requires 0 <= k <= LimSe() => t[NaturalOrder(o)[k]])
    }
  }

  predicate CompFits(c: CompInfo) {
    c.id < 256 && c.h < 16 && c.v < 16 && c.tq < NUM_QUANT_TBLS
  }

  predicate Words(t: seq<nat>) {
    forall v :: 0 <= v < |t| ==> t[v] < 65536
  }

  /** The symbols of a Huffman table. */
  function Count(t: HuffTbl): nat {
    SumOf(t.bits[1..])
  }

  // ------------------------------------------------------------------ bytes

  /** The 16 low bits of a number. */
  function Bytes2(v: nat): (r: seq<Byte>)
    ensures |r| == 2
  {
    [v / 256 % 256, v % 256]
  }

  function Marker(code: Byte): (r: seq<Byte>)
    ensures |r| == 2
  {
    [0xFF, code]
  }

  lemma AtWord(raw: seq<Byte>, p: nat, v: nat, rest: seq<Byte>)
    requires At(raw, p, Bytes2(v) + rest) && v < 65536
    ensures Has(raw, p, 2) && Word(raw, p) == v && At(raw, p + 2, rest)
  {
    AtDrop(raw, p, Bytes2(v), rest);
    assert raw[p] == Bytes2(v)[0] && raw[p + 1] == Bytes2(v)[1];
  }

  lemma AtByte(raw: seq<Byte>, p: nat, b: Byte, rest: seq<Byte>)
    requires At(raw, p, [b] + rest)
    ensures Has(raw, p, 1) && raw[p] == b && At(raw, p + 1, rest)
  {
    AtDrop(raw, p, [b], rest);
    assert raw[p] == [b][0];
  }

  lemma AtSlice(raw: seq<Byte>, p: nat, s: seq<Byte>, rest: seq<Byte>)
    requires At(raw, p, s + rest)
    ensures Has(raw, p, |s|) && raw[p..p + |s|] == s && At(raw, p + |s|, rest)
  {
    AtDrop(raw, p, s, rest);
  }

  lemma AtEnd(raw: seq<Byte>, p: nat, s: seq<Byte>)
    requires At(raw, p, s)
    ensures At(raw, p, s + [])
  {
    assert s + [] == s;
  }

  // ------------------------------------------------------------------ DHT

  function SlotByte(slot: HuffSlot): Byte
    requires slot.i < NUM_HUFF
  {
    if slot.AcSlot? then slot.i + 16 else slot.i
  }

  function DhtParams(slot: HuffSlot, t: HuffTbl): seq<Byte>
    requires slot.i < NUM_HUFF && Count(t) <= 256
  {
    Bytes2(Count(t) + 19) + ([SlotByte(slot)] + (t.bits[1..] + (t.vals[..Count(t)] + [])))
  }

  /** The symbols that a table has, and zeros after them. */
  function AsRead(t: HuffTbl): HuffTbl
    requires Count(t) <= 256
  {
    TableInfo([0] + t.bits[1..], ZeroFilled(t.vals[..Count(t)]))
  }

  lemma DhtRead(o: NaturalOrders, raw: seq<Byte>, p: nat, slot: HuffSlot, t: HuffTbl, h: Header)
    requires slot.i < NUM_HUFF && Count(t) <= 256 && At(raw, p, DhtParams(slot, t))
    ensures ProcessTables(o, raw, M_DHT, p, h) == Next(p + |DhtParams(slot, t)|, h.(huff := h.huff + map[slot := AsRead(t)]))
  {
    var count := Count(t);
    AtWord(raw, p, count + 19, [SlotByte(slot)] + (t.bits[1..] + (t.vals[..count] + [])));
    AtByte(raw, p + 2, SlotByte(slot), t.bits[1..] + (t.vals[..count] + []));
    AtSlice(raw, p + 3, t.bits[1..], t.vals[..count] + []);
    AtSlice(raw, p + 19, t.vals[..count], []);
    assert SlotOf(SlotByte(slot)) == slot;
    assert Dht(raw, p + 2, count + 17, map[]) == Dht(raw, p + 19 + count, 0, map[slot := AsRead(t)]);
  }

  // ------------------------------------------------------------------ DQT

  /** Entries as bytes, one or two for each. */
  function EntryBytesOf(prec: nat, vals: seq<nat>): (r: seq<Byte>)
    ensures |r| == EntryBytes(prec, |vals|)
  {
    if prec != 0 then seq(2 * |vals|, j requires 0 <= j < 2 * |vals| => Bytes2(vals[j / 2])[j % 2])
    else seq(|vals|, j requires 0 <= j < |vals| => vals[j] % 256)
  }

  predicate Narrow(prec: nat, vals: seq<nat>) {
    forall k :: 0 <= k < |vals| ==> vals[k] < if prec != 0 then 65536 else 256
  }

  lemma EntriesRead(raw: seq<Byte>, p: nat, prec: nat, vals: seq<nat>)
    requires At(raw, p, EntryBytesOf(prec, vals)) && Narrow(prec, vals)
    ensures EntriesAt(raw, p, prec, |vals|) == vals
  {
    forall k | 0 <= k < |vals|
      ensures EntryAt(raw, p, prec, k) == vals[k]
    {
      EntryRead(raw, p, prec, vals, k);
    }
  }

  lemma EntryRead(raw: seq<Byte>, p: nat, prec: nat, vals: seq<nat>, k: nat)
    requires At(raw, p, EntryBytesOf(prec, vals)) && Narrow(prec, vals) && k < |vals|
    ensures EntryAt(raw, p, prec, k) == vals[k]
  {
    if prec != 0 {
      assert raw[p + 2 * k] == Bytes2(vals[k])[0];
      assert raw[p + 2 * k + 1] == Bytes2(vals[k])[1];
    } else {
      assert raw[p + k] == vals[k] % 256;
    }
  }

  lemma OneMoreEntry(prec: nat, vals: seq<nat>, k: nat)
    requires k < |vals|
    ensures EntryBytesOf(prec, vals[..k + 1])
         == EntryBytesOf(prec, vals[..k]) + if prec != 0 then Bytes2(vals[k]) else [vals[k] % 256]
  {
    var all, some := EntryBytesOf(prec, vals[..k + 1]), EntryBytesOf(prec, vals[..k]);
    forall j | 0 <= j < |some|
      ensures all[j] == some[j]
    {
    }
  }

  /** The bytes of the first k entries, one entry after the other. */
  function EntriesTo(prec: nat, vals: seq<nat>, k: nat): seq<Byte>
    requires k <= |vals|
  {
    if k == 0 then [] else EntriesTo(prec, vals, k - 1) + if prec != 0 then Bytes2(vals[k - 1]) else [vals[k - 1] % 256]
  }

  lemma {:induction false} EntriesToAll(prec: nat, vals: seq<nat>, k: nat)
    requires k <= |vals|
    ensures EntriesTo(prec, vals, k) == EntryBytesOf(prec, vals[..k])
  {
    if k != 0 {
      EntriesToAll(prec, vals, k - 1);
      OneMoreEntry(prec, vals, k - 1);
    }
  }

  /** The precision is the high half of the index byte. */
  function DqtParams(index: Byte, vals: seq<nat>): seq<Byte> {
    Bytes2(EntryBytes(index / 16, |vals|) + 3) + ([index] + EntryBytesOf(index / 16, vals))
  }

  function OneQuant(n: nat, t: seq<nat>): map<nat, seq<nat>> {
    map[n := t]
  }

  lemma DqtRead(o: NaturalOrders, raw: seq<Byte>, p: nat, index: Byte, n: nat, vals: seq<nat>, h: Header)
    requires index % 16 == n < NUM_QUANT_TBLS && |vals| <= 64 && Narrow(index / 16, vals)
    requires At(raw, p, DqtParams(index, vals))
    ensures ProcessTables(o, raw, M_DQT, p, h)
         == Next(p + |DqtParams(index, vals)|, h.(quant := h.quant + OneQuant(n, QuantFrom(o, vals))))
  {
    DqtFields(raw, p, index, vals);
    DqtDone(o, raw, p, n, vals, h);
  }

  lemma DqtDone(o: NaturalOrders, raw: seq<Byte>, p: nat, n: nat, vals: seq<nat>, h: Header)
    requires |vals| <= 64 && Has(raw, p, 3) && raw[p + 2] % 16 == n < NUM_QUANT_TBLS
    requires Word(raw, p) == EntryBytes(raw[p + 2] / 16, |vals|) + 3
    requires Has(raw, p + 3, EntryBytes(raw[p + 2] / 16, |vals|)) && EntriesAt(raw, p + 3, raw[p + 2] / 16, |vals|) == vals
    ensures ProcessTables(o, raw, M_DQT, p, h)
         == Next(p + 3 + EntryBytes(raw[p + 2] / 16, |vals|), h.(quant := h.quant + OneQuant(n, QuantFrom(o, vals))))
  {
    OneTable(o, raw, p + 2, n, vals);
  }

  lemma DqtFields(raw: seq<Byte>, p: nat, index: Byte, vals: seq<nat>)
    requires |vals| <= 64 && Narrow(index / 16, vals) && At(raw, p, DqtParams(index, vals))
    ensures Has(raw, p, 3) && Word(raw, p) == EntryBytes(index / 16, |vals|) + 3 && raw[p + 2] == index
    ensures Has(raw, p + 3, EntryBytes(index / 16, |vals|)) && EntriesAt(raw, p + 3, index / 16, |vals|) == vals
  {
    var data := EntryBytesOf(index / 16, vals);
    AtWord(raw, p, EntryBytes(index / 16, |vals|) + 3, [index] + data);
    AtByte(raw, p + 2, index, data);
    EntriesRead(raw, p + 3, index / 16, vals);
  }

  lemma OneTable(o: NaturalOrders, raw: seq<Byte>, p: nat, n: nat, vals: seq<nat>)
    requires |vals| <= 64 && Has(raw, p, 1) && raw[p] % 16 == n < NUM_QUANT_TBLS
    requires Has(raw, p + 1, EntryBytes(raw[p] / 16, |vals|)) && EntriesAt(raw, p + 1, raw[p] / 16, |vals|) == vals
    ensures Dqt(o, raw, p, EntryBytes(raw[p] / 16, |vals|) + 1, map[])
         == Parsed(p + 1 + EntryBytes(raw[p] / 16, |vals|), OneQuant(n, QuantFrom(o, vals)))
  {
    QuantWhole(o, raw, p, raw[p] / 16, vals);
    var bytes := EntryBytes(raw[p] / 16, |vals|);
    assert Dqt(o, raw, p, bytes + 1, map[]) == Dqt(o, raw, p + 1 + bytes, 0, OneQuant(n, QuantFrom(o, vals)));
  }

  lemma QuantWhole(o: NaturalOrders, raw: seq<Byte>, p: nat, prec: nat, vals: seq<nat>)
    requires |vals| <= 64 && Has(raw, p, 1) && raw[p] / 16 == prec
    requires Has(raw, p + 1, EntryBytes(prec, |vals|)) && EntriesAt(raw, p + 1, prec, |vals|) == vals
    ensures TableBytes(raw[p], EntryBytes(prec, |vals|)) == EntryBytes(prec, |vals|)
    ensures QuantAt(o, raw, p, EntryBytes(prec, |vals|)) == QuantFrom(o, vals)
  {
  }

  /** In the places that have been sent, the table that is read is the one that was sent. */
  lemma {:induction false} SentIsPlaced(order: Order, t: seq<nat>, vals: seq<nat>, n: nat, base: seq<nat>, k: nat)
    requires |t| == |base| == 64 && k < n <= |vals| <= 64 && forall i :: 0 <= i < |vals| ==> vals[i] == t[order[i]]
    ensures Placed(order, vals, n, base)[order[k]] == t[order[k]]
  {
    if order[n - 1] != order[k] {
      SentIsPlaced(order, t, vals, n - 1, base, k);
    }
  }

  /** The precision is enough. */
  lemma SentIsNarrow(o: NaturalOrders, c: Compression, n: nat)
    requires 1 <= c.blockSize && n in c.quant && |c.quant[n]| == 64 && Words(c.quant[n])
    ensures Narrow(if c.Wide(o, n) then 1 else 0, c.Zigzag(o, c.quant[n]))
  {
    var t, vals := c.quant[n], c.Zigzag(o, c.quant[n]);
    forall k | 0 <= k < |vals|
      ensures vals[k] < if c.Wide(o, n) then 65536 else 256
    {
      assert vals[k] == t[c.NaturalOrder(o)[k]];
    }
  }

  lemma SentIsRead(o: NaturalOrders, c: Compression, t: seq<nat>, k: nat)
    requires 1 <= c.blockSize && |t| == 64 && k <= c.LimSe()
    ensures QuantFrom(o, c.Zigzag(o, t))[c.NaturalOrder(o)[k]] == t[c.NaturalOrder(o)[k]]
  {
    SentIsPlaced(c.NaturalOrder(o), t, c.Zigzag(o, t), c.LimSe() + 1, Ones(), k);
  }

  // ------------------------------------------------------------------ DAC

  /** DC conditioning t is used by the first n components of the scan. */
  predicate DcUsedBy(c: Compression, n: nat, t: nat)
    requires n <= |c.scan|
  {
    c.NeedsDc() && exists i :: 0 <= i < n && c.scan[i] < |c.tblNos| && c.tblNos[c.scan[i]].0 == t
  }

  predicate AcUsedBy(c: Compression, n: nat, t: nat)
    requires n <= |c.scan|
  {
    c.NeedsAc() && exists i :: 0 <= i < n && c.scan[i] < |c.tblNos| && c.tblNos[c.scan[i]].1 == t
  }

  predicate DcUsed(c: Compression, t: nat) {
    DcUsedBy(c, |c.scan|, t)
  }

  predicate AcUsed(c: Compression, t: nat) {
    AcUsedBy(c, |c.scan|, t)
  }

  function DacEntry(c: Compression, t: nat): (r: seq<Byte>)
    requires t < NUM_ARITH && |c.dcCond| == |c.acCond| == NUM_ARITH && c.CondFits(t)
  {
    (if DcUsed(c, t) then [t, c.dcCond[t].0 + c.dcCond[t].1 * 16] else [])
    + if AcUsed(c, t) then [t + 16, c.acCond[t]] else []
  }

  predicate CondsFit(c: Compression) {
    |c.dcCond| == |c.acCond| == NUM_ARITH && forall t :: 0 <= t < NUM_ARITH ==> c.CondFits(t)
  }

  /** The conditioning of the first n tables, as far as it is used. */
  function DacEntries(c: Compression, n: nat): seq<Byte>
    requires n <= NUM_ARITH && CondsFit(c)
  {
    if n == 0 then [] else DacEntries(c, n - 1) + DacEntry(c, n - 1)
  }

  function DacParams(c: Compression): seq<Byte>
    requires CondsFit(c)
  {
    Bytes2(|DacEntries(c, NUM_ARITH)| + 2) + DacEntries(c, NUM_ARITH)
  }

  /** What is read when the first n tables have been: the used ones, with their values. */
  ghost predicate ReadConds(c: Compression, n: nat, d: Conditions)
    requires n <= NUM_ARITH && CondsFit(c)
  {
    && (forall t: nat :: t in d.dc <==> t < n && DcUsed(c, t)) && (forall t :: t in d.dc ==> d.dc[t] == c.dcCond[t])
    && (forall t: nat :: t in d.ac <==> t < n && AcUsed(c, t)) && (forall t :: t in d.ac ==> d.ac[t] == c.acCond[t])
  }

  function WithDc(c: Compression, t: nat, d: Conditions): Conditions
    requires t < NUM_ARITH && CondsFit(c)
  {
    if DcUsed(c, t) then d.(dc := d.dc[t := c.dcCond[t]]) else d
  }

  function WithAc(c: Compression, t: nat, d: Conditions): Conditions
    requires t < NUM_ARITH && CondsFit(c)
  {
    if AcUsed(c, t) then d.(ac := d.ac[t := c.acCond[t]]) else d
  }

  /** The reader accepts the conditioning of the first n tables. */
  ghost predicate InOrder(c: Compression, n: nat)
    requires n <= NUM_ARITH && CondsFit(c)
  {
    forall t :: 0 <= t < n && DcUsed(c, t) ==> c.Ordered(t)
  }

  lemma ConditionRead(c: Compression, t: nat, raw: seq<Byte>, p: nat, left: nat, d: Conditions)
    requires t < NUM_ARITH && CondsFit(c) && At(raw, p, DacEntry(c, t)) && (DcUsed(c, t) ==> c.Ordered(t))
    ensures Dac(raw, p, left + |DacEntry(c, t)|, d) == Dac(raw, p + |DacEntry(c, t)|, left, WithAc(c, t, WithDc(c, t, d)))
  {
    assert c.CondFits(t);
    var dc: seq<Byte> := if DcUsed(c, t) then [t, c.dcCond[t].0 + c.dcCond[t].1 * 16] else [];
    var ac: seq<Byte> := if AcUsed(c, t) then [t + 16, c.acCond[t]] else [];
    AtDrop(raw, p, dc, ac);
    if DcUsed(c, t) {
      assert raw[p] == dc[0] && raw[p + 1] == dc[1];
      assert Dac(raw, p, left + |dc| + |ac|, d) == Dac(raw, p + |dc|, left + |ac|, WithDc(c, t, d));
    }
    if AcUsed(c, t) {
      var q := p + |dc|;
      assert raw[q] == ac[0] && raw[q + 1] == ac[1];
    }
  }

  /** The values read from the first n entries. */
  function ReadFrom(c: Compression, n: nat): Conditions
    requires n <= NUM_ARITH && CondsFit(c)
  {
    if n == 0 then Conditions(map[], map[]) else WithAc(c, n - 1, WithDc(c, n - 1, ReadFrom(c, n - 1)))
  }

  lemma {:induction false} ReadFromAll(c: Compression, n: nat)
    requires n <= NUM_ARITH && CondsFit(c)
    ensures ReadConds(c, n, ReadFrom(c, n))
  {
    if n != 0 {
      ReadFromAll(c, n - 1);
    }
  }

  lemma {:induction false} ConditionsRead(c: Compression, n: nat, raw: seq<Byte>, p: nat, left: nat)
    requires n <= NUM_ARITH && CondsFit(c) && InOrder(c, n) && At(raw, p, DacEntries(c, n))
    ensures Dac(raw, p, left + |DacEntries(c, n)|, Conditions(map[], map[]))
         == Dac(raw, p + |DacEntries(c, n)|, left, ReadFrom(c, n))
  {
    if n != 0 {
      assert DacEntries(c, n) == DacEntries(c, n - 1) + DacEntry(c, n - 1);
      AtDrop(raw, p, DacEntries(c, n - 1), DacEntry(c, n - 1));
      ConditionsRead(c, n - 1, raw, p, left + |DacEntry(c, n - 1)|);
      ConditionRead(c, n - 1, raw, p + |DacEntries(c, n - 1)|, left, ReadFrom(c, n - 1));
    }
  }

  /** If no conditioning is used, none is read. */
  lemma {:induction false} NoConditions(c: Compression, n: nat)
    requires n <= NUM_ARITH && CondsFit(c) && DacEntries(c, n) == []
    ensures ReadFrom(c, n) == Conditions(map[], map[]) && InOrder(c, n)
  {
    if n != 0 {
      NoConditions(c, n - 1);
    }
  }

  /** The whole marker; none if no conditioning is used. */
  function DacMarker(c: Compression): seq<Byte>
    requires CondsFit(c)
  {
    if DacEntries(c, NUM_ARITH) == [] then [] else Marker(M_DAC) + DacParams(c)
  }

  lemma {:induction false} FewConditions(c: Compression, n: nat)
    requires n <= NUM_ARITH && CondsFit(c)
    ensures |DacEntries(c, n)| <= 4 * n
  {
    if n != 0 {
      FewConditions(c, n - 1);
    }
  }

  function WithConds(h: Header, d: Conditions): Header {
    h.(dcCond := h.dcCond + d.dc, acCond := h.acCond + d.ac)
  }

  /** Bounds out of order are written, but not read. */
  lemma {:induction false} ConditionsFail(c: Compression, n: nat, t: nat, raw: seq<Byte>, p: nat, left: nat)
    requires t < n <= NUM_ARITH && CondsFit(c) && InOrder(c, t) && DcUsed(c, t) && !c.Ordered(t)
    requires At(raw, p, DacEntries(c, n))
    ensures Dac(raw, p, left + |DacEntries(c, n)|, Conditions(map[], map[])).Failed?
  {
    AtDrop(raw, p, DacEntries(c, n - 1), DacEntry(c, n - 1));
    if n == t + 1 {
      ConditionsRead(c, t, raw, p, left + |DacEntry(c, t)|);
      ConditionFails(c, t, raw, p + |DacEntries(c, t)|, left, ReadFrom(c, t));
    } else {
      ConditionsFail(c, n - 1, t, raw, p, left + |DacEntry(c, n - 1)|);
    }
  }

  lemma ConditionFails(c: Compression, t: nat, raw: seq<Byte>, p: nat, left: nat, d: Conditions)
    requires t < NUM_ARITH && CondsFit(c) && DcUsed(c, t) && !c.Ordered(t) && At(raw, p, DacEntry(c, t))
    ensures Dac(raw, p, left + |DacEntry(c, t)|, d).Failed?
  {
    assert c.CondFits(t);
    assert raw[p] == DacEntry(c, t)[0] && raw[p + 1] == DacEntry(c, t)[1];
  }

  lemma FirstOutOfOrder(c: Compression, n: nat) returns (t: nat)
    requires n <= NUM_ARITH && CondsFit(c) && !InOrder(c, n)
    ensures t < n && InOrder(c, t) && DcUsed(c, t) && !c.Ordered(t)
  {
    t := 0;
    while t < n && InOrder(c, t + 1)
      invariant t <= n && InOrder(c, t)
    {
      t := t + 1;
    }
  }

  /** A DAC marker is read as it was written exactly if the bounds of each DC conditioning that is used are in
      order; otherwise reading it is an error. */
  lemma DacRead(o: NaturalOrders, raw: seq<Byte>, p: nat, c: Compression, h: Header)
    requires CondsFit(c) && At(raw, p, DacParams(c))
    ensures ReadConds(c, NUM_ARITH, ReadFrom(c, NUM_ARITH))
    ensures ProcessTables(o, raw, M_DAC, p, h)
         == if InOrder(c, NUM_ARITH) then Next(p + |DacParams(c)|, WithConds(h, ReadFrom(c, NUM_ARITH))) else Error
  {
    var n: nat := NUM_ARITH;
    FewConditions(c, n);
    AtWord(raw, p, |DacEntries(c, n)| + 2, DacEntries(c, n));
    ReadFromAll(c, n);
    if InOrder(c, n) {
      ConditionsRead(c, n, raw, p + 2, 0);
    } else {
      var t := FirstOutOfOrder(c, n);
      ConditionsFail(c, n, t, raw, p + 2, 0);
    }
  }

  /** DC conditioning 0 with bounds 1 and 0, in a scan that uses it. */
  const UNORDERED := Compression(1, 1, 8, 8, true, false, NoTransform, [CompInfo(1, 1, 1, 0)], [(0, 0)], map[], map[],
                                 seq(16, _ => (1, 0)), seq(16, _ => 5), 0, [0], 0, 63, 0, 0)

  /** Such bounds can be written; no reader takes them. */
  lemma OutOfOrderExists(o: NaturalOrders, raw: seq<Byte>, p: nat, h: Header)
    requires CondsFit(UNORDERED) && At(raw, p, DacParams(UNORDERED))
    ensures UNORDERED.ScanFits() && DcUsed(UNORDERED, 0) && !UNORDERED.Ordered(0)
    ensures ProcessTables(o, raw, M_DAC, p, h) == Error
  {
    assert UNORDERED.tblNos[UNORDERED.scan[0]].0 == 0;
    DacRead(o, raw, p, UNORDERED, h);
  }

  // ------------------------------------------------------------------ SOF

  function CompBytes(c: CompInfo): (r: seq<Byte>)
    requires CompFits(c)
    ensures |r| == 3
  {
    [c.id, c.h * 16 + c.v, c.tq]
  }

  predicate AllFit(comps: seq<CompInfo>) {
    forall i :: 0 <= i < |comps| ==> CompFits(comps[i])
  }

  function CompsBytes(comps: seq<CompInfo>): (r: seq<Byte>)
    requires AllFit(comps)
    ensures |r| == 3 * |comps|
  {
    if comps == [] then [] else CompBytes(comps[0]) + CompsBytes(comps[1..])
  }

  /** A component's bytes follow those of the components before it. */
  lemma {:induction false} CompsBytesMore(comps: seq<CompInfo>, c: CompInfo)
    requires AllFit(comps) && CompFits(c)
    ensures CompsBytes(comps + [c]) == CompsBytes(comps) + CompBytes(c)
  {
    if comps == [] {
      assert [] + [c] == [c] && [c][1..] == [];
    } else {
      assert (comps + [c])[1..] == comps[1..] + [c];
      CompsBytesMore(comps[1..], c);
    }
  }

  /** The bytes of the first n components. */
  function CompsTo(comps: seq<CompInfo>, n: nat): seq<Byte>
    requires AllFit(comps) && n <= |comps|
  {
    if n == 0 then [] else CompsTo(comps, n - 1) + CompBytes(comps[n - 1])
  }

  lemma {:induction false} CompsToAll(comps: seq<CompInfo>, n: nat)
    requires AllFit(comps) && n <= |comps|
    ensures CompsTo(comps, n) == CompsBytes(comps[..n])
  {
    if n != 0 {
      CompsToAll(comps, n - 1);
      CompsBytesMore(comps[..n - 1], comps[n - 1]);
      assert comps[..n] == comps[..n - 1] + [comps[n - 1]];
    }
  }

  function SofParams(f: Frame): seq<Byte>
    requires AllFit(f.comps) && f.precision < 256 && |f.comps| < 256
  {
    Bytes2(3 * |f.comps| + 8)
    + ([f.precision] + (Bytes2(f.height) + (Bytes2(f.width) + ([|f.comps|] + CompsBytes(f.comps)))))
  }

  /** The components that a reader has in the end: repeated ids are replaced. */
  function Named(done: seq<CompInfo>, todo: seq<CompInfo>): (r: seq<CompInfo>)
    ensures |r| == |done| + |todo| && done <= r
    decreases |todo|
  {
    if todo == [] then done else Named(done + [todo[0].(id := FreshId(todo[0].id, Ids(done)))], todo[1..])
  }

  function Renamed(comps: seq<CompInfo>): (r: seq<CompInfo>)
    ensures |r| == |comps|
  {
    Named([], comps)
  }

  lemma {:induction false} NamedDistinct(done: seq<CompInfo>, todo: seq<CompInfo>)
    requires DistinctIds(Ids(done))
    ensures DistinctIds(Ids(Named(done, todo)))
    ensures DistinctIds(Ids(done + todo)) ==> Named(done, todo) == done + todo
    decreases |todo|
  {
    if todo == [] {
      assert done + todo == done;
    } else {
      var c := todo[0].(id := FreshId(todo[0].id, Ids(done)));
      assert Ids(done + [c]) == Ids(done) + [c.id];
      NamedDistinct(done + [c], todo[1..]);
      if DistinctIds(Ids(done + todo)) {
        NotYet(done, todo);
        assert done + todo == (done + [c]) + todo[1..];
      }
    }
  }

  lemma NotYet(done: seq<CompInfo>, todo: seq<CompInfo>)
    requires todo != [] && DistinctIds(Ids(done + todo))
    ensures todo[0].id !in Ids(done)
  {
    var ids := Ids(done + todo);
    forall i | 0 <= i < |done|
      ensures Ids(done)[i] != todo[0].id
    {
      assert ids[i] == Ids(done)[i] && ids[|done|] == todo[0].id;
    }
  }

  /** Exactly distinct ids are kept. */
  lemma RenamedIs(comps: seq<CompInfo>)
    ensures DistinctIds(Ids(Renamed(comps)))
    ensures Renamed(comps) == comps <==> DistinctIds(Ids(comps))
  {
    NamedDistinct([], comps);
    assert [] + comps == comps;
  }

  /** Each id is replaced with regard to the components before it. */
  lemma {:induction false} NamedAt(done: seq<CompInfo>, todo: seq<CompInfo>, i: nat)
    requires i < |todo|
    ensures var r := Named(done, todo); r[|done| + i].id == FreshId(todo[i].id, Ids(r[..|done| + i]))
    decreases |todo|
  {
    var c := todo[0].(id := FreshId(todo[0].id, Ids(done)));
    if i == 0 {
      assert Named(done, todo)[..|done|] == done && done + [c] <= Named(done, todo);
    } else {
      NamedAt(done + [c], todo[1..], i - 1);
    }
  }

  lemma {:induction false} CompsRead(raw: seq<Byte>, p: nat, done: seq<CompInfo>, todo: seq<CompInfo>)
    requires AllFit(todo) && At(raw, p, CompsBytes(todo))
    ensures SofComps(raw, p, |todo|, done) == Parsed(p + 3 * |todo|, Named(done, todo))
    decreases |todo|
  {
    if todo != [] {
      var c := todo[0];
      AtDrop(raw, p, CompBytes(c), CompsBytes(todo[1..]));
      assert raw[p] == CompBytes(c)[0] && raw[p + 1] == CompBytes(c)[1] && raw[p + 2] == CompBytes(c)[2];
      CompsRead(raw, p + 3, done + [c.(id := FreshId(c.id, Ids(done)))], todo[1..]);
    }
  }

  /** The frame is read with repeated ids replaced; so as it was written, exactly if the ids are distinct. */
  lemma FrameRead(raw: seq<Byte>, p: nat, f: Frame)
    requires AllFit(f.comps) && f.precision < 256 && 1 <= |f.comps| < 256 && 0 < f.height < 65536 && 0 < f.width < 65536
    requires At(raw, p, SofParams(f))
    ensures Sof(raw, p, false) == Parsed(p + |SofParams(f)|, f.(comps := Renamed(f.comps)))
    ensures Sof(raw, p, false) == Parsed(p + |SofParams(f)|, f) <==> DistinctIds(Ids(f.comps))
  {
    var n := |f.comps|;
    var d := CompsBytes(f.comps);
    AtWord(raw, p, 3 * n + 8, [f.precision] + (Bytes2(f.height) + (Bytes2(f.width) + ([n] + d))));
    AtByte(raw, p + 2, f.precision, Bytes2(f.height) + (Bytes2(f.width) + ([n] + d)));
    AtWord(raw, p + 3, f.height, Bytes2(f.width) + ([n] + d));
    AtWord(raw, p + 5, f.width, [n] + d);
    AtByte(raw, p + 7, n, d);
    CompsRead(raw, p + 8, [], f.comps);
    RenamedIs(f.comps);
  }

  /** Two components with one id: the second is read with another. */
  lemma EqualIdsExist(raw: seq<Byte>, p: nat)
    requires At(raw, p, SofParams(Frame(8, 1, 1, [CompInfo(1, 1, 1, 0), CompInfo(1, 1, 1, 0)])))
    ensures Sof(raw, p, false) == Parsed(p + 14, Frame(8, 1, 1, [CompInfo(1, 1, 1, 0), CompInfo(2, 1, 1, 0)]))
  {
    var c := CompInfo(1, 1, 1, 0);
    FrameRead(raw, p, Frame(8, 1, 1, [c, c]));
    assert Ids([c]) == [1];
    assert Ids([]) == [];
    assert [c, c][1..] == [c] && [c][1..] == [];
    assert [] + [c] == [c] && [c] + [CompInfo(2, 1, 1, 0)] == [c, CompInfo(2, 1, 1, 0)];
    assert Named([], [c, c]) == Named([c], [c]) == Named([c, CompInfo(2, 1, 1, 0)], []);
  }

  // ------------------------------------------------------------------ SOS

  /** The component specifications of a SOS marker. */
  function SpecBytes(c: Compression, scan: seq<nat>): (r: seq<Byte>)
    requires SpecsFit(c, scan)
    ensures |r| == 2 * |scan|
  {
    if scan == [] then [] else SpecByte(c, scan[0]) + SpecBytes(c, scan[1..])
  }

  lemma {:induction false} SpecBytesMore(c: Compression, scan: seq<nat>, k: nat)
    requires SpecsFit(c, scan) && SpecFits(c, k)
    ensures SpecBytes(c, scan + [k]) == SpecBytes(c, scan) + SpecByte(c, k)
  {
    if scan == [] {
      assert [] + [k] == [k] && [k][1..] == [];
    } else {
      assert (scan + [k])[1..] == scan[1..] + [k];
      SpecBytesMore(c, scan[1..], k);
    }
  }

  predicate SpecsFit(c: Compression, scan: seq<nat>) {
    |c.tblNos| == |c.comps| && forall i :: 0 <= i < |scan| ==> SpecFits(c, scan[i])
  }

  predicate SpecFits(c: Compression, k: nat)
    requires |c.tblNos| == |c.comps|
  {
    k < |c.comps| && c.comps[k].id < 256 && c.ShownNos(k).0 < 16 && c.ShownNos(k).1 < 16
  }

  function SpecByte(c: Compression, k: nat): (r: seq<Byte>)
    requires |c.tblNos| == |c.comps| && SpecFits(c, k)
    ensures |r| == 2
  {
    [c.comps[k].id, c.ShownNos(k).0 * 16 + c.ShownNos(k).1]
  }

  function SosParams(c: Compression): seq<Byte>
    requires SpecsFit(c, c.scan) && |c.scan| <= MAX_SCAN_COMPS && c.ss < 256 && c.se < 256 && c.ah < 16 && c.al < 16
  {
    Bytes2(2 * |c.scan| + 6) + ([|c.scan|] + (SpecBytes(c, c.scan) + [c.ss, c.se, c.ah * 16 + c.al]))
  }

  /** The table numbers that are read. */
  function NosOf(c: Compression, scan: seq<nat>): map<nat, (nat, nat)>
    requires SpecsFit(c, scan)
  {
    map k | k in scan :: c.ShownNos(k)
  }

  lemma IsIndex(comps: seq<CompInfo>, k: nat, j: nat)
    requires DistinctIds(Ids(comps)) && k < |comps| && j <= |comps|
    requires if j < |comps| then comps[j].id == comps[k].id else comps[k].id !in Ids(comps)
    ensures j == k
  {
    assert Ids(comps)[k] == comps[k].id;
    if j < |comps| {
      assert Ids(comps)[j] == comps[j].id;
    }
  }

  /** With these components, a reader finds component i of the scan by the id that is written for it. */
  predicate Finds(c: Compression, named: seq<CompInfo>, scan: seq<nat>, i: nat)
    requires SpecsFit(c, scan) && |named| == |c.comps| && i < |scan|
  {
    FreshId(c.comps[scan[i]].id, ScanIds(named, scan[..i])) == named[scan[i]].id
  }

  predicate FindsAll(c: Compression, named: seq<CompInfo>)
    requires SpecsFit(c, c.scan) && |named| == |c.comps|
  {
    forall i :: 0 <= i < |c.scan| ==> Finds(c, named, c.scan, i)
  }

  /** Distinct ids are always found. */
  lemma DistinctAreFound(c: Compression)
    requires SpecsFit(c, c.scan) && DistinctIn(c.comps, c.scan) && DistinctIds(Ids(c.comps))
    ensures FindsAll(c, Renamed(c.comps))
  {
    RenamedIs(c.comps);
    forall i, j | 0 <= j < i < |c.scan|
      ensures ScanIds(c.comps, c.scan[..i])[j] != c.comps[c.scan[i]].id
    {
      assert Ids(c.comps)[c.scan[j]] != Ids(c.comps)[c.scan[i]];
    }
  }

  /** Whatever the ids, they are found in a scan of the first components, all of them for example, in order. */
  lemma FirstAreFound(c: Compression)
    requires SpecsFit(c, c.scan) && forall i :: 0 <= i < |c.scan| ==> c.scan[i] == i
    ensures FindsAll(c, Renamed(c.comps))
  {
    var named := Renamed(c.comps);
    forall i | 0 <= i < |c.scan|
      ensures Finds(c, named, c.scan, i)
    {
      assert SpecFits(c, c.scan[i]);
      NamedAt([], c.comps, i);
      assert ScanIds(named, c.scan[..i]) == Ids(named[..i]);
    }
  }

  lemma {:induction false} SpecsRead(raw: seq<Byte>, p: nat, c: Compression, named: seq<CompInfo>, done: seq<nat>, todo: seq<nat>)
    requires SpecsFit(c, done) && SpecsFit(c, todo) && SpecsFit(c, done + todo) && |named| == |c.comps|
    requires At(raw, p, SpecBytes(c, todo)) && DistinctIds(Ids(named))
    ensures var r := SosComps(raw, p, |todo|, named, ScanComps(done, NosOf(c, done)));
            if forall i :: |done| <= i < |done + todo| ==> Finds(c, named, done + todo, i)
            then r == Parsed(p + 2 * |todo|, ScanComps(done + todo, NosOf(c, done + todo)))
            else r.Parsed? ==> r.value.scan != done + todo
    decreases |todo|
  {
    if todo == [] {
      assert done + todo == done;
    } else {
      SpecsSplit(c, done, todo);
      AtDrop(raw, p, SpecByte(c, todo[0]), SpecBytes(c, todo[1..]));
      var all, n := done + todo, |done|;
      assert all[..n] == done && all[n] == todo[0];
      if Finds(c, named, all, n) {
        SpecRead(raw, p, c, named, done, todo[0], |todo|);
        SpecsRead(raw, p + 2, c, named, done + [todo[0]], todo[1..]);
      } else {
        SpecMissed(raw, p, c, named, done, todo[0], |todo|);
      }
    }
  }

  lemma SpecsSplit(c: Compression, done: seq<nat>, todo: seq<nat>)
    requires todo != [] && SpecsFit(c, done + todo)
    ensures done + todo == (done + [todo[0]]) + todo[1..]
    ensures SpecFits(c, todo[0]) && SpecsFit(c, todo[1..]) && SpecsFit(c, done) && SpecsFit(c, done + [todo[0]])
  {
    var all := done + todo;
    assert done + todo == (done + [todo[0]]) + todo[1..];
    assert all[|done|] == todo[0];
    assert done == all[..|done|] && done + [todo[0]] == all[..|done| + 1] && todo[1..] == all[|done| + 1..];
  }

  lemma SpecRead(raw: seq<Byte>, p: nat, c: Compression, named: seq<CompInfo>, done: seq<nat>, k: nat, n: nat)
    requires n > 0 && SpecsFit(c, done) && SpecFits(c, k) && At(raw, p, SpecByte(c, k)) && |named| == |c.comps|
    requires DistinctIds(Ids(named)) && SpecsFit(c, done + [k])
    requires FreshId(c.comps[k].id, ScanIds(named, done)) == named[k].id
    ensures SosComps(raw, p, n, named, ScanComps(done, NosOf(c, done)))
         == SosComps(raw, p + 2, n - 1, named, ScanComps(done + [k], NosOf(c, done + [k])))
  {
    assert raw[p] == SpecByte(c, k)[0] && raw[p + 1] == SpecByte(c, k)[1];
    IsIndex(named, k, IndexOf(named, named[k].id));
    assert NosOf(c, done + [k]) == NosOf(c, done)[k := c.ShownNos(k)];
  }

  /** An id that does not find its component finds another, or none. */
  lemma SpecMissed(raw: seq<Byte>, p: nat, c: Compression, named: seq<CompInfo>, done: seq<nat>, k: nat, n: nat)
    requires n > 0 && SpecsFit(c, done) && SpecFits(c, k) && At(raw, p, SpecByte(c, k)) && |named| == |c.comps|
    requires FreshId(c.comps[k].id, ScanIds(named, done)) != named[k].id
    ensures var r := SosComps(raw, p, n, named, ScanComps(done, NosOf(c, done)));
            r.Parsed? ==> |r.value.scan| > |done| && r.value.scan[|done|] != k
  {
    assert raw[p] == SpecByte(c, k)[0] && raw[p + 1] == SpecByte(c, k)[1];
    var j := IndexOf(named, FreshId(raw[p], ScanIds(named, done)));
    if j < |named| {
      var d := ScanComps(done + [j], NosOf(c, done)[j := (raw[p + 1] / 16, raw[p + 1] % 16)]);
      ScanKept(raw, p + 2, n - 1, named, d);
      assert d.scan[|done|] == j;
    }
  }

  lemma {:induction false} ScanKept(raw: seq<Byte>, p: nat, n: nat, comps: seq<CompInfo>, d: ScanComps)
    ensures var r := SosComps(raw, p, n, comps, d); r.Parsed? ==> d.scan <= r.value.scan
    decreases n
  {
    if n != 0 && Has(raw, p, 2) {
      var k := IndexOf(comps, FreshId(raw[p], ScanIds(comps, d.scan)));
      if k < |comps| {
        ScanKept(raw, p + 2, n - 1, comps, ScanComps(d.scan + [k], d.tblNos[k := (raw[p + 1] / 16, raw[p + 1] % 16)]));
      }
    }
  }

  predicate SosFits(c: Compression) {
    SpecsFit(c, c.scan) && |c.scan| <= MAX_SCAN_COMPS && c.ss < 256 && c.se < 256 && c.ah < 16 && c.al < 16
  }

  lemma SosFields(raw: seq<Byte>, p: nat, c: Compression, n: nat)
    requires SosFits(c) && At(raw, p, SosParams(c)) && n == |c.scan|
    ensures Has(raw, p, 6 + 2 * n) && Word(raw, p) == 2 * n + 6 && raw[p + 2] == n && At(raw, p + 3, SpecBytes(c, c.scan))
    ensures raw[p + 3 + 2 * n] == c.ss && raw[p + 3 + 2 * n + 1] == c.se && raw[p + 3 + 2 * n + 2] == c.ah * 16 + c.al
    ensures |SosParams(c)| == 6 + 2 * n
  {
    var specs, tail := SpecBytes(c, c.scan), [c.ss, c.se, c.ah * 16 + c.al];
    AtWord(raw, p, 2 * n + 6, [n] + (specs + tail));
    AtByte(raw, p + 2, n, specs + tail);
    AtDrop(raw, p + 3, specs, tail);
    var q := p + 3 + 2 * n;
    assert raw[q] == tail[0] && raw[q + 1] == tail[1] && raw[q + 2] == tail[2];
  }

  /** The scan is read as it was written, exactly if each of its components is found by its id. */
  lemma SosRead(raw: seq<Byte>, p: nat, c: Compression, h: Header)
    requires SosFits(c) && At(raw, p, SosParams(c))
    requires h.sawSof && |h.comps| == |c.comps| && DistinctIds(Ids(h.comps)) && (c.scan == [] ==> h.progressive)
    ensures ProcessSos(raw, p, h) == AtSos(p + |SosParams(c)|, WithScan(h, HeaderOf(c))) <==> FindsAll(c, h.comps)
  {
    SosFields(raw, p, c, |c.scan|);
    AllSpecsRead(raw, p + 3, c, h.comps);
    SosTaken(raw, p, c, |c.scan|, h);
  }

  lemma AllSpecsRead(raw: seq<Byte>, p: nat, c: Compression, named: seq<CompInfo>)
    requires SosFits(c) && |named| == |c.comps| && DistinctIds(Ids(named)) && At(raw, p, SpecBytes(c, c.scan))
    ensures var r := SosComps(raw, p, |c.scan|, named, ScanComps([], map[]));
            if FindsAll(c, named) then r == Parsed(p + 2 * |c.scan|, ScanComps(c.scan, NosOf(c, c.scan)))
            else r.Parsed? ==> r.value.scan != c.scan
  {
    assert [] + c.scan == c.scan;
    assert NosOf(c, []) == map[];
    SpecsRead(raw, p, c, named, [], c.scan);
  }

  lemma SosTaken(raw: seq<Byte>, p: nat, c: Compression, n: nat, h: Header)
    requires SosFits(c) && n == |c.scan| && Has(raw, p, 6 + 2 * n) && Word(raw, p) == 2 * n + 6 && raw[p + 2] == n
    requires raw[p + 3 + 2 * n] == c.ss && raw[p + 3 + 2 * n + 1] == c.se && raw[p + 3 + 2 * n + 2] == c.ah * 16 + c.al
    requires h.sawSof && (n == 0 ==> h.progressive)
    ensures var r := SosComps(raw, p + 3, n, h.comps, ScanComps([], map[]));
            && (r == Parsed(p + 3 + 2 * n, ScanComps(c.scan, NosOf(c, c.scan)))
                ==> ProcessSos(raw, p, h) == AtSos(p + 6 + 2 * n, WithScan(h, HeaderOf(c))))
            && ((r.Parsed? ==> r.value.scan != c.scan)
                ==> ProcessSos(raw, p, h) != AtSos(p + 6 + 2 * n, WithScan(h, HeaderOf(c))))
  {
    Halves(c.ah, c.al);
  }

  lemma Halves(high: nat, low: nat)
    requires high < 16 && low < 16
    ensures (high * 16 + low) / 16 == high && (high * 16 + low) % 16 == low
  {
  }

  function HeaderOf(c: Compression): ScanHeader
    requires SosFits(c)
  {
    ScanHeader(c.scan, NosOf(c, c.scan), c.ss, c.se, c.ah, c.al)
  }

  // ------------------------------------------------------------------ DRI and LSE

  function DriParams(interval: nat): seq<Byte> {
    Bytes2(4) + (Bytes2(interval) + [])
  }

  lemma DriRead(raw: seq<Byte>, p: nat, interval: nat)
    requires At(raw, p, DriParams(interval)) && interval < 65536
    ensures Dri(raw, p) == Parsed(p + 4, interval)
  {
    AtWord(raw, p, 4, Bytes2(interval) + []);
    AtWord(raw, p + 2, interval, []);
  }

  predicate ValueFits(v: (nat, nat)) {
    (v.0 == 1 && v.1 < 256) || (v.0 == 2 && v.1 < 65536)
  }

  predicate ValuesFit(vs: seq<(nat, nat)>) {
    forall i :: 0 <= i < |vs| ==> ValueFits(vs[i])
  }

  function NumberBytes(size: nat, value: nat): (r: seq<Byte>)
    requires size == 1 || size == 2
    ensures |r| == size
  {
    if size == 1 then [value % 256] else Bytes2(value)
  }

  /** The first k values. */
  function ValueBytes(vs: seq<(nat, nat)>, k: nat): seq<Byte>
    requires k <= |vs| && ValuesFit(vs)
  {
    if k == 0 then [] else ValueBytes(vs, k - 1) + NumberBytes(vs[k - 1].0, vs[k - 1].1)
  }

  /** Values that are as expected so far. */
  lemma {:induction false} ValuesRead(raw: seq<Byte>, p: nat, vs: seq<(nat, nat)>, wanted: seq<(nat, nat)>, k: nat)
    requires k <= |vs| == |wanted| && ValuesFit(vs) && Sizes(wanted) && At(raw, p, ValueBytes(vs, k))
    requires forall j :: 0 <= j < k ==> vs[j] == wanted[j]
    ensures Expect(raw, p, wanted) == Expect(raw, p + |ValueBytes(vs, k)|, wanted[k..])
  {
    if k == 0 {
      assert wanted[0..] == wanted;
    } else {
      var bytes := NumberBytes(vs[k - 1].0, vs[k - 1].1);
      AtDrop(raw, p, ValueBytes(vs, k - 1), bytes);
      ValuesRead(raw, p, vs, wanted, k - 1);
      assert ValueFits(vs[k - 1]);
      AtNumber(raw, p + |ValueBytes(vs, k - 1)|, vs[k - 1].0, vs[k - 1].1);
      assert wanted[k - 1..][0] == vs[k - 1] && wanted[k - 1..][1..] == wanted[k..];
    }
  }

  lemma {:induction false} ValuePrefix(raw: seq<Byte>, p: nat, vs: seq<(nat, nat)>, k: nat, n: nat)
    requires k <= n <= |vs| && ValuesFit(vs) && At(raw, p, ValueBytes(vs, n))
    ensures At(raw, p, ValueBytes(vs, k))
    decreases n
  {
    if k < n {
      AtDrop(raw, p, ValueBytes(vs, n - 1), NumberBytes(vs[n - 1].0, vs[n - 1].1));
      ValuePrefix(raw, p, vs, k, n - 1);
    }
  }

  lemma ValueHere(raw: seq<Byte>, p: nat, vs: seq<(nat, nat)>, k: nat, n: nat)
    requires k < n <= |vs| && ValuesFit(vs) && At(raw, p, ValueBytes(vs, n))
    ensures At(raw, p, ValueBytes(vs, k)) && ValueAt(raw, p + |ValueBytes(vs, k)|, vs[k])
  {
    ValuePrefix(raw, p, vs, k + 1, n);
    NumberAfter(raw, p, ValueBytes(vs, k), vs[k]);
  }

  predicate ValueAt(raw: seq<Byte>, p: nat, v: (nat, nat)) {
    ValueFits(v) && Has(raw, p, v.0) && Number(raw, p, v.0) == v.1
  }

  lemma NumberAfter(raw: seq<Byte>, p: nat, a: seq<Byte>, v: (nat, nat))
    requires ValueFits(v) && At(raw, p, a + NumberBytes(v.0, v.1))
    ensures At(raw, p, a) && ValueAt(raw, p + |a|, v)
  {
    AtDrop(raw, p, a, NumberBytes(v.0, v.1));
    AtNumber(raw, p + |a|, v.0, v.1);
  }

  /** A value that is not as expected is an error. */
  lemma ValueFails(raw: seq<Byte>, p: nat, vs: seq<(nat, nat)>, wanted: seq<(nat, nat)>, k: nat)
    requires k < |vs| == |wanted| && ValuesFit(vs) && Sizes(wanted) && At(raw, p, ValueBytes(vs, |vs|))
    requires (forall j :: 0 <= j < k ==> vs[j] == wanted[j]) && vs[k].0 == wanted[k].0 && vs[k].1 != wanted[k].1
    ensures Expect(raw, p, wanted).Failed?
  {
    ValueHere(raw, p, vs, k, |vs|);
    ValuesRead(raw, p, vs, wanted, k);
    FirstFails(raw, p + |ValueBytes(vs, k)|, wanted, k);
  }

  lemma FirstFails(raw: seq<Byte>, p: nat, wanted: seq<(nat, nat)>, k: nat)
    requires k < |wanted| && Sizes(wanted) && Has(raw, p, wanted[k].0) && Number(raw, p, wanted[k].0) != wanted[k].1
    ensures Expect(raw, p, wanted[k..]).Failed?
  {
    assert wanted[k..][0] == wanted[k];
  }

  lemma AtNumber(raw: seq<Byte>, p: nat, size: nat, value: nat)
    requires ValueFits((size, value)) && At(raw, p, NumberBytes(size, value))
    ensures Has(raw, p, size) && Number(raw, p, size) == value
  {
    AtEnd(raw, p, NumberBytes(size, value));
    if size == 1 {
      AtByte(raw, p, value, []);
    } else {
      AtWord(raw, p, value, []);
    }
  }

  /** The ids that the marker shows are those that the reader has. */
  predicate SameThree(comps: seq<CompInfo>, named: seq<CompInfo>)
    requires |comps| >= 3 && |named| >= 3
  {
    forall i :: 0 <= i < 3 ==> comps[i].id == named[i].id
  }

  /** The transform is accepted exactly if the ids of the first three components are. */
  lemma LseRead(raw: seq<Byte>, p: nat, comps: seq<CompInfo>, named: seq<CompInfo>)
    requires |comps| >= 3 && |named| >= 3 && AllFit(comps) && At(raw, p, ValueBytes(LseValues(comps), 16))
    ensures Lse(raw, p, true, named)
         == if SameThree(comps, named) then Parsed(p + |ValueBytes(LseValues(comps), 16)|, 0) else Failed
  {
    var vs, wanted := LseValues(comps), LseValues(named);
    LseDiffers(comps, named);
    LseFits(comps);
    LseFits(named);
    if SameThree(comps, named) {
      ValuesRead(raw, p, vs, wanted, 16);
      assert wanted[16..] == [];
    } else {
      ValueFails(raw, p, vs, wanted, if comps[1].id != named[1].id then 4 else if comps[0].id != named[0].id then 5 else 6);
    }
  }

  /** The values differ in the three ids only. */
  lemma LseDiffers(comps: seq<CompInfo>, named: seq<CompInfo>)
    requires |comps| >= 3 && |named| >= 3
    ensures var vs, wanted := LseValues(comps), LseValues(named);
            && |vs| == |wanted| == 16 && vs[4] == (1, comps[1].id) && vs[5] == (1, comps[0].id) && vs[6] == (1, comps[2].id)
            && wanted[4] == (1, named[1].id) && wanted[5] == (1, named[0].id) && wanted[6] == (1, named[2].id)
            && forall j :: 0 <= j < 16 && j != 4 && j != 5 && j != 6 ==> vs[j] == wanted[j]
  {
  }

  lemma LseFits(comps: seq<CompInfo>)
    requires |comps| >= 3
    ensures Sizes(LseValues(comps)) && (AllFit(comps) ==> ValuesFit(LseValues(comps)))
  {
    if AllFit(comps) {
      assert CompFits(comps[0]) && CompFits(comps[1]) && CompFits(comps[2]);
    }
  }

  // ------------------------------------------------------------------ what a run of bytes does to the reader

  /** Where these bytes stand, a reader that looks for a marker goes on behind them, with another header. */
  ghost predicate CarriesAt(hs: Handlers, o: NaturalOrders, bytes: seq<Byte>, h: Header, h1: Header, raw: seq<Byte>, p: nat) {
    At(raw, p, bytes) ==> Fate(hs, o, raw, p, 0, h, NoMarker) == Fate(hs, o, raw, p + |bytes|, 0, h1, NoMarker)
  }

  ghost predicate Carries(hs: Handlers, o: NaturalOrders, bytes: seq<Byte>, h: Header, h1: Header) {
    forall raw: seq<Byte>, p: nat :: CarriesAt(hs, o, bytes, h, h1, raw, p)
  }

  /** Where these bytes stand, the reader comes to a SOS behind them. */
  ghost predicate StopsAt(hs: Handlers, o: NaturalOrders, bytes: seq<Byte>, h: Header, h1: Header, raw: seq<Byte>, p: nat) {
    At(raw, p, bytes) ==> Fate(hs, o, raw, p, 0, h, NoMarker) == Outcome.ReachesSos(p + |bytes|, h1)
  }

  ghost predicate Stops(hs: Handlers, o: NaturalOrders, bytes: seq<Byte>, h: Header, h1: Header) {
    forall raw: seq<Byte>, p: nat :: StopsAt(hs, o, bytes, h, h1, raw, p)
  }

  /** Where these bytes stand, the reader comes to an error exit. */
  ghost predicate BreaksAt(hs: Handlers, o: NaturalOrders, bytes: seq<Byte>, h: Header, raw: seq<Byte>, p: nat) {
    At(raw, p, bytes) ==> Fate(hs, o, raw, p, 0, h, NoMarker) == Fails
  }

  ghost predicate Breaks(hs: Handlers, o: NaturalOrders, bytes: seq<Byte>, h: Header) {
    forall raw: seq<Byte>, p: nat :: BreaksAt(hs, o, bytes, h, raw, p)
  }

  lemma BreaksStill(hs: Handlers, o: NaturalOrders, a: seq<Byte>, b: seq<Byte>, h: Header)
    requires Breaks(hs, o, a, h)
    ensures Breaks(hs, o, a + b, h)
  {
    forall raw: seq<Byte>, p: nat
      ensures BreaksAt(hs, o, a + b, h, raw, p)
    {
      if At(raw, p, a + b) {
        AtDrop(raw, p, a, b);
        assert BreaksAt(hs, o, a, h, raw, p);
      }
    }
  }

  lemma BreaksOn(hs: Handlers, o: NaturalOrders, a: seq<Byte>, b: seq<Byte>, h: Header, h1: Header)
    requires Carries(hs, o, a, h, h1) && Breaks(hs, o, b, h1)
    ensures Breaks(hs, o, a + b, h)
  {
    forall raw: seq<Byte>, p: nat
      ensures BreaksAt(hs, o, a + b, h, raw, p)
    {
      if At(raw, p, a + b) {
        AtDrop(raw, p, a, b);
        assert CarriesAt(hs, o, a, h, h1, raw, p) && BreaksAt(hs, o, b, h1, raw, p + |a|);
      }
    }
  }

  lemma CarriesNothing(hs: Handlers, o: NaturalOrders, h: Header)
    ensures Carries(hs, o, [], h, h)
  {
    forall raw: seq<Byte>, p: nat
      ensures CarriesAt(hs, o, [], h, h, raw, p)
    {
    }
  }

  lemma CarriesOn(hs: Handlers, o: NaturalOrders, a: seq<Byte>, b: seq<Byte>, h: Header, h1: Header, h2: Header)
    requires Carries(hs, o, a, h, h1) && Carries(hs, o, b, h1, h2)
    ensures Carries(hs, o, a + b, h, h2)
  {
    forall raw: seq<Byte>, p: nat
      ensures CarriesAt(hs, o, a + b, h, h2, raw, p)
    {
      if At(raw, p, a + b) {
        AtDrop(raw, p, a, b);
        assert CarriesAt(hs, o, a, h, h1, raw, p) && CarriesAt(hs, o, b, h1, h2, raw, p + |a|);
      }
    }
  }

  lemma StopsOn(hs: Handlers, o: NaturalOrders, a: seq<Byte>, b: seq<Byte>, h: Header, h1: Header, h2: Header)
    requires Carries(hs, o, a, h, h1) && Stops(hs, o, b, h1, h2)
    ensures Stops(hs, o, a + b, h, h2)
  {
    forall raw: seq<Byte>, p: nat
      ensures StopsAt(hs, o, a + b, h, h2, raw, p)
    {
      if At(raw, p, a + b) {
        AtDrop(raw, p, a, b);
        assert CarriesAt(hs, o, a, h, h1, raw, p) && StopsAt(hs, o, b, h1, h2, raw, p + |a|);
      }
    }
  }

  /** A marker is found, and its parameters are read. */
  lemma MarkerFound(hs: Handlers, o: NaturalOrders, raw: seq<Byte>, p: nat, code: Byte, params: seq<Byte>, h: Header)
    requires At(raw, p, Marker(code) + params) && code != 0 && code != 0xFF && h.sawSoi
    ensures At(raw, p + 2, params)
    ensures Fate(hs, o, raw, p, 0, h, NoMarker) == Fate(hs, o, raw, p + 2, code, h, NoMarker)
  {
    AtDrop(raw, p, Marker(code), params);
    MarkerHere(code, raw, p);
  }

  /** Where these parameters stand, the routine for the marker reads them all. */
  ghost predicate TakesAt(hs: Handlers, o: NaturalOrders, code: Byte, params: seq<Byte>, h: Header, h1: Header,
                          raw: seq<Byte>, p: nat) {
    At(raw, p, params) ==> Process(hs, o, raw, code, p, h, NoMarker) == Next(p + |params|, h1)
  }

  ghost predicate Takes(hs: Handlers, o: NaturalOrders, code: Byte, params: seq<Byte>, h: Header, h1: Header) {
    forall raw: seq<Byte>, p: nat :: TakesAt(hs, o, code, params, h, h1, raw, p)
  }

  lemma TakesCarries(hs: Handlers, o: NaturalOrders, code: Byte, params: seq<Byte>, h: Header, h1: Header)
    requires Takes(hs, o, code, params, h, h1) && code != 0 && code != 0xFF && h.sawSoi
    ensures Carries(hs, o, Marker(code) + params, h, h1)
  {
    forall raw: seq<Byte>, p: nat
      ensures CarriesAt(hs, o, Marker(code) + params, h, h1, raw, p)
    {
      if At(raw, p, Marker(code) + params) {
        MarkerFound(hs, o, raw, p, code, params, h);
        assert TakesAt(hs, o, code, params, h, h1, raw, p + 2);
      }
    }
  }

  lemma TableProcess(hs: Handlers, o: NaturalOrders, raw: seq<Byte>, code: Byte, p: nat, h: Header)
    requires code == M_DAC || code == M_DHT || code == M_DQT
    ensures Process(hs, o, raw, code, p, h, NoMarker) == ProcessTables(o, raw, code, p, h)
  {
  }

  lemma VariableProcess(hs: Handlers, o: NaturalOrders, raw: seq<Byte>, code: Byte, p: nat, h: Header)
    requires IsApp(code) || code == M_COM
    ensures Process(hs, o, raw, code, p, h, NoMarker) == ProcessVariable(hs, raw, code, p, h, NoMarker)
  {
  }

  lemma LseProcess(hs: Handlers, o: NaturalOrders, raw: seq<Byte>, p: nat, h: Header, next: nat)
    requires Lse(raw, p, h.sawSof, h.comps) == Parsed(next, 0)
    ensures Process(hs, o, raw, M_JPG8, p, h, NoMarker) == Next(next, h.(subtractGreen := true))
  {
  }

  lemma DhtCarries(hs: Handlers, o: NaturalOrders, slot: HuffSlot, t: HuffTbl, h: Header)
    requires slot.i < NUM_HUFF && Count(t) <= 256 && h.sawSoi
    ensures Carries(hs, o, Marker(M_DHT) + DhtParams(slot, t), h, h.(huff := h.huff + map[slot := AsRead(t)]))
  {
    var params, h1 := DhtParams(slot, t), h.(huff := h.huff + map[slot := AsRead(t)]);
    forall raw: seq<Byte>, p: nat
      ensures TakesAt(hs, o, M_DHT, params, h, h1, raw, p)
    {
      if At(raw, p, params) {
        DhtRead(o, raw, p, slot, t, h);
        TableProcess(hs, o, raw, M_DHT, p, h);
      }
    }
    TakesCarries(hs, o, M_DHT, params, h, h1);
  }

  lemma DqtCarries(hs: Handlers, o: NaturalOrders, index: Byte, n: nat, vals: seq<nat>, h: Header)
    requires index % 16 == n < NUM_QUANT_TBLS && |vals| <= 64 && Narrow(index / 16, vals) && h.sawSoi
    ensures Carries(hs, o, Marker(M_DQT) + DqtParams(index, vals), h, h.(quant := h.quant + OneQuant(n, QuantFrom(o, vals))))
  {
    var params, h1 := DqtParams(index, vals), h.(quant := h.quant + OneQuant(n, QuantFrom(o, vals)));
    forall raw: seq<Byte>, p: nat
      ensures TakesAt(hs, o, M_DQT, params, h, h1, raw, p)
    {
      if At(raw, p, params) {
        DqtRead(o, raw, p, index, n, vals, h);
        TableProcess(hs, o, raw, M_DQT, p, h);
      }
    }
    TakesCarries(hs, o, M_DQT, params, h, h1);
  }

  lemma DacCarries(hs: Handlers, o: NaturalOrders, c: Compression, h: Header)
    requires CondsFit(c) && InOrder(c, NUM_ARITH) && h.sawSoi
    ensures Carries(hs, o, Marker(M_DAC) + DacParams(c), h, WithConds(h, ReadFrom(c, NUM_ARITH)))
  {
    var params, h1 := DacParams(c), WithConds(h, ReadFrom(c, NUM_ARITH));
    forall raw: seq<Byte>, p: nat
      ensures TakesAt(hs, o, M_DAC, params, h, h1, raw, p)
    {
      if At(raw, p, params) {
        DacRead(o, raw, p, c, h);
        TableProcess(hs, o, raw, M_DAC, p, h);
      }
    }
    TakesCarries(hs, o, M_DAC, params, h, h1);
  }

  lemma DacBreaks(hs: Handlers, o: NaturalOrders, c: Compression, h: Header)
    requires CondsFit(c) && !InOrder(c, NUM_ARITH) && h.sawSoi
    ensures Breaks(hs, o, Marker(M_DAC) + DacParams(c), h)
  {
    var bytes := Marker(M_DAC) + DacParams(c);
    forall raw: seq<Byte>, p: nat
      ensures BreaksAt(hs, o, bytes, h, raw, p)
    {
      if At(raw, p, bytes) {
        MarkerFound(hs, o, raw, p, M_DAC, DacParams(c), h);
        DacRead(o, raw, p + 2, c, h);
        TableProcess(hs, o, raw, M_DAC, p + 2, h);
      }
    }
  }

  lemma DriCarries(hs: Handlers, o: NaturalOrders, interval: nat, h: Header)
    requires interval < 65536 && h.sawSoi
    ensures Carries(hs, o, Marker(M_DRI) + DriParams(interval), h, h.(restartInterval := interval))
  {
    var params, h1 := DriParams(interval), h.(restartInterval := interval);
    forall raw: seq<Byte>, p: nat
      ensures TakesAt(hs, o, M_DRI, params, h, h1, raw, p)
    {
      if At(raw, p, params) {
        DriRead(raw, p, interval);
      }
    }
    TakesCarries(hs, o, M_DRI, params, h, h1);
  }

  lemma LseCarries(hs: Handlers, o: NaturalOrders, comps: seq<CompInfo>, h: Header)
    requires |comps| >= 3 && |h.comps| >= 3 && AllFit(comps) && h.sawSoi && h.sawSof && SameThree(comps, h.comps)
    ensures Carries(hs, o, Marker(M_JPG8) + ValueBytes(LseValues(comps), 16), h, h.(subtractGreen := true))
  {
    var params, h1 := ValueBytes(LseValues(comps), 16), h.(subtractGreen := true);
    forall raw: seq<Byte>, p: nat
      ensures TakesAt(hs, o, M_JPG8, params, h, h1, raw, p)
    {
      if At(raw, p, params) {
        LseRead(raw, p, comps, h.comps);
        LseProcess(hs, o, raw, p, h, p + |params|);
      }
    }
    TakesCarries(hs, o, M_JPG8, params, h, h1);
  }

  lemma LseBreaks(hs: Handlers, o: NaturalOrders, comps: seq<CompInfo>, h: Header)
    requires |comps| >= 3 && |h.comps| >= 3 && AllFit(comps) && h.sawSoi && h.sawSof && !SameThree(comps, h.comps)
    ensures Breaks(hs, o, Marker(M_JPG8) + ValueBytes(LseValues(comps), 16), h)
  {
    var params := ValueBytes(LseValues(comps), 16);
    forall raw: seq<Byte>, p: nat
      ensures BreaksAt(hs, o, Marker(M_JPG8) + params, h, raw, p)
    {
      if At(raw, p, Marker(M_JPG8) + params) {
        MarkerFound(hs, o, raw, p, M_JPG8, params, h);
        LseRead(raw, p + 2, comps, h.comps);
        LseFails(hs, o, raw, p + 2, h);
      }
    }
  }

  lemma LseFails(hs: Handlers, o: NaturalOrders, raw: seq<Byte>, p: nat, h: Header)
    requires Lse(raw, p, h.sawSof, h.comps).Failed?
    ensures Process(hs, o, raw, M_JPG8, p, h, NoMarker) == Error
  {
  }

  lemma SofProcess(hs: Handlers, o: NaturalOrders, raw: seq<Byte>, code: Byte, p: nat, h: Header, next: nat, f: Frame)
    requires IsSof(code) && !h.sawSof && Sof(raw, p, false) == Parsed(next, f)
    ensures Process(hs, o, raw, code, p, h, NoMarker) == Next(next, WithFrame(h, code, f))
  {
  }

  lemma SofCarries(hs: Handlers, o: NaturalOrders, code: Byte, f: Frame, h: Header)
    requires IsSof(code) && h.sawSoi && !h.sawSof && AllFit(f.comps) && f.precision < 256 && 1 <= |f.comps| < 256
    requires 0 < f.height < 65536 && 0 < f.width < 65536
    ensures Carries(hs, o, Marker(code) + SofParams(f), h, WithFrame(h, code, f.(comps := Renamed(f.comps))))
  {
    var params, f1 := SofParams(f), f.(comps := Renamed(f.comps));
    forall raw: seq<Byte>, p: nat
      ensures TakesAt(hs, o, code, params, h, WithFrame(h, code, f1), raw, p)
    {
      if At(raw, p, params) {
        FrameRead(raw, p, f);
        SofProcess(hs, o, raw, code, p, h, p + |params|, f1);
      }
    }
    TakesCarries(hs, o, code, params, h, WithFrame(h, code, f1));
  }

  lemma SosStops(hs: Handlers, o: NaturalOrders, c: Compression, h: Header)
    requires SosFits(c) && |h.comps| == |c.comps| && DistinctIds(Ids(h.comps)) && FindsAll(c, h.comps)
    requires h.sawSoi && h.sawSof && (c.scan == [] ==> h.progressive)
    ensures Stops(hs, o, Marker(M_SOS) + SosParams(c), h, WithScan(h, HeaderOf(c)))
  {
    var bytes, h1 := Marker(M_SOS) + SosParams(c), WithScan(h, HeaderOf(c));
    forall raw: seq<Byte>, p: nat
      ensures StopsAt(hs, o, bytes, h, h1, raw, p)
    {
      if At(raw, p, bytes) {
        MarkerFound(hs, o, raw, p, M_SOS, SosParams(c), h);
        SosRead(raw, p + 2, c, h);
      }
    }
  }

  // ------------------------------------------------------------------ SOI, APPn and COM

  lemma SoiCarries(hs: Handlers, o: NaturalOrders, h: Header)
    requires !h.sawSoi
    ensures Carries(hs, o, Marker(M_SOI), h, AfterSoi(h))
  {
    forall raw: seq<Byte>, p: nat
      ensures CarriesAt(hs, o, Marker(M_SOI), h, AfterSoi(h), raw, p)
    {
      if At(raw, p, Marker(M_SOI)) {
        assert raw[p] == Marker(M_SOI)[0] && raw[p + 1] == Marker(M_SOI)[1];
      }
    }
  }

  function DataParams(data: seq<Byte>): seq<Byte> {
    Bytes2(|data| + 2) + (data + [])
  }

  /** The header with a marker of which the application wants to save so much. */
  function WithData(hs: Handlers, code: Byte, data: seq<Byte>, h: Header): Header {
    match hs(code)
    case Skip => h
    case Look => h
    case Save(limit) =>
      h.(saved := h.saved + [SavedMarker(code, |data|, if |data| < limit then data else data[..limit])])
  }

  datatype ColorSpace = YCbCr | YCCK | OtherSpace

  /** The markers of the file header, and what they show. */
  datatype FileMarkers = FileMarkers(jfif: bool, major: nat, minor: nat, unit: nat, xDensity: nat, yDensity: nat,
                                     adobe: bool, space: ColorSpace)
  {
    /** The data of a JFIF marker without a thumbnail. */
    function JfifData(): (r: seq<Byte>)
      ensures |r| == 14
    {
      [0x4A, 0x46, 0x49, 0x46, 0, major % 256, minor % 256, unit % 256] + Bytes2(xDensity) + Bytes2(yDensity) + [0, 0]
    }

    function AdobeTransform(): Byte {
      match space
      case YCbCr => 1
      case YCCK => 2
      case OtherSpace => 0
    }

    function AdobeData(): (r: seq<Byte>)
      ensures |r| == 12
    {
      [0x41, 0x64, 0x6F, 0x62, 0x65] + Bytes2(100) + Bytes2(0) + Bytes2(0) + [AdobeTransform()]
    }

    /** The header of a reader that has read the markers. */
    function Shown(hs: Handlers, h: Header): Header {
      var h1 := if jfif then WithData(hs, M_APP0, JfifData(), h) else h;
      if adobe then WithData(hs, M_APP14, AdobeData(), h1) else h1
    }
  }

  const M_APP14: Byte := 0xEE

  lemma DataFields(raw: seq<Byte>, p: nat, data: seq<Byte>)
    requires |data| <= 65533 && At(raw, p, DataParams(data))
    ensures Has(raw, p, 2 + |data|) && Word(raw, p) == |data| + 2 && raw[p + 2..p + 2 + |data|] == data
  {
    AtWord(raw, p, |data| + 2, data + []);
    AtSlice(raw, p + 2, data, []);
  }

  lemma SavedRead(raw: seq<Byte>, p: nat, code: Byte, limit: nat, data: seq<Byte>)
    requires Has(raw, p, 2 + |data|) && Word(raw, p) == |data| + 2 && raw[p + 2..p + 2 + |data|] == data
    ensures Resumed(raw, p + 2, Begun(raw, p, code, limit))
         == Parsed(p + 2 + |data|, SavedMarker(code, |data|, if |data| < limit then data else data[..limit]))
  {
    var n := if |data| < limit then |data| else limit;
    assert raw[p + 2..p + 2 + n] == data[..n];
    assert [] + data[..n] == data[..n];
  }

  lemma DataRead(hs: Handlers, raw: seq<Byte>, p: nat, code: Byte, data: seq<Byte>, h: Header)
    requires |data| <= 65533 && At(raw, p, DataParams(data))
    ensures ProcessVariable(hs, raw, code, p, h, NoMarker) == Next(p + |DataParams(data)|, WithData(hs, code, data, h))
  {
    DataFields(raw, p, data);
    if hs(code).Save? {
      SavedRead(raw, p, code, hs(code).limit, data);
    }
  }

  lemma DataCarries(hs: Handlers, o: NaturalOrders, code: Byte, data: seq<Byte>, h: Header)
    requires (IsApp(code) || code == M_COM) && |data| <= 65533 && h.sawSoi
    ensures Carries(hs, o, Marker(code) + DataParams(data), h, WithData(hs, code, data, h))
  {
    var params, h1 := DataParams(data), WithData(hs, code, data, h);
    forall raw: seq<Byte>, p: nat
      ensures TakesAt(hs, o, code, params, h, h1, raw, p)
    {
      if At(raw, p, params) {
        DataRead(hs, raw, p, code, data, h);
        VariableProcess(hs, o, raw, code, p, h);
      }
    }
    TakesCarries(hs, o, code, params, h, h1);
  }
}
