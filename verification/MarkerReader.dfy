/** The marker reader of the decompressor (jdmarker.c): read_markers and the routines for each marker, any of
    which may be suspended for lack of input and is then called again. */
module MarkerReaderObject {
  import opened ArithTable
  import opened HuffmanCodes
  import opened Segments
  import opened MarkerParsing

  datatype Got = Processed | Suspended | Fatal

  datatype Reached = ReachedSos | ReachedEoi | NeedInput | ErrorExit

  // ------------------------------------------------------------------ why starting over is harmless

  /** Definitions that will be made again can be made in advance. */
  lemma DefinedTwice<K, V>(t: map<K, V>, d: map<K, V>, all: map<K, V>)
    requires d.Keys <= all.Keys
    ensures (t + d) + all == t + all
  {
  }

  lemma DefinedMore<K, V>(t: map<K, V>, d: map<K, V>, k: K, v: V)
    ensures (t + d)[k := v] == t + d[k := v]
  {
  }

  /** A run that has defined the tables d, and is to define the rest from p on, can start over. */
  lemma DhtAgain(o: NaturalOrders, raw: seq<Byte>, pos: nat, h0: Header, p: nat, length: int, d: map<HuffSlot, HuffTbl>)
    requires Has(raw, pos, 2) && Dht(raw, p, length, d) == Dht(raw, pos + 2, Word(raw, pos) - 2, map[])
    ensures ProcessTables(o, raw, M_DHT, pos, h0.(huff := h0.huff + d)) == ProcessTables(o, raw, M_DHT, pos, h0)
  {
    DhtGrows(raw, p, length, d);
    var r := Dht(raw, p, length, d);
    if r.Parsed? {
      DefinedTwice(h0.huff, d, r.value);
    }
  }

  lemma DacAgain(o: NaturalOrders, raw: seq<Byte>, pos: nat, h0: Header, p: nat, length: int, d: Conditions)
    requires Has(raw, pos, 2) && Dac(raw, p, length, d) == Dac(raw, pos + 2, Word(raw, pos) - 2, Conditions(map[], map[]))
    ensures ProcessTables(o, raw, M_DAC, pos, h0.(dcCond := h0.dcCond + d.dc, acCond := h0.acCond + d.ac))
         == ProcessTables(o, raw, M_DAC, pos, h0)
  {
    DacGrows(raw, p, length, d);
    var r := Dac(raw, p, length, d);
    if r.Parsed? {
      DefinedTwice(h0.dcCond, d.dc, r.value.dc);
      DefinedTwice(h0.acCond, d.ac, r.value.ac);
    }
  }

  lemma DqtAgain(o: NaturalOrders, raw: seq<Byte>, pos: nat, h0: Header, p: nat, length: int, d: map<nat, seq<nat>>)
    requires Has(raw, pos, 2) && Dqt(o, raw, p, length, d) == Dqt(o, raw, pos + 2, Word(raw, pos) - 2, map[])
    ensures ProcessTables(o, raw, M_DQT, pos, h0.(quant := h0.quant + d)) == ProcessTables(o, raw, M_DQT, pos, h0)
  {
    DqtGrows(o, raw, p, length, d);
    var r := Dqt(o, raw, p, length, d);
    if r.Parsed? {
      DefinedTwice(h0.quant, d, r.value);
    }
  }

  /** The same in the middle of a table, of which some entries have been stored. */
  lemma DqtAgainWithin(o: NaturalOrders, raw: seq<Byte>, pos: nat, h0: Header, p: nat, length: int, d: map<nat, seq<nat>>,
                       part: seq<nat>)
    requires Has(raw, pos, 2) && Dqt(o, raw, p, length, d) == Dqt(o, raw, pos + 2, Word(raw, pos) - 2, map[])
    requires length > 0 && Has(raw, p, 1) && raw[p] % 16 < NUM_QUANT_TBLS
    ensures var h := h0.(quant := h0.quant + d[raw[p] % 16 := part]);
            ProcessTables(o, raw, M_DQT, pos, h) == ProcessTables(o, raw, M_DQT, pos, h0)
  {
    var r := Dqt(o, raw, p, length, d);
    if r.Parsed? {
      PartIsDefined(o, raw, p, length, d);
      DefinedTwice(h0.quant, d[raw[p] % 16 := part], r.value);
    }
  }

  lemma PartIsDefined(o: NaturalOrders, raw: seq<Byte>, p: nat, length: int, d: map<nat, seq<nat>>)
    requires length > 0 && Has(raw, p, 1) && raw[p] % 16 < NUM_QUANT_TBLS && Dqt(o, raw, p, length, d).Parsed?
    ensures d.Keys + {raw[p] % 16} <= Dqt(o, raw, p, length, d).value.Keys
  {
    var bytes := TableBytes(raw[p], length - 1);
    DqtGrows(o, raw, p + 1 + bytes, length - 1 - bytes, d[raw[p] % 16 := QuantAt(o, raw, p, length - 1)]);
  }

  lemma {:induction false} QuantStep(o: NaturalOrders, raw: seq<Byte>, p: nat, length: int, d: map<nat, seq<nat>>, t: seq<nat>)
    requires length > 0 && Has(raw, p, 1) && raw[p] % 16 < NUM_QUANT_TBLS
    requires var count := EntryCount(raw[p] / 16, length - 1);
             Has(raw, p + 1, EntryBytes(raw[p] / 16, count)) && t == QuantFrom(o, EntriesAt(raw, p + 1, raw[p] / 16, count))
    ensures var bytes := TableBytes(raw[p], length - 1);
            Dqt(o, raw, p, length, d) == Dqt(o, raw, p + 1 + bytes, length - 1 - bytes, d[raw[p] % 16 := t])
  {
  }

  /** The tables d, and part of table n, have been defined. */
  ghost predicate WithPart(h: Header, h0: Header, d: map<nat, seq<nat>>, n: nat, part: seq<nat>) {
    h == h0.(quant := h0.quant + d[n := part])
  }

  /** Two headers that differ only in what a SOF marker sets. */
  predicate SofOnly(a: Header, b: Header) {
    b == a.(baseline := b.baseline, progressive := b.progressive, arith := b.arith, precision := b.precision,
            height := b.height, width := b.width, comps := b.comps)
  }

  lemma SofAgain(raw: seq<Byte>, code: Byte, pos: nat, a: Header, b: Header)
    requires SofOnly(a, b)
    ensures ProcessSof(raw, code, pos, a) == ProcessSof(raw, code, pos, b)
  {
  }

  /** Two headers that differ only in what a SOS marker has set so far. */
  predicate SosOnly(a: Header, b: Header, d: map<nat, (nat, nat)>) {
    b == a.(scan := b.scan, tblNos := a.tblNos + d, ss := b.ss, se := b.se, ah := b.ah, al := b.al)
  }

  lemma SosAgain(raw: seq<Byte>, pos: nat, a: Header, b: Header, p: nat, n: nat, d: ScanComps)
    requires SosOnly(a, b, d.tblNos) && Has(raw, pos, 3) && DistinctIn(a.comps, d.scan)
    requires SosComps(raw, p, n, a.comps, d) == SosComps(raw, pos + 3, raw[pos + 2], a.comps, ScanComps([], map[]))
    ensures ProcessSos(raw, pos, a) == ProcessSos(raw, pos, b)
  {
    SosCompsDistinct(raw, p, n, a.comps, d);
    var r := Sos(raw, pos, a.sawSof, a.progressive, a.comps);
    if r.Parsed? {
      DefinedTwice(a.tblNos, d.tblNos, r.value.tblNos);
    }
  }

  /** The whole SOS marker, when its components have been read. */
  lemma SosWhole(raw: seq<Byte>, pos: nat, n: nat, h0: Header, p: nat, d: ScanComps)
    requires Has(raw, pos, 3) && n == raw[pos + 2] && h0.sawSof && Word(raw, pos) == n * 2 + 6 && n <= MAX_SCAN_COMPS
    requires (n == 0 ==> h0.progressive) && SosComps(raw, pos + 3, n, h0.comps, ScanComps([], map[])) == Parsed(p, d)
    ensures |d.scan| == n
    ensures ProcessSos(raw, pos, h0)
         == if !Has(raw, p, 3) then NoMore
            else AtSos(p + 3, WithScan(h0, ScanHeader(d.scan, d.tblNos, raw[p], raw[p + 1], raw[p + 2] / 16, raw[p + 2] % 16)))
  {
    SosCompsDistinct(raw, pos + 3, n, h0.comps, ScanComps([], map[]));
  }

  // ------------------------------------------------------------------ how many bytes are needed

  lemma DhtNeeds(raw: seq<Byte>, p: nat, length: int, d: map<HuffSlot, HuffTbl>)
    requires length > 16
    ensures var r := Dht(raw, p, length, d);
            r.Parsed? ==> Has(raw, p, 17) && r.next >= p + 17 + SumOf(raw[p + 1..p + 17])
  {
    if Has(raw, p, 17) {
      var count := SumOf(raw[p + 1..p + 17]);
      if Has(raw, p + 17, count) && count <= 256 && count <= length - 17 {
        DhtGrows(raw, p + 17 + count, length - 17 - count, d[SlotOf(raw[p]) := TableAt(raw, p, count)]);
      }
    }
  }

  lemma DacNeeds(raw: seq<Byte>, p: nat, length: int, d: Conditions)
    requires length > 0
    ensures Dac(raw, p, length, d).Parsed? ==> Dac(raw, p, length, d).next >= p + 2
  {
    if Has(raw, p, 2) {
      var index: nat, val: nat := raw[p], raw[p + 1];
      if index < NUM_ARITH {
        DacGrows(raw, p + 2, length - 2, d.(dc := d.dc[index := (val % 16, val / 16)]));
      } else {
        DacGrows(raw, p + 2, length - 2, d.(ac := d.ac[index - NUM_ARITH := val]));
      }
    }
  }

  lemma DqtNeeds(o: NaturalOrders, raw: seq<Byte>, p: nat, length: int, d: map<nat, seq<nat>>)
    requires length > 0
    ensures var r := Dqt(o, raw, p, length, d);
            r.Parsed? ==> Has(raw, p, 1) && r.next >= p + 1 + TableBytes(raw[p], length - 1)
  {
    if Has(raw, p, 1) {
      var bytes := TableBytes(raw[p], length - 1);
      if raw[p] % 16 < NUM_QUANT_TBLS && Has(raw, p + 1, bytes) {
        DqtGrows(o, raw, p + 1 + bytes, length - 1 - bytes, d[raw[p] % 16 := QuantAt(o, raw, p, length - 1)]);
      }
    }
  }

  lemma TablesNeed(o: NaturalOrders, raw: seq<Byte>, code: Byte, p: nat, h: Header)
    requires code == M_DHT || code == M_DQT || code == M_DAC
    ensures var s := ProcessTables(o, raw, code, p, h); s.Next? ==> s.next >= p + 2
  {
    if Has(raw, p, 2) {
      DhtGrows(raw, p + 2, Word(raw, p) - 2, map[]);
      DqtGrows(o, raw, p + 2, Word(raw, p) - 2, map[]);
      DacGrows(raw, p + 2, Word(raw, p) - 2, Conditions(map[], map[]));
    }
  }

  lemma SofNeeds(raw: seq<Byte>, p: nat, sawSof: bool)
    ensures Sof(raw, p, sawSof).Parsed? ==> Has(raw, p, 8) && var n: nat := raw[p + 7]; Sof(raw, p, sawSof).next == p + 8 + 3 * n
  {
    if Has(raw, p, 8) {
      SofCompsDistinct(raw, p + 8, raw[p + 7], []);
    }
  }

  lemma SosNeeds(raw: seq<Byte>, p: nat, h: Header)
    ensures ProcessSos(raw, p, h).AtSos? ==> Has(raw, p, 3) && var n: nat := raw[p + 2]; ProcessSos(raw, p, h).next == p + 6 + 2 * n
  {
    if Has(raw, p, 3) {
      SosCompsDistinct(raw, p + 3, raw[p + 2], h.comps, ScanComps([], map[]));
    }
  }

  lemma ExpectNeeds(raw: seq<Byte>, p: nat, vs: seq<(nat, nat)>)
    requires vs != [] && Sizes(vs)
    ensures Expect(raw, p, vs).Parsed? ==> Expect(raw, p, vs).next >= p + vs[0].0
  {
    ExpectMoves(raw, p + vs[0].0, vs[1..]);
  }

  /** A run of markers ends behind its start. */
  lemma {:induction false} FateMoves(hs: Handlers, o: NaturalOrders, raw: seq<Byte>, pos: nat, unread: Byte, h: Header, cur: Current)
    requires Progressing(cur)
    ensures var f := Fate(hs, o, raw, pos, unread, h, cur); f.ReachesSos? || f.ReachesEoi? ==> f.next >= pos
    decreases if pos <= |raw| then |raw| - pos else 0, unread != 0
  {
    if unread != 0 {
      var s := Process(hs, o, raw, unread, pos, h, cur);
      ProcessMoves(hs, o, raw, unread, pos, h, cur);
      if s.Next? {
        FateMoves(hs, o, raw, s.next, 0, s.h, NoMarker);
      } else if unread == M_SOS {
        SosNeeds(raw, pos, h);
      }
    } else if !h.sawSoi {
      if Has(raw, pos, 2) {
        FateMoves(hs, o, raw, pos + 2, M_SOI, h, cur);
      }
    } else if pos <= |raw| && MarkerFrom(raw, pos) < |raw| {
      FateMoves(hs, o, raw, MarkerFrom(raw, pos) + 1, raw[MarkerFrom(raw, pos)], h, cur);
    }
  }

  // ------------------------------------------------------------------ the reader

  class MarkerReader {
    const raw: seq<Byte>            // the whole input
    const hs: Handlers
    const o: NaturalOrders
    var avail: nat                  // how much of it has arrived
    var pos: nat                    // the restart point
    var unreadMarker: Byte
    var h: Header                   // the fields of the decompression object
    var cur: Current                // cur_marker

    /** reset_marker_reader */
    constructor (raw: seq<Byte>, hs: Handlers, o: NaturalOrders, avail: nat)
      requires avail <= |raw|
      ensures this.raw == raw && this.hs == hs && this.o == o && this.avail == avail && Valid()
      ensures pos == 0 && unreadMarker == 0 && h == FRESH
    {
      this.raw, this.hs, this.o, this.avail := raw, hs, o, avail;
      pos, unreadMarker, h, cur := 0, 0, FRESH, NoMarker;
    }

    predicate Valid()
      reads this
    {
      avail <= |raw| && Progressing(cur) && (cur.Reading? ==> CanSave(unreadMarker) && pos <= avail)
    }

    predicate CanSave(code: Byte) {
      (IsApp(code) || code == M_COM) && hs(code).Save?
    }

    /** What the marker that has been found will come to. */
    ghost function Coming(): Step
      requires Valid()
      reads this
    {
      Process(hs, o, raw, unreadMarker, pos, h, cur)
    }

    ghost function Future(): Outcome
      requires Valid()
      reads this
    {
      Fate(hs, o, raw, pos, unreadMarker, h, cur)
    }

    /** A routine has done what was to come; or it has been suspended, and the same is still to come. */
    ghost predicate Did(r: Got, was: Step, now: Step)
      reads this`pos, this`h, this`avail
    {
      match r
      case Processed => was == Next(pos, h)
      case Suspended => now == was && WaitsFor(was)
      case Fatal => was.Error?
    }

    /** n bytes from p on have arrived. */
    predicate Here(p: nat, n: nat)
      reads this`avail
    {
      p + n <= avail
    }

    /** These parameters have not all arrived. */
    predicate Waits<T>(r: Parsed<T>)
      reads this`avail
    {
      (avail == |raw| ==> r.Short?) && (r.Parsed? ==> avail < r.next)
    }

    predicate WaitsFor(s: Step)
      reads this`avail
    {
      (avail == |raw| ==> s.NoMore?) && (s.Next? || s.AtSos? || s.AtEoi? ==> avail < s.next)
    }

    predicate WaitsLong(f: Outcome)
      reads this`avail
    {
      (avail == |raw| ==> f.Starves?) && (f.ReachesSos? || f.ReachesEoi? ==> avail < f.next)
    }

    // ---------------------------------------------------------------- tables

    lemma DhtWaits(p: nat, length: int, d: map<HuffSlot, HuffTbl>)
      requires length > 16 && avail <= |raw|
      ensures !Here(p, 17) || (var count := SumOf(raw[p + 1..p + 17]); count <= 256 && count <= length - 17 && !Here(p + 17, count))
              ==> Waits(Dht(raw, p, length, d))
    {
      DhtNeeds(raw, p, length, d);
    }

    /** One table of a DHT marker. */
    method ReadHuffTable(p: nat, length: int, ghost d: map<HuffSlot, HuffTbl>, ghost h0: Header)
      returns (r: Got, p1: nat, length1: int, ghost d1: map<HuffSlot, HuffTbl>)
      requires length > 16 && p <= avail <= |raw| && h == h0.(huff := h0.huff + d)
      modifies this`h
      ensures r.Processed? ==> p1 <= avail && length1 < length && h == h0.(huff := h0.huff + d1)
                               && Dht(raw, p1, length1, d1) == Dht(raw, p, length, d)
      ensures r.Suspended? ==> h == old(h) && Waits(Dht(raw, p, length, d))
      ensures r.Fatal? ==> Dht(raw, p, length, d).Failed?
    {
      p1, length1, d1 := p, length, d;
      DhtWaits(p, length, d);
      if !Here(p, 17) {
        return Suspended, p1, length1, d1;
      }
      var count := SumOf(raw[p + 1..p + 17]);
      if count > 256 || count > length - 17 {
        return Fatal, p1, length1, d1;
      }
      if !Here(p + 17, count) {
        return Suspended, p1, length1, d1;
      }
      var slot, tbl := SlotOf(raw[p]), TableAt(raw, p, count);
      if slot.i >= NUM_HUFF {
        return Fatal, p1, length1, d1;
      }
      DefinedMore(h0.huff, d, slot, tbl);
      h := h.(huff := h.huff[slot := tbl]);
      r, p1, length1, d1 := Processed, p + 17 + count, length - 17 - count, d[slot := tbl];
    }

    method GetDht() returns (r: Got)
      requires avail <= |raw|
      modifies this`h, this`pos
      ensures Did(r, old(ProcessTables(o, raw, M_DHT, pos, h)), ProcessTables(o, raw, M_DHT, pos, h))
    {
      if !Here(pos, 2) {
        TablesNeed(o, raw, M_DHT, pos, h);
        return Suspended;
      }
      var p: nat, length: int := pos + 2, Word(raw, pos) - 2;
      ghost var d, h0 := map[], h;
      assert h0.huff + map[] == h0.huff;
      r, p, length, d := ReadHuffTables(p, length, h0);
      if r.Suspended? {
        DhtAgain(o, raw, pos, h0, p, length, d);
      } else if r.Processed? {
        pos := p;
      }
    }

    method ReadHuffTables(p0: nat, length0: int, ghost h0: Header)
      returns (r: Got, p: nat, length: int, ghost d: map<HuffSlot, HuffTbl>)
      requires p0 <= avail <= |raw| && h == h0 == h0.(huff := h0.huff + map[])
      modifies this`h
      ensures Dht(raw, p, length, d) == Dht(raw, p0, length0, map[]) && (!r.Fatal? ==> h == h0.(huff := h0.huff + d))
      ensures r.Processed? ==> Dht(raw, p, length, d) == Parsed(p, d)
      ensures r.Suspended? ==> Waits(Dht(raw, p, length, d))
      ensures r.Fatal? ==> Dht(raw, p, length, d).Failed?
    {
      r, p, length, d := Processed, p0, length0, map[];
      while r.Processed? && length > 16
        invariant p <= avail && (!r.Fatal? ==> h == h0.(huff := h0.huff + d))
        invariant Dht(raw, p, length, d) == Dht(raw, p0, length0, map[])
        invariant r.Suspended? ==> Waits(Dht(raw, p, length, d))
        invariant r.Fatal? ==> Dht(raw, p, length, d).Failed?
        decreases r.Processed?, length
      {
        var p1: nat, length1: int;
        ghost var d1;
        r, p1, length1, d1 := ReadHuffTable(p, length, d, h0);
        if r.Processed? {
          p, length, d := p1, length1, d1;
        }
      }
      if r.Processed? && length != 0 {
        r := Fatal;
      }
    }

    /** One value of a DAC marker. */
    method ReadCondition(p: nat, length: int, ghost d: Conditions, ghost h0: Header)
      returns (r: Got, p1: nat, length1: int, ghost d1: Conditions)
      requires length > 0 && p <= avail <= |raw| && h == h0.(dcCond := h0.dcCond + d.dc, acCond := h0.acCond + d.ac)
      modifies this`h
      ensures r.Processed? ==> p1 <= avail && length1 < length && Dac(raw, p1, length1, d1) == Dac(raw, p, length, d)
                               && h == h0.(dcCond := h0.dcCond + d1.dc, acCond := h0.acCond + d1.ac)
      ensures r.Suspended? ==> h == old(h) && Waits(Dac(raw, p, length, d))
      ensures r.Fatal? ==> Dac(raw, p, length, d).Failed?
    {
      p1, length1, d1 := p, length, d;
      DacNeeds(raw, p, length, d);
      if !Here(p, 2) {
        return Suspended, p1, length1, d1;
      }
      var index: nat, val: nat := raw[p], raw[p + 1];
      if index >= 2 * NUM_ARITH {
        return Fatal, p1, length1, d1;
      }
      if index >= NUM_ARITH {
        d1 := d.(ac := d.ac[index - NUM_ARITH := val]);
        StoreAc(index - NUM_ARITH, val, d, h0);
      } else {
        var small: nat, large: nat := val % 16, val / 16;
        StoreDc(index, small, large, d, h0);
        if small > large {
          return Fatal, p1, length1, d1;
        }
        d1 := d.(dc := d.dc[index := (small, large)]);
      }
      assert Dac(raw, p, length, d) == Dac(raw, p + 2, length - 2, d1);
      r, p1, length1 := Processed, p + 2, length - 2;
    }

    method StoreAc(i: nat, val: nat, ghost d: Conditions, ghost h0: Header)
      requires h == h0.(dcCond := h0.dcCond + d.dc, acCond := h0.acCond + d.ac)
      modifies this`h
      ensures h == h0.(dcCond := h0.dcCond + d.dc, acCond := h0.acCond + d.ac[i := val])
    {
      DefinedMore(h0.acCond, d.ac, i, val);
      h := h.(acCond := h.acCond[i := val]);
    }

    method StoreDc(i: nat, small: nat, large: nat, ghost d: Conditions, ghost h0: Header)
      requires h == h0.(dcCond := h0.dcCond + d.dc, acCond := h0.acCond + d.ac)
      modifies this`h
      ensures h == h0.(dcCond := h0.dcCond + d.dc[i := (small, large)], acCond := h0.acCond + d.ac)
    {
      DefinedMore(h0.dcCond, d.dc, i, (small, large));
      h := h.(dcCond := h.dcCond[i := (small, large)]);
    }

    method GetDac() returns (r: Got)
      requires avail <= |raw|
      modifies this`h, this`pos
      ensures Did(r, old(ProcessTables(o, raw, M_DAC, pos, h)), ProcessTables(o, raw, M_DAC, pos, h))
    {
      if !Here(pos, 2) {
        TablesNeed(o, raw, M_DAC, pos, h);
        return Suspended;
      }
      var p: nat, length: int := pos + 2, Word(raw, pos) - 2;
      ghost var d, h0 := Conditions(map[], map[]), h;
      assert h0.dcCond + map[] == h0.dcCond && h0.acCond + map[] == h0.acCond;
      r := Processed;
      while r.Processed? && length > 0
        invariant p <= avail && pos == old(pos)
        invariant !r.Fatal? ==> h == h0.(dcCond := h0.dcCond + d.dc, acCond := h0.acCond + d.ac)
        invariant Dac(raw, p, length, d) == Dac(raw, pos + 2, Word(raw, pos) - 2, Conditions(map[], map[]))
        invariant r.Suspended? ==> Waits(Dac(raw, p, length, d))
        invariant r.Fatal? ==> Dac(raw, p, length, d).Failed?
        decreases r.Processed?, length
      {
        var p1: nat, length1: int;
        ghost var d1;
        r, p1, length1, d1 := ReadCondition(p, length, d, h0);
        if r.Processed? {
          p, length, d := p1, length1, d1;
        }
      }
      if r.Suspended? {
        DacAgain(o, raw, pos, h0, p, length, d);
      }
      if r.Processed? {
        if length != 0 {
          return Fatal;
        }
        pos := p;
      }
    }

    // ---------------------------------------------------------------- DQT

    /** The entries of a table, put in their places as long as they have arrived. */
    method ReadEntries(p: nat, prec: nat, count: nat, base: seq<nat>) returns (complete: bool, t: seq<nat>)
      requires avail <= |raw| && p <= avail && count <= 64 && |base| == 64 && (count < 64 ==> base == Ones())
      ensures |t| == 64 && (complete <==> Here(p, EntryBytes(prec, count)))
      ensures complete ==> t == QuantFrom(o, EntriesAt(raw, p, prec, count))
    {
      var i := 0;
      t := base;
      while i < count && Here(p, EntryBytes(prec, i + 1))
        invariant i <= count && Here(p, EntryBytes(prec, i)) && |t| == 64
        invariant t == Placed(o.For(count), EntriesAt(raw, p, prec, i), i, base)
      {
        PlacedPrefix(o.For(count), EntriesAt(raw, p, prec, i + 1), EntriesAt(raw, p, prec, i), i, base);
        t := t[o.For(count)[i] := EntryAt(raw, p, prec, i)];
        i := i + 1;
      }
      complete := i == count;
      if complete && count == 64 {
        WholeTable(o, EntriesAt(raw, p, prec, count), base, Ones());
      }
    }

    method StoreEntries(p: nat, n: nat, prec: nat, count: nat, ghost d: map<nat, seq<nat>>, ghost h0: Header)
      returns (complete: bool, t: seq<nat>)
      requires p <= avail <= |raw| && count <= 64 && h == h0.(quant := h0.quant + d)
      modifies this`h
      ensures h == h0.(quant := h0.quant + d[n := t]) && (complete <==> Here(p, EntryBytes(prec, count)))
      ensures complete ==> t == QuantFrom(o, EntriesAt(raw, p, prec, count))
    {
      var was := if n in h.quant && |h.quant[n]| == 64 then h.quant[n] else Ones();
      complete, t := ReadEntries(p, prec, count, if count < 64 then Ones() else was);
      DefinedMore(h0.quant, d, n, t);
      h := h.(quant := h.quant[n := t]);
    }

    /** Of the table that starts at p, some entries have been stored. */
    ghost predicate PartStored(p: nat, d: map<nat, seq<nat>>, h0: Header)
      reads this`h
    {
      Has(raw, p, 1) && raw[p] % 16 < NUM_QUANT_TBLS && exists part :: WithPart(h, h0, d, raw[p] % 16, part)
    }

    lemma {:induction false} DqtWaits(p: nat, length: int, d: map<nat, seq<nat>>)
      requires length > 0 && avail <= |raw|
      ensures !Here(p, 1) || (raw[p] % 16 < NUM_QUANT_TBLS && !Here(p + 1, TableBytes(raw[p], length - 1)))
              ==> Waits(Dqt(o, raw, p, length, d))
    {
      DqtNeeds(o, raw, p, length, d);
    }

    /** One table of a DQT marker; its entries are stored as they arrive. */
    method ReadQuantTable(p: nat, length: int, ghost d: map<nat, seq<nat>>, ghost h0: Header)
      returns (r: Got, p1: nat, length1: int, ghost d1: map<nat, seq<nat>>)
      requires length > 0 && p <= avail <= |raw| && h == h0.(quant := h0.quant + d)
      modifies this`h
      ensures r.Processed? ==> p1 <= avail && length1 < length && h == h0.(quant := h0.quant + d1)
                               && Dqt(o, raw, p1, length1, d1) == Dqt(o, raw, p, length, d)
      ensures r.Suspended? ==> (h == old(h) || PartStored(p, d, h0)) && Waits(Dqt(o, raw, p, length, d))
      ensures r.Fatal? ==> Dqt(o, raw, p, length, d).Failed?
    {
      p1, length1, d1 := p, length, d;
      DqtWaits(p, length, d);
      if !Here(p, 1) {
        return Suspended, p1, length1, d1;
      }
      var n: nat, prec: nat := raw[p] % 16, raw[p] / 16;
      if n >= NUM_QUANT_TBLS {
        return Fatal, p1, length1, d1;
      }
      r, p1, length1, d1 := ReadQuantEntries(p, n, prec, length, d, h0);
    }

    method ReadQuantEntries(p: nat, n: nat, prec: nat, length: int, ghost d: map<nat, seq<nat>>, ghost h0: Header)
      returns (r: Got, p1: nat, length1: int, ghost d1: map<nat, seq<nat>>)
      requires length > 0 && Here(p, 1) && avail <= |raw| && h == h0.(quant := h0.quant + d)
      requires n == raw[p] % 16 < NUM_QUANT_TBLS && prec == raw[p] / 16
      modifies this`h
      ensures r.Processed? || r.Suspended?
      ensures r.Processed? ==> p1 <= avail && length1 < length && h == h0.(quant := h0.quant + d1)
                               && Dqt(o, raw, p1, length1, d1) == Dqt(o, raw, p, length, d)
      ensures r.Suspended? ==> PartStored(p, d, h0) && Waits(Dqt(o, raw, p, length, d))
    {
      var count, bytes := EntryCount(prec, length - 1), TableBytes(raw[p], length - 1);
      var complete, t := StoreEntries(p + 1, n, prec, count, d, h0);
      p1, length1, d1 := p + 1 + bytes, length - 1 - bytes, d[n := t];
      if complete {
        QuantStep(o, raw, p, length, d, t);
        r := Processed;
      } else {
        assert WithPart(h, h0, d, n, t);
        DqtWaits(p, length, d);
        r := Suspended;
      }
    }

    method GetDqt() returns (r: Got)
      requires avail <= |raw|
      modifies this`h, this`pos
      ensures Did(r, old(ProcessTables(o, raw, M_DQT, pos, h)), ProcessTables(o, raw, M_DQT, pos, h))
    {
      if !Here(pos, 2) {
        TablesNeed(o, raw, M_DQT, pos, h);
        return Suspended;
      }
      var p: nat, length: int := pos + 2, Word(raw, pos) - 2;
      ghost var d: map<nat, seq<nat>>, h0 := map[], h;
      assert h0.quant + map[] == h0.quant;
      r := Processed;
      while r.Processed? && length > 0
        invariant p <= avail && pos == old(pos)
        invariant Dqt(o, raw, p, length, d) == Dqt(o, raw, pos + 2, Word(raw, pos) - 2, map[])
        invariant r.Processed? ==> h == h0.(quant := h0.quant + d)
        invariant r.Suspended? ==> Waits(Dqt(o, raw, p, length, d))
                                   && ProcessTables(o, raw, M_DQT, pos, h) == ProcessTables(o, raw, M_DQT, pos, h0)
        invariant r.Fatal? ==> Dqt(o, raw, p, length, d).Failed?
        decreases r.Processed?, length
      {
        var p1: nat, length1: int;
        ghost var d1;
        r, p1, length1, d1 := ReadQuantTable(p, length, d, h0);
        if r.Suspended? {
          QuantSuspended(p, length, d, h0);
        }
        if r.Processed? {
          p, length, d := p1, length1, d1;
        }
      }
      if r.Processed? {
        if length != 0 {
          return Fatal;
        }
        pos := p;
      }
    }

    lemma QuantSuspended(p: nat, length: int, d: map<nat, seq<nat>>, h0: Header)
      requires Has(raw, pos, 2) && length > 0 && Dqt(o, raw, p, length, d) == Dqt(o, raw, pos + 2, Word(raw, pos) - 2, map[])
      requires h == h0.(quant := h0.quant + d) || PartStored(p, d, h0)
      ensures ProcessTables(o, raw, M_DQT, pos, h) == ProcessTables(o, raw, M_DQT, pos, h0)
    {
      if h == h0.(quant := h0.quant + d) {
        DqtAgain(o, raw, pos, h0, p, length, d);
      } else {
        var part :| WithPart(h, h0, d, raw[p] % 16, part);
        DqtAgainWithin(o, raw, pos, h0, p, length, d, part);
      }
    }

    // ---------------------------------------------------------------- SOF and SOS

    /** get_sof; the fields are set as their bytes arrive. */
    method GetSof(code: Byte) returns (r: Got)
      requires avail <= |raw|
      modifies this`h, this`pos
      ensures Did(r, old(ProcessSof(raw, code, pos, h)), ProcessSof(raw, code, pos, h))
    {
      ghost var h0 := h;
      SetFrameFields(code);
      SofAgain(raw, code, pos, h0, h);
      SofNeeds(raw, pos, h0.sawSof);
      if !Here(pos, 8) {
        return Suspended;
      }
      var n: nat := raw[pos + 7];
      if h.sawSof || h.height == 0 || h.width == 0 || n == 0 || Word(raw, pos) - 8 != 3 * n {
        return Fatal;
      }
      r := GetSofComps(code, n, h0);
    }

    method SetFrameFields(code: Byte)
      requires avail <= |raw|
      modifies this`h
      ensures h == WithKind(old(h), code).(precision := h.precision, height := h.height, width := h.width)
      ensures Here(pos, 8) ==> h.precision == raw[pos + 2] && h.height == Word(raw, pos + 3) && h.width == Word(raw, pos + 5)
    {
      h := WithKind(h, code);
      if Here(pos, 3) {
        h := h.(precision := raw[pos + 2]);
      }
      if Here(pos, 5) {
        h := h.(height := Word(raw, pos + 3));
      }
      if Here(pos, 7) {
        h := h.(width := Word(raw, pos + 5));
      }
    }

    lemma SofWaits(code: Byte, p: nat, left: nat, n: nat, comps: seq<CompInfo>, h0: Header)
      requires Here(pos, 8) && avail <= |raw| && n == raw[pos + 7] && 0 < left <= n && p == pos + 8 + 3 * (n - left) && !Here(p, 3)
      requires !h0.sawSof && Word(raw, pos + 3) != 0 && Word(raw, pos + 5) != 0 && Word(raw, pos) - 8 == 3 * n
      requires SofComps(raw, p, left, comps) == SofComps(raw, pos + 8, n, [])
      ensures WaitsFor(ProcessSof(raw, code, pos, h0))
    {
      SofNeeds(raw, pos, false);
    }

    method GetSofComps(code: Byte, n: nat, ghost h0: Header) returns (r: Got)
      requires avail <= |raw| && Here(pos, 8) && n == raw[pos + 7] && SofOnly(h0, h)
      requires h == WithKind(h0, code).(precision := raw[pos + 2], height := Word(raw, pos + 3), width := Word(raw, pos + 5))
      requires !h0.sawSof && h.height != 0 && h.width != 0 && n != 0 && Word(raw, pos) - 8 == 3 * n
      modifies this`h, this`pos
      ensures Did(r, old(ProcessSof(raw, code, pos, h0)), ProcessSof(raw, code, pos, h))
    {
      var p: nat, left: nat := pos + 8, n;
      ghost var h1 := h;
      h := h.(comps := []);
      while left > 0 && Here(p, 3)
        invariant p <= avail && left <= n && pos == old(pos) && h == h1.(comps := h.comps) && p == pos + 8 + 3 * (n - left)
        invariant SofComps(raw, p, left, h.comps) == SofComps(raw, pos + 8, n, [])
      {
        h := h.(comps := h.comps + [CompInfo(FreshId(raw[p], Ids(h.comps)), raw[p + 1] / 16, raw[p + 1] % 16, raw[p + 2])]);
        p, left := p + 3, left - 1;
      }
      if left > 0 {
        SofWaits(code, p, left, n, h.comps, h0);
        SofAgain(raw, code, pos, h0, h);
        return Suspended;
      }
      h := h.(sawSof := true);
      pos := p;
      r := Processed;
    }

    /** The components that a SOS marker names. */
    method GetSosComps(n: nat, ghost h0: Header) returns (r: Got, p: nat, ghost d: ScanComps)
      requires avail <= |raw| && Here(pos, 3) && n == raw[pos + 2] && h == h0
      modifies this`h
      ensures p <= avail && SosOnly(h0, h, d.tblNos) && DistinctIn(h0.comps, d.scan)
      ensures r.Processed? ==> h == h0.(scan := d.scan, tblNos := h0.tblNos + d.tblNos)
                               && SosComps(raw, pos + 3, n, h0.comps, ScanComps([], map[])) == Parsed(p, d)
      ensures r.Suspended? ==> ProcessSos(raw, pos, h) == ProcessSos(raw, pos, h0)
      ensures r.Suspended? ==> Waits(SosComps(raw, pos + 3, n, h0.comps, ScanComps([], map[])))
      ensures r.Fatal? ==> SosComps(raw, pos + 3, n, h0.comps, ScanComps([], map[])).Failed?
    {
      var left;
      r, p, left, d := GetSosCompList(pos + 3, n, h0);
      if r.Suspended? {
        SosAgain(raw, pos, h0, h, p, left, d);
      }
    }

    method GetSosCompList(start: nat, n: nat, ghost h0: Header) returns (r: Got, p: nat, left: nat, ghost d: ScanComps)
      requires start <= avail <= |raw| && h == h0
      modifies this`h
      ensures p <= avail && SosOnly(h0, h, d.tblNos) && DistinctIn(h0.comps, d.scan) && (r.Processed? ==> left == 0)
      ensures SosComps(raw, p, left, h0.comps, d) == SosComps(raw, start, n, h0.comps, ScanComps([], map[]))
      ensures r.Processed? ==> h == h0.(scan := d.scan, tblNos := h0.tblNos + d.tblNos)
      ensures r.Suspended? ==> Waits(SosComps(raw, p, left, h0.comps, d))
      ensures r.Fatal? ==> SosComps(raw, p, left, h0.comps, d).Failed?
    {
      left := n;
      p, d := start, ScanComps([], map[]);
      h := h.(scan := []);
      assert h0.tblNos + map[] == h0.tblNos;
      r := Processed;
      while r.Processed? && left > 0
        invariant p <= avail && SosOnly(h0, h, d.tblNos) && DistinctIn(h0.comps, d.scan)
        invariant SosComps(raw, p, left, h0.comps, d) == SosComps(raw, start, n, h0.comps, ScanComps([], map[]))
        invariant r.Processed? ==> h == h0.(scan := d.scan, tblNos := h0.tblNos + d.tblNos)
        invariant r.Suspended? ==> Waits(SosComps(raw, p, left, h0.comps, d))
        invariant r.Fatal? ==> SosComps(raw, p, left, h0.comps, d).Failed?
        decreases r.Processed?, left
      {
        ghost var d1;
        r, d1 := GetSosComp(p, left, d, h0);
        if r.Processed? {
          p, left, d := p + 2, left - 1, d1;
        }
      }
    }

    method GetSosComp(p: nat, left: nat, ghost d: ScanComps, ghost h0: Header) returns (r: Got, ghost d1: ScanComps)
      requires p <= avail <= |raw| && left > 0 && h == h0.(scan := d.scan, tblNos := h0.tblNos + d.tblNos)
      requires DistinctIn(h0.comps, d.scan)
      modifies this`h
      ensures SosOnly(h0, h, d1.tblNos)
      ensures r.Processed? ==> p + 2 <= avail && h == h0.(scan := d1.scan, tblNos := h0.tblNos + d1.tblNos)
                               && DistinctIn(h0.comps, d1.scan)
                               && SosComps(raw, p, left, h0.comps, d) == SosComps(raw, p + 2, left - 1, h0.comps, d1)
      ensures !r.Processed? ==> d1 == d
      ensures r.Suspended? ==> Waits(SosComps(raw, p, left, h0.comps, d))
      ensures r.Fatal? ==> SosComps(raw, p, left, h0.comps, d).Failed?
    {
      d1 := d;
      SosCompsDistinct(raw, p, left, h0.comps, d);
      if !Here(p, 1) {
        return Suspended, d1;
      }
      var k := IndexOf(h.comps, FreshId(raw[p], ScanIds(h.comps, h.scan)));
      if k == |h.comps| {
        return Fatal, d1;
      }
      ScanStaysDistinct(h0.comps, d.scan, k, raw[p]);
      h := h.(scan := h.scan + [k]);
      if !Here(p, 2) {
        return Suspended, d1;
      }
      var dc: nat, ac: nat := raw[p + 1] / 16, raw[p + 1] % 16;
      DefinedMore(h0.tblNos, d.tblNos, k, (dc, ac));
      h := h.(tblNos := h.tblNos[k := (dc, ac)]);
      r, d1 := Processed, ScanComps(d.scan + [k], d.tblNos[k := (dc, ac)]);
    }

    method GetSos() returns (r: Got)
      requires avail <= |raw|
      modifies this`h, this`pos
      ensures r.Processed? ==> old(ProcessSos(raw, pos, h)) == AtSos(pos, h)
      ensures r.Suspended? ==> ProcessSos(raw, pos, h) == old(ProcessSos(raw, pos, h))
                               && WaitsFor(old(ProcessSos(raw, pos, h)))
      ensures r.Fatal? ==> old(ProcessSos(raw, pos, h)).Error?
    {
      ghost var h0 := h;
      if !h.sawSof {
        return Fatal;
      }
      SosNeeds(raw, pos, h);
      if !Here(pos, 3) {
        return Suspended;
      }
      var n: nat := raw[pos + 2];
      if Word(raw, pos) != n * 2 + 6 || n > MAX_SCAN_COMPS || (n == 0 && !h.progressive) {
        return Fatal;
      }
      var p;
      ghost var d;
      r, p, d := GetSosComps(n, h0);
      if r.Processed? {
        r := GetSosRest(p, n, d, h0);
      }
    }

    method ReadBand(p: nat)
      requires p <= avail <= |raw|
      modifies this`h
      ensures h == old(h).(ss := h.ss, se := h.se) && (Here(p, 2) ==> h.ss == raw[p] && h.se == raw[p + 1])
    {
      if Here(p, 1) {
        h := h.(ss := raw[p]);
      }
      if Here(p, 2) {
        h := h.(se := raw[p + 1]);
      }
    }

    /** Ss, Se, Ah and Al. */
    method GetSosRest(p: nat, n: nat, ghost d: ScanComps, ghost h0: Header) returns (r: Got)
      requires p <= avail <= |raw| && Here(pos, 3) && n == raw[pos + 2] && h == h0.(scan := d.scan, tblNos := h0.tblNos + d.tblNos)
      requires h0.sawSof && Word(raw, pos) == n * 2 + 6 && n <= MAX_SCAN_COMPS && (n == 0 ==> h0.progressive)
      requires SosComps(raw, pos + 3, n, h0.comps, ScanComps([], map[])) == Parsed(p, d) && DistinctIn(h0.comps, d.scan)
      modifies this`h, this`pos
      ensures r.Processed? ==> old(ProcessSos(raw, pos, h0)) == AtSos(pos, h)
      ensures r.Suspended? ==> ProcessSos(raw, pos, h) == old(ProcessSos(raw, pos, h0))
                               && WaitsFor(old(ProcessSos(raw, pos, h0)))
      ensures !r.Fatal?
    {
      ReadBand(p);
      SosWhole(raw, pos, n, h0, p, d);
      if !Here(p, 3) {
        SosAgain(raw, pos, h0, h, p, 0, d);
        return Suspended;
      }
      EndSos(p, n, d, h0);
      r := Processed;
    }

    method EndSos(p: nat, n: nat, ghost d: ScanComps, ghost h0: Header)
      requires Here(p, 3) && avail <= |raw| && n == |d.scan|
      requires h == h0.(scan := d.scan, tblNos := h0.tblNos + d.tblNos, ss := raw[p], se := raw[p + 1])
      modifies this`h, this`pos
      ensures pos == p + 3
      ensures h == WithScan(h0, ScanHeader(d.scan, d.tblNos, raw[p], raw[p + 1], raw[p + 2] / 16, raw[p + 2] % 16))
    {
      h := h.(ah := raw[p + 2] / 16, al := raw[p + 2] % 16, nextRestart := 0,
              scanNumber := if n != 0 then h.scanNumber + 1 else h.scanNumber);
      pos := p + 3;
    }

    // ---------------------------------------------------------------- DRI, LSE, DNL, APPn, COM

    method GetDri() returns (r: Got)
      requires avail <= |raw|
      modifies this`h, this`pos
      ensures r.Processed? ==> old(Dri(raw, pos)) == Parsed(pos, h.restartInterval)
                               && h == old(h).(restartInterval := h.restartInterval)
      ensures !r.Processed? ==> h == old(h) && pos == old(pos)
      ensures r.Suspended? ==> Waits(Dri(raw, pos))
      ensures r.Fatal? ==> Dri(raw, pos).Failed?
    {
      if !Here(pos, 2) {
        return Suspended;
      }
      if Word(raw, pos) != 4 {
        return Fatal;
      }
      if !Here(pos, 4) {
        return Suspended;
      }
      h, pos := h.(restartInterval := Word(raw, pos + 2)), pos + 4;
      r := Processed;
    }

    method GetLse() returns (r: Got)
      requires avail <= |raw|
      modifies this`h, this`pos
      ensures r.Processed? ==> old(Lse(raw, pos, h.sawSof, h.comps)) == Parsed(pos, 0) && h == old(h).(subtractGreen := true)
      ensures !r.Processed? ==> h == old(h) && pos == old(pos)
      ensures r.Suspended? ==> Waits(Lse(raw, pos, h.sawSof, h.comps))
      ensures r.Fatal? ==> Lse(raw, pos, h.sawSof, h.comps).Failed?
    {
      if !h.sawSof || |h.comps| < 3 {
        return Fatal;
      }
      var p: nat, vs := pos, LseValues(h.comps);
      while vs != []
        invariant Sizes(vs) && pos == old(pos) && h == old(h)
        invariant Expect(raw, p, vs) == Lse(raw, pos, h.sawSof, h.comps)
        decreases |vs|
      {
        ExpectNeeds(raw, p, vs);
        if !Here(p, vs[0].0) {
          return Suspended;
        }
        if Number(raw, p, vs[0].0) != vs[0].1 {
          return Fatal;
        }
        p, vs := p + vs[0].0, vs[1..];
      }
      h, pos := h.(subtractGreen := true), p;
      r := Processed;
    }

    /** skip_variable */
    method SkipVariable() returns (ok: bool)
      requires avail <= |raw|
      modifies this`pos
      ensures ok ==> old(Skipped(raw, pos)) == Parsed(pos, 0)
      ensures !ok ==> pos == old(pos) && Waits(Skipped(raw, pos))
    {
      ok := Here(pos, 2);
      if ok {
        pos := EndOf(raw, pos);
      }
    }

    /** get_interesting_appn */
    method GetInterestingAppn() returns (ok: bool)
      requires avail <= |raw|
      modifies this`pos
      ensures ok ==> old(Looked(raw, pos)) == Parsed(pos, 0)
      ensures !ok ==> pos == old(pos) && Waits(Looked(raw, pos))
    {
      ok := Here(pos, 2) && Here(pos + 2, LookLength(raw, pos));
      if ok {
        pos := EndOf(raw, pos);
      }
    }

    /** save_marker: what has arrived is copied, and the restart point moves behind it. */
    method SaveMarker(limit: nat) returns (ok: bool)
      requires Valid() && CanSave(unreadMarker) && hs(unreadMarker) == Save(limit)
      modifies this`h, this`pos, this`cur
      ensures Valid()
      ensures ok ==> old(ProcessVariable(hs, raw, unreadMarker, pos, h, cur)) == Next(pos, h) && cur.NoMarker?
      ensures !ok ==> ProcessVariable(hs, raw, unreadMarker, pos, h, cur)
                      == old(ProcessVariable(hs, raw, unreadMarker, pos, h, cur))
      ensures !ok ==> WaitsFor(old(ProcessVariable(hs, raw, unreadMarker, pos, h, cur)))
    {
      if cur.NoMarker? {
        if !Here(pos, 2) {
          return false;
        }
        if Word(raw, pos) < 2 {
          pos := pos + 2;
          return true;
        }
        cur, pos := Begun(raw, pos, unreadMarker, limit), pos + 2;
      }
      ok := CopyData();
      if ok {
        assert cur.data + raw[pos..pos] == cur.data;
        h := h.(saved := h.saved + [SavedMarker(cur.code, cur.originalLength, cur.data)]);
        pos := pos + (cur.originalLength - cur.limit);
        cur := NoMarker;
      }
    }

    method CopyData() returns (ok: bool)
      requires cur.Reading? && Progressing(cur) && pos <= avail <= |raw|
      modifies this`pos, this`cur
      ensures cur.Reading? && Progressing(cur) && Resumed(raw, pos, cur) == old(Resumed(raw, pos, cur))
      ensures pos <= avail && (ok ==> |cur.data| == cur.limit)
      ensures !ok ==> Waits(Resumed(raw, pos, cur))
      ensures cur == old(cur).(data := cur.data)
    {
      ok := true;
      if |cur.data| < cur.limit {
        var n := if avail - pos <= cur.limit - |cur.data| then avail - pos else cur.limit - |cur.data|;
        if n > 0 {
          MoreData(raw, pos, cur, n);
          cur, pos := cur.(data := cur.data + raw[pos..pos + n]), pos + n;
        }
        ok := |cur.data| == cur.limit;
      }
    }

    // ---------------------------------------------------------------- finding markers

    /** Where the next marker has its code, or the end of the input. */
    ghost function Ahead(): nat
      reads this`pos
    {
      if pos <= |raw| then MarkerFrom(raw, pos) else |raw|
    }

    /** next_marker: data and stuffed FFs are skipped, and the restart point moves with them. */
    method NextMarker() returns (ok: bool)
      requires avail <= |raw| && unreadMarker == 0
      modifies this`pos, this`unreadMarker
      ensures ok ==> old(Ahead()) < |raw| && unreadMarker == raw[old(Ahead())] != 0 && pos == old(Ahead()) + 1 > old(pos)
      ensures !ok ==> unreadMarker == 0 && Ahead() == old(Ahead()) && pos >= old(pos)
      ensures !ok ==> old(Ahead()) >= avail
    {
      while true
        invariant unreadMarker == 0 && Ahead() == old(Ahead()) && pos >= old(pos)
        decreases if pos <= avail then avail - pos else 0
      {
        SkipData();
        if pos >= avail {
          return false;
        }
        var q := SkipFill();
        if q == avail {
          return false;
        }
        if raw[q] != 0 {
          unreadMarker, pos := raw[q], q + 1;
          return true;
        }
        pos := q + 1;
      }
    }

    /** Discards bytes up to the next FF. */
    method SkipData()
      requires avail <= |raw|
      modifies this`pos
      ensures pos >= old(pos) && Ahead() == old(Ahead()) && (old(pos) <= avail ==> pos <= avail)
      ensures pos < avail ==> raw[pos] == 0xFF
      ensures pos >= avail ==> Ahead() >= avail
    {
      while pos < avail && raw[pos] != 0xFF
        invariant pos >= old(pos) && Ahead() == old(Ahead()) && (old(pos) <= avail ==> pos <= avail)
      {
        pos := pos + 1;
      }
    }

    /** Swallows FF bytes; the byte behind them has not arrived if the result is the end of what has. */
    method SkipFill() returns (q: nat)
      requires pos < avail <= |raw| && raw[pos] == 0xFF
      ensures pos < q <= avail && (q < avail ==> SkipFF(raw, pos + 1) == q)
      ensures q == avail ==> Ahead() >= avail
      ensures q < avail ==> Ahead() == if raw[q] == 0 then MarkerFrom(raw, q + 1) else q
    {
      q := pos + 1;
      while q < avail && raw[q] == 0xFF
        invariant pos < q <= avail && SkipFF(raw, q) == SkipFF(raw, pos + 1)
      {
        q := q + 1;
      }
    }

    /** first_marker */
    method FirstMarker() returns (r: Got)
      requires avail <= |raw| && unreadMarker == 0
      modifies this`pos, this`unreadMarker
      ensures r.Processed? ==> Has(raw, old(pos), 2) && raw[old(pos)] == 0xFF && raw[old(pos) + 1] == M_SOI == unreadMarker
                               && pos == old(pos) + 2
      ensures !r.Processed? ==> pos == old(pos) && unreadMarker == 0
      ensures r.Suspended? ==> !Here(pos, 2)
      ensures r.Fatal? ==> Has(raw, pos, 2) && (raw[pos] != 0xFF || raw[pos + 1] != M_SOI)
    {
      if !Here(pos, 2) {
        return Suspended;
      }
      if raw[pos] != 0xFF || raw[pos + 1] != M_SOI {
        return Fatal;
      }
      unreadMarker, pos := M_SOI, pos + 2;
      r := Processed;
    }

    // ---------------------------------------------------------------- read_markers

    /** A marker found or being saved is dealt with, apart from SOS and EOI. */
    ghost predicate Done(r: Got, s: Step, unread: Byte)
      reads this
    {
      && Valid() && unreadMarker == unread
      && match r
         case Processed => s == Next(pos, h) && cur.NoMarker?
         case Suspended => Coming() == s && WaitsFor(s)
         case Fatal => s.Error?
    }

    method ReadTables() returns (r: Got)
      requires Valid() && (unreadMarker == M_DAC || unreadMarker == M_DHT || unreadMarker == M_DQT)
      modifies this`h, this`pos
      ensures Done(r, old(Coming()), old(unreadMarker))
    {
      if unreadMarker == M_DAC {
        r := GetDac();
      } else if unreadMarker == M_DHT {
        r := GetDht();
      } else {
        r := GetDqt();
      }
    }

    method ReadFrame() returns (r: Got)
      requires Valid() && IsSof(unreadMarker)
      modifies this`h, this`pos
      ensures Done(r, old(Coming()), old(unreadMarker))
    {
      r := GetSof(unreadMarker);
    }

    method ReadVariable() returns (r: Got)
      requires Valid() && (IsApp(unreadMarker) || unreadMarker == M_COM)
      modifies this`h, this`pos, this`cur
      ensures Done(r, old(Coming()), old(unreadMarker))
    {
      var ok;
      match hs(unreadMarker) {
        case Skip => ok := SkipVariable();
        case Look => ok := GetInterestingAppn();
        case Save(limit) => ok := SaveMarker(limit);
      }
      r := if ok then Processed else Suspended;
    }

    method ReadOther() returns (r: Got)
      requires Valid() && unreadMarker != M_SOS && unreadMarker != M_EOI && !IsSof(unreadMarker) && unreadMarker != M_DAC
      requires unreadMarker != M_DHT && unreadMarker != M_DQT && !IsApp(unreadMarker) && unreadMarker != M_COM
      modifies this`h, this`pos
      ensures Done(r, old(Coming()), old(unreadMarker))
    {
      var code := unreadMarker;
      r := Processed;
      if code == M_SOI {
        if h.sawSoi {
          return Fatal;
        }
        h := AfterSoi(h);
      } else if code == M_DRI {
        r := GetDri();
      } else if code == M_JPG8 {
        r := GetLse();
      } else if RST0 <= code <= RST0 + 7 || code == M_TEM {
      } else if code == M_DNL {
        var ok := SkipVariable();
        r := if ok then Processed else Suspended;
      } else {
        r := Fatal;
      }
    }

    /** The switch of read_markers, apart from SOS and EOI. */
    method ReadOne() returns (r: Got)
      requires Valid() && unreadMarker != M_SOS && unreadMarker != M_EOI
      modifies this`h, this`pos, this`cur
      ensures Done(r, old(Coming()), old(unreadMarker))
    {
      if IsSof(unreadMarker) {
        r := ReadFrame();
      } else if unreadMarker == M_DAC || unreadMarker == M_DHT || unreadMarker == M_DQT {
        r := ReadTables();
      } else if IsApp(unreadMarker) || unreadMarker == M_COM {
        r := ReadVariable();
      } else {
        r := ReadOther();
      }
    }

    /** What read_markers has come to, or what is still to come. */
    ghost predicate Came(r: Reached, f: Outcome)
      reads this
    {
      && Valid()
      && match r
         case ReachedSos => f == Outcome.ReachesSos(pos, h) && unreadMarker == 0
         case ReachedEoi => f == Outcome.ReachesEoi(pos, h) && unreadMarker == 0
         case NeedInput => f == Future() && WaitsLong(f)
         case ErrorExit => f.Fails?
    }

    lemma FutureNeeds()
      requires Valid() && unreadMarker == 0
      ensures var f := Future();
              f.ReachesSos? || f.ReachesEoi? ==> if h.sawSoi then f.next > Ahead() else f.next >= pos + 2
    {
      if !h.sawSoi {
        if Has(raw, pos, 2) {
          FateMoves(hs, o, raw, pos + 2, M_SOI, h, cur);
        }
      } else if pos <= |raw| && Ahead() < |raw| {
        FateMoves(hs, o, raw, Ahead() + 1, raw[Ahead()], h, cur);
      }
    }

    /** Collect the marker proper. */
    method FindMarker() returns (r: Got)
      requires Valid() && unreadMarker == 0
      modifies this`pos, this`unreadMarker
      ensures Valid() && (!r.Fatal? ==> Future() == old(Future()))
      ensures r.Processed? ==> unreadMarker != 0 && old(pos) < pos && old(pos) < |raw|
      ensures r.Suspended? ==> unreadMarker == 0 && WaitsLong(old(Future()))
      ensures r.Fatal? ==> old(Future()).Fails?
    {
      FutureNeeds();
      if !h.sawSoi {
        r := FirstMarker();
      } else {
        var ok := NextMarker();
        r := if ok then Processed else Suspended;
      }
    }

    /** The marker that has been found; there may be more of them. */
    method TakeMarker() returns (more: bool, r: Reached)
      requires Valid() && unreadMarker != 0
      modifies this`h, this`pos, this`cur, this`unreadMarker
      ensures if more then Valid() && unreadMarker == 0 && pos >= old(pos) && Future() == old(Future())
              else Came(r, old(Future()))
    {
      ProcessMoves(hs, o, raw, unreadMarker, pos, h, cur);
      if Coming().Next? {
        FateMoves(hs, o, raw, Coming().next, 0, Coming().h, NoMarker);
      }
      var g;
      if unreadMarker == M_SOS {
        g := GetSos();
        if g.Processed? {
          unreadMarker := 0;
          return false, ReachedSos;
        }
      } else if unreadMarker == M_EOI {
        unreadMarker := 0;
        return false, ReachedEoi;
      } else {
        g := ReadOne();
      }
      more, r := g.Processed?, if g.Suspended? then NeedInput else ErrorExit;
      if more {
        unreadMarker := 0;
      }
    }

    /** read_markers: it ends at SOS, EOI, an error, or for lack of input; however often it has ended for
        lack of input before, it comes to what it would have come to with all input at hand. */
    method ReadMarkers() returns (r: Reached)
      requires Valid()
      modifies this`h, this`pos, this`cur, this`unreadMarker
      ensures Came(r, old(Future()))
    {
      var more := true;
      r := NeedInput;
      while more
        invariant if more then Valid() && Future() == old(Future()) else Came(r, old(Future()))
        decreases more, if pos <= |raw| then |raw| - pos else 0, unreadMarker != 0
      {
        var g := Processed;
        if unreadMarker == 0 {
          g := FindMarker();
        }
        if g.Processed? {
          more, r := TakeMarker();
        } else {
          more, r := false, if g.Suspended? then NeedInput else ErrorExit;
        }
      }
    }
  }

  function Arrived(arrivals: seq<nat>): nat {
    if arrivals == [] then 0 else Arrived(arrivals[..|arrivals| - 1]) + arrivals[|arrivals| - 1]
  }

  function AtMost(n: nat, limit: nat): nat {
    if n <= limit then n else limit
  }

  /** read_markers called again and again as bytes arrive, until it comes to something. */
  method ReadOn(reader: MarkerReader, arrivals: seq<nat>) returns (r: Reached)
    requires reader.Valid()
    modifies reader
    ensures reader.Came(r, old(reader.Future()))
    ensures reader.avail == AtMost(old(reader.avail) + Arrived(arrivals), |reader.raw|)
  {
    ghost var f, avail := reader.Future(), reader.avail;
    r := reader.ReadMarkers();
    for i := 0 to |arrivals|
      invariant reader.Came(r, f)
      invariant reader.avail == AtMost(avail + Arrived(arrivals[..i]), |reader.raw|)
    {
      assert arrivals[..i + 1][..i] == arrivals[..i];
      reader.avail := AtMost(reader.avail + arrivals[i], |reader.raw|);
      if r.NeedInput? {
        r := reader.ReadMarkers();
      }
    }
    assert arrivals[..|arrivals|] == arrivals;
  }

  /** A whole input read from its start, however its bytes arrive. */
  method ReadArriving(raw: seq<Byte>, hs: Handlers, o: NaturalOrders, arrivals: seq<nat>)
    returns (r: Reached, reader: MarkerReader)
    ensures fresh(reader) && reader.raw == raw && reader.hs == hs && reader.o == o && reader.Valid()
    ensures reader.avail == AtMost(Arrived(arrivals), |raw|)
    ensures var f := Fate(hs, o, raw, 0, 0, FRESH, NoMarker);
            match r
            case ReachedSos => f == Outcome.ReachesSos(reader.pos, reader.h) && reader.unreadMarker == 0
            case ReachedEoi => f == Outcome.ReachesEoi(reader.pos, reader.h) && reader.unreadMarker == 0
            case NeedInput => reader.WaitsLong(f)
            case ErrorExit => f.Fails?
  {
    reader := new MarkerReader(raw, hs, o, 0);
    r := ReadOn(reader, arrivals);
  }

  lemma MoreData(raw: seq<Byte>, p: nat, cur: Current, n: nat)
    requires cur.Reading? && Progressing(cur) && n <= cur.limit - |cur.data| && Has(raw, p, n)
    ensures Resumed(raw, p + n, cur.(data := cur.data + raw[p..p + n])) == Resumed(raw, p, cur)
  {
    var end := p + cur.limit - |cur.data|;
    if end <= |raw| {
      assert raw[p..end] == raw[p..p + n] + raw[p + n..end];
      assert cur.data + raw[p..end] == cur.data + raw[p..p + n] + raw[p + n..end];
    }
  }

  lemma {:induction false} ScanStaysDistinct(comps: seq<CompInfo>, scan: seq<nat>, k: nat, c: nat)
    requires DistinctIn(comps, scan) && k == IndexOf(comps, FreshId(c, ScanIds(comps, scan))) && k < |comps|
    ensures DistinctIn(comps, scan + [k])
  {
    forall i | 0 <= i < |scan|
      ensures scan[i] != k
    {
      assert ScanIds(comps, scan)[i] == comps[scan[i]].id;
    }
  }
}
