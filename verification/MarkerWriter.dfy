/** The marker writer of the compressor (jcmarker.c). Each method says what a marker reader that has read everything
    before makes of what the method writes. */
module MarkerWriterObject {
  import opened ArithTable
  import opened HuffmanCodes
  import opened Segments
  import opened MarkerParsing
  import opened MarkerSegments
  import opened MarkerBytes
  import opened SizeArithmetic

  // ------------------------------------------------------------------ what the reader knows

  /** The reader has quantization table n, as far as it is used with this block size. */
  ghost predicate QuantKnown(o: NaturalOrders, c: Compression, h: Header, n: nat) {
    && 1 <= c.blockSize && n in c.quant && |c.quant[n]| == 64 && n in h.quant && |h.quant[n]| == 64
    && forall k :: 0 <= k <= c.LimSe() ==> h.quant[n][c.NaturalOrder(o)[k]] == c.quant[n][c.NaturalOrder(o)[k]]
  }

  /** The reader has this Huffman table: the same counts and the same symbols. */
  ghost predicate HuffKnown(c: Compression, h: Header, s: HuffSlot) {
    s in c.huff && s in h.huff && Count(c.huff[s]) <= 256 && h.huff[s] == AsRead(c.huff[s])
  }

  ghost predicate QuantsKnown(o: NaturalOrders, c: Compression, h: Header, sent: set<nat>) {
    forall n :: n in sent && n in c.quant ==> QuantKnown(o, c, h, n)
  }

  ghost predicate HuffsKnown(c: Compression, h: Header, sent: set<HuffSlot>) {
    forall s :: s in sent && s in c.huff ==> HuffKnown(c, h, s)
  }

  /** What the reader knows of the frame. */
  ghost predicate ShowsFrame(o: NaturalOrders, c: Compression, h: Header)
    requires c.FrameFits()
  {
    && h.sawSof && h.precision == c.precision && h.height == c.height && h.width == c.width
    && h.comps == Renamed(c.comps)
    && h.arith == c.arith && h.progressive == c.progressive && (h.baseline <==> c.IsBaseline(o))
    && h.subtractGreen == c.transform.SubtractGreen?
    && forall i :: 0 <= i < |c.comps| ==> QuantKnown(o, c, h, c.comps[i].tq)
  }

  /** What the reader knows of the current scan: its components, its parameters, and the tables it uses. */
  ghost predicate ShowsScan(c: Compression, h: Header)
    requires c.ScanFits()
  {
    && h.scan == c.scan && h.ss == c.ss && h.se == c.se && h.ah == c.ah && h.al == c.al
    && h.restartInterval == c.restartInterval
    && forall i :: 0 <= i < |c.scan| ==> ShowsTables(c, h, c.scan[i])
  }

  ghost predicate ShowsTables(c: Compression, h: Header, k: nat)
    requires |c.tblNos| == |c.comps| && c.NumbersFit(k)
  {
    k in h.tblNos && h.tblNos[k] == c.ShownNos(k) && HasTables(c, h, k)
  }

  /** The reader has the tables, or the conditioning, that component k uses in this scan. */
  ghost predicate HasTables(c: Compression, h: Header, k: nat)
    requires |c.tblNos| == |c.comps| && c.NumbersFit(k)
  {
    && (c.NeedsDc() ==> if c.arith then DcKnown(c, h, c.tblNos[k].0) else HuffKnown(c, h, DcSlot(c.tblNos[k].0)))
    && (c.NeedsAc() ==> if c.arith then AcKnown(c, h, c.tblNos[k].1) else HuffKnown(c, h, AcSlot(c.tblNos[k].1)))
  }

  predicate DcKnown(c: Compression, h: Header, t: nat) {
    t < |c.dcCond| && t in h.dcCond && h.dcCond[t] == c.dcCond[t]
  }

  predicate AcKnown(c: Compression, h: Header, t: nat) {
    t < |c.acCond| && t in h.acCond && h.acCond[t] == c.acCond[t]
  }

  /** Between two states of the output, bytes have been written that carry a reader from h to h1. */
  ghost predicate Wrote(hs: Handlers, o: NaturalOrders, was: seq<Byte>, now: seq<Byte>, h: Header, h1: Header) {
    was <= now && Carries(hs, o, now[|was|..], h, h1)
  }

  /** The same, up to and with a SOS marker. */
  ghost predicate WroteSos(hs: Handlers, o: NaturalOrders, was: seq<Byte>, now: seq<Byte>, h: Header, h1: Header) {
    was <= now && Stops(hs, o, now[|was|..], h, h1)
  }

  /** Bytes have been written at which a reader with header h comes to an error exit. */
  ghost predicate WroteBad(hs: Handlers, o: NaturalOrders, was: seq<Byte>, now: seq<Byte>, h: Header) {
    was <= now && Breaks(hs, o, now[|was|..], h)
  }

  ghost predicate EndsAt(hs: Handlers, o: NaturalOrders, bytes: seq<Byte>, h: Header, raw: seq<Byte>, p: nat) {
    At(raw, p, bytes) ==> Fate(hs, o, raw, p, 0, h, NoMarker) == Outcome.ReachesEoi(p + |bytes|, h)
  }

  /** Where these bytes stand, the reader comes to an EOI behind them. */
  ghost predicate Ends(hs: Handlers, o: NaturalOrders, bytes: seq<Byte>, h: Header) {
    forall raw: seq<Byte>, p: nat :: EndsAt(hs, o, bytes, h, raw, p)
  }

  /** The same, the header being h1 then. */
  ghost predicate Ended(hs: Handlers, o: NaturalOrders, bytes: seq<Byte>, h: Header, h1: Header) {
    forall raw: seq<Byte>, p: nat :: EndedAt(hs, o, bytes, h, h1, raw, p)
  }

  ghost predicate EndedAt(hs: Handlers, o: NaturalOrders, bytes: seq<Byte>, h: Header, h1: Header, raw: seq<Byte>, p: nat) {
    At(raw, p, bytes) ==> Fate(hs, o, raw, p, 0, h, NoMarker) == Outcome.ReachesEoi(p + |bytes|, h1)
  }

  lemma EndsOn(hs: Handlers, o: NaturalOrders, a: seq<Byte>, b: seq<Byte>, h: Header, h1: Header)
    requires Carries(hs, o, a, h, h1) && Ends(hs, o, b, h1)
    ensures Ended(hs, o, a + b, h, h1)
  {
    forall raw: seq<Byte>, p: nat
      ensures EndedAt(hs, o, a + b, h, h1, raw, p)
    {
      if At(raw, p, a + b) {
        AtDrop(raw, p, a, b);
        assert CarriesAt(hs, o, a, h, h1, raw, p) && EndsAt(hs, o, b, h1, raw, p + |a|);
      }
    }
  }

  lemma EoiEnds(hs: Handlers, o: NaturalOrders, h: Header)
    requires h.sawSoi
    ensures Ends(hs, o, Marker(M_EOI), h)
  {
    forall raw: seq<Byte>, p: nat
      ensures EndsAt(hs, o, Marker(M_EOI), h, raw, p)
    {
      if At(raw, p, Marker(M_EOI)) {
        AtEnd(raw, p, Marker(M_EOI));
        MarkerFound(hs, o, raw, p, M_EOI, [], h);
      }
    }
  }

  lemma WroteNothing(hs: Handlers, o: NaturalOrders, out: seq<Byte>, h: Header)
    ensures Wrote(hs, o, out, out, h, h)
  {
    CarriesNothing(hs, o, h);
  }

  lemma WroteBytes(hs: Handlers, o: NaturalOrders, was: seq<Byte>, bytes: seq<Byte>, h: Header, h1: Header)
    requires Carries(hs, o, bytes, h, h1)
    ensures Wrote(hs, o, was, was + bytes, h, h1)
  {
    assert (was + bytes)[|was|..] == bytes;
  }

  lemma WroteMore(hs: Handlers, o: NaturalOrders, a: seq<Byte>, b: seq<Byte>, c: seq<Byte>, h: Header, h1: Header, h2: Header)
    requires Wrote(hs, o, a, b, h, h1) && Wrote(hs, o, b, c, h1, h2)
    ensures Wrote(hs, o, a, c, h, h2)
  {
    assert c[|a|..] == b[|a|..] + c[|b|..];
    CarriesOn(hs, o, b[|a|..], c[|b|..], h, h1, h2);
  }

  lemma WroteToSos(hs: Handlers, o: NaturalOrders, a: seq<Byte>, b: seq<Byte>, bytes: seq<Byte>, h: Header, h1: Header,
                   h2: Header)
    requires Wrote(hs, o, a, b, h, h1) && Stops(hs, o, bytes, h1, h2)
    ensures WroteSos(hs, o, a, b + bytes, h, h2)
  {
    assert (b + bytes)[|a|..] == b[|a|..] + bytes;
    StopsOn(hs, o, b[|a|..], bytes, h, h1, h2);
  }

  lemma BadBytes(hs: Handlers, o: NaturalOrders, was: seq<Byte>, bytes: seq<Byte>, h: Header)
    requires Breaks(hs, o, bytes, h)
    ensures WroteBad(hs, o, was, was + bytes, h)
  {
    assert (was + bytes)[|was|..] == bytes;
  }

  lemma BadLater(hs: Handlers, o: NaturalOrders, a: seq<Byte>, b: seq<Byte>, c: seq<Byte>, h: Header, h1: Header)
    requires Wrote(hs, o, a, b, h, h1) && WroteBad(hs, o, b, c, h1)
    ensures WroteBad(hs, o, a, c, h)
  {
    assert c[|a|..] == b[|a|..] + c[|b|..];
    BreaksOn(hs, o, b[|a|..], c[|b|..], h, h1);
  }

  /** Nothing that follows mends it. */
  lemma BadStill(hs: Handlers, o: NaturalOrders, a: seq<Byte>, b: seq<Byte>, c: seq<Byte>, h: Header)
    requires WroteBad(hs, o, a, b, h) && b <= c
    ensures WroteBad(hs, o, a, c, h)
  {
    assert c[|a|..] == b[|a|..] + c[|b|..];
    BreaksStill(hs, o, b[|a|..], c[|b|..], h);
  }

  lemma SameQuant(o: NaturalOrders, c: Compression, c1: Compression, h: Header, n: nat)
    requires QuantKnown(o, c, h, n) && c1.quant == c.quant && c1.blockSize == c.blockSize
    ensures QuantKnown(o, c1, h, n)
  {
    forall k | 0 <= k <= c1.LimSe()
      ensures h.quant[n][c1.NaturalOrder(o)[k]] == c1.quant[n][c1.NaturalOrder(o)[k]]
    {
      assert c1.NaturalOrder(o) == c.NaturalOrder(o) && k <= c.LimSe();
    }
  }

  // ------------------------------------------------------------------ the writer

  class MarkerWriter {
    const o: NaturalOrders
    ghost const hs: Handlers        // what the reader's application wants done with APPn and COM markers
    var out: seq<Byte>              // what has been written
    var lastRestartInterval: nat
    var sentQuant: set<nat>         // the tables whose sent_table flag is set
    var sentHuff: set<HuffSlot>

    /** jinit_marker_writer */
    constructor (o: NaturalOrders, ghost hs: Handlers, sentQuant: set<nat>, sentHuff: set<HuffSlot>)
      ensures this.o == o && this.hs == hs && this.sentQuant == sentQuant && this.sentHuff == sentHuff
      ensures out == [] && lastRestartInterval == 0
    {
      this.o, this.hs, this.sentQuant, this.sentHuff := o, hs, sentQuant, sentHuff;
      out, lastRestartInterval := [], 0;
    }

    /** The reader knows the tables that have been sent, and the last restart interval. */
    ghost predicate InStep(c: Compression, h: Header)
      reads this`lastRestartInterval, this`sentQuant, this`sentHuff
    {
      h.sawSoi && h.restartInterval == lastRestartInterval && QuantsKnown(o, c, h, sentQuant) && HuffsKnown(c, h, sentHuff)
    }

    // ---------------------------------------------------------------- bytes

    method EmitByte(val: nat)
      modifies this`out
      ensures out == old(out) + [val % 256]
    {
      out := out + [val % 256];
    }

    /** A value that is a byte. */
    method EmitSmall(val: nat)
      requires val < 256
      modifies this`out
      ensures out == old(out) + [val]
    {
      EmitByte(val);
    }

    method EmitMarker(mark: Byte)
      modifies this`out
      ensures out == old(out) + Marker(mark)
    {
      EmitByte(0xFF);
      EmitByte(mark);
    }

    method Emit2Bytes(value: nat)
      modifies this`out
      ensures out == old(out) + Bytes2(value)
    {
      EmitByte(value / 256 % 256);
      EmitByte(value % 256);
    }

    // ---------------------------------------------------------------- DQT

    /** The precision that a table needs. */
    method FindPrecision(c: Compression, n: nat) returns (prec: nat)
      requires 1 <= c.blockSize && n in c.quant && |c.quant[n]| == 64
      ensures prec == if c.Wide(o, n) then 1 else 0
    {
      prec := 0;
      for i := 0 to c.LimSe() + 1
        invariant prec == if exists k :: 0 <= k < i && c.Zigzag(o, c.quant[n])[k] > 255 then 1 else 0
      {
        if c.quant[n][c.NaturalOrder(o)[i]] > 255 {
          assert c.Zigzag(o, c.quant[n])[i] > 255;
          prec := 1;
        }
      }
    }

    method EmitEntry(prec: nat, qval: nat)
      modifies this`out
      ensures out == old(out) + if prec != 0 then Bytes2(qval) else [qval % 256]
    {
      if prec != 0 {
        EmitByte(qval / 256);
      }
      EmitByte(qval % 256);
    }

    method EmitEntries(t: seq<nat>, order: Order, last: nat, prec: nat, ghost vals: seq<nat>)
      requires |t| == 64 && last < 64 && |vals| == last + 1 && forall k :: 0 <= k <= last ==> vals[k] == t[order[k]]
      modifies this`out
      ensures out == old(out) + EntriesTo(prec, vals, last + 1)
    {
      for i := 0 to last + 1
        invariant out == old(out) + EntriesTo(prec, vals, i)
      {
        EmitEntry(prec, t[order[i]]);
      }
    }

    /** A DQT marker for table n. */
    method WriteDqt(c: Compression, n: nat, prec: nat)
      requires 1 <= c.blockSize && n < NUM_QUANT_TBLS && n in c.quant && |c.quant[n]| == 64 && prec <= 1
      modifies this`out
      ensures out == old(out) + (Marker(M_DQT) + DqtParams(n + prec * 16, c.Zigzag(o, c.quant[n])))
    {
      EmitMarker(M_DQT);
      Emit2Bytes(if prec != 0 then c.LimSe() * 2 + 2 + 1 + 2 else c.LimSe() + 1 + 1 + 2);
      EmitByte(n + prec * 16);
      EmitEntries(c.quant[n], c.NaturalOrder(o), c.LimSe(), prec, c.Zigzag(o, c.quant[n]));
      DqtBytes(old(out), n + prec * 16, prec, c.Zigzag(o, c.quant[n]));
    }

    lemma DqtBytes(was: seq<Byte>, index: Byte, prec: nat, vals: seq<nat>)
      requires index / 16 == prec
      ensures was + Marker(M_DQT) + Bytes2(EntryBytes(prec, |vals|) + 3) + [index] + EntriesTo(prec, vals, |vals|)
           == was + (Marker(M_DQT) + DqtParams(index, vals))
    {
      EntriesToAll(prec, vals, |vals|);
      assert vals[..|vals|] == vals;
      ThreeParts(was, Marker(M_DQT), Bytes2(EntryBytes(prec, |vals|) + 3), [index], EntriesTo(prec, vals, |vals|));
    }

    lemma ThreeParts(was: seq<Byte>, a: seq<Byte>, b: seq<Byte>, c: seq<Byte>, d: seq<Byte>)
      ensures was + a + b + c + d == was + (a + (b + (c + d)))
    {
    }

    /** A DQT marker for table n, unless it has been sent. */
    method EmitDqt(c: Compression, n: nat, ghost h: Header) returns (ok: bool, prec: nat, ghost h1: Header)
      requires 1 <= c.blockSize && n < NUM_QUANT_TBLS && InStep(c, h)
      requires n in c.quant ==> |c.quant[n]| == 64 && Words(c.quant[n])
      modifies this`out, this`sentQuant
      ensures ok <==> n in c.quant
      ensures ok ==> InStep(c, h1) && Wrote(hs, o, old(out), out, h, h1) && h1 == h.(quant := h1.quant)
      ensures ok ==> prec == (if c.Wide(o, n) then 1 else 0) && sentQuant == old(sentQuant) + {n}
      ensures ok ==> out == old(out) + if n in old(sentQuant) then [] else QuantMarker(o, c, n)
      ensures !ok ==> out == old(out) && sentQuant == old(sentQuant)
    {
      prec, h1 := 0, h;
      ok := n in c.quant;
      if !ok {
        return;
      }
      prec := FindPrecision(c, n);
      WroteNothing(hs, o, out, h);
      if n !in sentQuant {
        h1 := SendDqt(c, n, prec, h);
      }
    }

    method SendDqt(c: Compression, n: nat, prec: nat, ghost h: Header) returns (ghost h1: Header)
      requires 1 <= c.blockSize && n < NUM_QUANT_TBLS && n in c.quant && |c.quant[n]| == 64 && Words(c.quant[n])
      requires prec == (if c.Wide(o, n) then 1 else 0) && InStep(c, h)
      modifies this`out, this`sentQuant
      ensures InStep(c, h1) && Wrote(hs, o, old(out), out, h, h1) && h1 == h.(quant := h1.quant)
      ensures sentQuant == old(sentQuant) + {n} && out == old(out) + QuantMarker(o, c, n)
    {
      WriteDqt(c, n, prec);
      h1 := ReadDqt(c, n, prec, old(out), h);
      NowKnown(c, n, h);
      QuantMarkerIs(o, c, n, prec);
      sentQuant := sentQuant + {n};
    }

    static function IndexByte(n: nat, prec: nat): (index: Byte)
      requires n < NUM_QUANT_TBLS && prec <= 1
      ensures index / 16 == prec && index % 16 == n
    {
      n + prec * 16
    }

    lemma ReadDqt(c: Compression, n: nat, prec: nat, was: seq<Byte>, h: Header) returns (h1: Header)
      requires 1 <= c.blockSize && n < NUM_QUANT_TBLS && n in c.quant && |c.quant[n]| == 64 && Words(c.quant[n]) && h.sawSoi
      requires prec == (if c.Wide(o, n) then 1 else 0)
      ensures h1 == h.(quant := h.quant + OneQuant(n, QuantFrom(o, c.Zigzag(o, c.quant[n]))))
      ensures Wrote(hs, o, was, was + (Marker(M_DQT) + DqtParams(n + prec * 16, c.Zigzag(o, c.quant[n]))), h, h1)
    {
      var index: Byte := IndexByte(n, prec);
      SentIsNarrow(o, c, n);
      h1 := ReadEntries(index, n, c.Zigzag(o, c.quant[n]), was, h);
    }

    lemma ReadEntries(index: Byte, n: nat, vals: seq<nat>, was: seq<Byte>, h: Header) returns (h1: Header)
      requires index % 16 == n < NUM_QUANT_TBLS && |vals| <= 64 && Narrow(index / 16, vals) && h.sawSoi
      ensures h1 == h.(quant := h.quant + OneQuant(n, QuantFrom(o, vals)))
      ensures Wrote(hs, o, was, was + (Marker(M_DQT) + DqtParams(index, vals)), h, h1)
    {
      h1 := h.(quant := h.quant + OneQuant(n, QuantFrom(o, vals)));
      DqtCarries(hs, o, index, n, vals, h);
      WroteBytes(hs, o, was, Marker(M_DQT) + DqtParams(index, vals), h, h1);
    }

    lemma NowKnown(c: Compression, n: nat, h: Header)
      requires 1 <= c.blockSize && n in c.quant && |c.quant[n]| == 64 && QuantsKnown(o, c, h, sentQuant)
      ensures QuantsKnown(o, c, h.(quant := h.quant + OneQuant(n, QuantFrom(o, c.Zigzag(o, c.quant[n])))), sentQuant + {n})
    {
      forall k | 0 <= k <= c.LimSe()
        ensures QuantFrom(o, c.Zigzag(o, c.quant[n]))[c.NaturalOrder(o)[k]] == c.quant[n][c.NaturalOrder(o)[k]]
      {
        SentIsRead(o, c, c.quant[n], k);
      }
    }

    // ---------------------------------------------------------------- DHT

    /** A DHT marker for the table, unless it has been sent. */
    method EmitDht(c: Compression, s: HuffSlot, ghost h: Header) returns (ok: bool, ghost h1: Header)
      requires s.i < NUM_HUFF && InStep(c, h) && (s in c.huff ==> Count(c.huff[s]) <= 256)
      modifies this`out, this`sentHuff
      ensures ok <==> s in c.huff
      ensures ok ==> InStep(c, h1) && Wrote(hs, o, old(out), out, h, h1) && h1 == h.(huff := h1.huff)
      ensures ok ==> sentHuff == old(sentHuff) + {s}
      ensures ok ==> out == old(out) + if s in old(sentHuff) then [] else HuffMarker(c, s)
      ensures !ok ==> out == old(out) && sentHuff == old(sentHuff)
    {
      h1, ok := h, s in c.huff;
      if !ok {
        return;
      }
      WroteNothing(hs, o, out, h);
      if s !in sentHuff {
        h1 := WriteDht(c.huff[s], s, h);
        HuffNowKnown(c, s, h, h1);
        sentHuff := sentHuff + {s};
      }
    }

    lemma HuffNowKnown(c: Compression, s: HuffSlot, h: Header, h1: Header)
      requires s in c.huff && Count(c.huff[s]) <= 256 && HuffsKnown(c, h, sentHuff)
      requires h1.huff == h.huff + map[s := AsRead(c.huff[s])]
      ensures HuffsKnown(c, h1, sentHuff + {s})
    {
    }

    method WriteDht(t: HuffTbl, s: HuffSlot, ghost h: Header) returns (ghost h1: Header)
      requires s.i < NUM_HUFF && Count(t) <= 256 && h.sawSoi
      modifies this`out
      ensures Wrote(hs, o, old(out), out, h, h1) && h1 == h.(huff := h.huff + map[s := AsRead(t)])
      ensures out == old(out) + (Marker(M_DHT) + DhtParams(s, t))
    {
      EmitMarker(M_DHT);
      var length := CountSymbols(t);
      EmitTable(t, s, length);
      h1 := ReadDht(t, s, old(out), h);
    }

    method CountSymbols(t: HuffTbl) returns (length: nat)
      ensures length == Count(t)
    {
      length := 0;
      for i := 1 to 17
        invariant length == SumOf(t.bits[1..i])
      {
        assert t.bits[1..i + 1][..i - 1] == t.bits[1..i];
        length := length + t.bits[i];
      }
      assert t.bits[1..17] == t.bits[1..];
    }

    lemma ReadDht(t: HuffTbl, s: HuffSlot, was: seq<Byte>, h: Header) returns (h1: Header)
      requires s.i < NUM_HUFF && Count(t) <= 256 && h.sawSoi
      ensures h1 == h.(huff := h.huff + map[s := AsRead(t)])
      ensures Wrote(hs, o, was, was + Marker(M_DHT) + DhtParams(s, t), h, h1)
      ensures was + Marker(M_DHT) + DhtParams(s, t) == was + (Marker(M_DHT) + DhtParams(s, t))
    {
      h1 := h.(huff := h.huff + map[s := AsRead(t)]);
      DhtCarries(hs, o, s, t, h);
      WroteBytes(hs, o, was, Marker(M_DHT) + DhtParams(s, t), h, h1);
      assert was + Marker(M_DHT) + DhtParams(s, t) == was + (Marker(M_DHT) + DhtParams(s, t));
    }

    method EmitTable(t: HuffTbl, s: HuffSlot, length: nat)
      requires s.i < NUM_HUFF && length == Count(t) <= 256
      modifies this`out
      ensures out == old(out) + DhtParams(s, t)
    {
      Emit2Bytes(length + 2 + 1 + 16);
      EmitByte(SlotByte(s));
      ghost var start := out;
      for i := 1 to 17
        invariant out == start + t.bits[1..i]
      {
        EmitByte(t.bits[i]);
        assert t.bits[1..i + 1] == t.bits[1..i] + [t.bits[i]];
      }
      ghost var mid := out;
      for i := 0 to length
        invariant out == mid + t.vals[..i]
      {
        EmitByte(t.vals[i]);
        assert t.vals[..i + 1] == t.vals[..i] + [t.vals[i]];
      }
      assert t.bits[1..17] == t.bits[1..];
    }
    // ---------------------------------------------------------------- DAC

    /** The in-use flags of emit_dac. */
    method FindUsed(c: Compression) returns (dcInUse: array<bool>, acInUse: array<bool>)
      requires forall i :: 0 <= i < |c.scan| ==> c.scan[i] < |c.tblNos| && c.tblNos[c.scan[i]].0 < NUM_ARITH
                                                 && c.tblNos[c.scan[i]].1 < NUM_ARITH
      ensures fresh(dcInUse) && fresh(acInUse) && dcInUse.Length == acInUse.Length == NUM_ARITH
      ensures forall t :: 0 <= t < NUM_ARITH ==> dcInUse[t] == DcUsed(c, t) && acInUse[t] == AcUsed(c, t)
    {
      dcInUse, acInUse := new bool[NUM_ARITH](_ => false), new bool[NUM_ARITH](_ => false);
      for i := 0 to |c.scan|
        invariant forall t :: 0 <= t < NUM_ARITH ==> dcInUse[t] == DcUsedBy(c, i, t) && acInUse[t] == AcUsedBy(c, i, t)
      {
        var k := c.scan[i];
        if c.ss == 0 && c.ah == 0 {
          dcInUse[c.tblNos[k].0] := true;
        }
        if c.se != 0 {
          acInUse[c.tblNos[k].1] := true;
        }
      }
    }

    method CountUsed(c: Compression, dcInUse: array<bool>, acInUse: array<bool>) returns (length: nat)
      requires CondsFit(c) && dcInUse.Length == acInUse.Length == NUM_ARITH
      requires forall t :: 0 <= t < NUM_ARITH ==> dcInUse[t] == DcUsed(c, t) && acInUse[t] == AcUsed(c, t)
      ensures 2 * length == |DacEntries(c, NUM_ARITH)|
    {
      length := 0;
      for i := 0 to NUM_ARITH
        invariant 2 * length == |DacEntries(c, i)|
      {
        length := length + (if dcInUse[i] then 1 else 0) + (if acInUse[i] then 1 else 0);
      }
    }

    method EmitConditions(c: Compression, dcInUse: array<bool>, acInUse: array<bool>)
      requires CondsFit(c) && dcInUse.Length == acInUse.Length == NUM_ARITH
      requires forall t :: 0 <= t < NUM_ARITH ==> dcInUse[t] == DcUsed(c, t) && acInUse[t] == AcUsed(c, t)
      modifies this`out
      ensures out == old(out) + DacEntries(c, NUM_ARITH)
    {
      for i := 0 to NUM_ARITH
        invariant out == old(out) + DacEntries(c, i)
      {
        EmitCondition(c, i, dcInUse[i], acInUse[i]);
      }
    }

    method EmitCondition(c: Compression, i: nat, dcUsed: bool, acUsed: bool)
      requires CondsFit(c) && i < NUM_ARITH && dcUsed == DcUsed(c, i) && acUsed == AcUsed(c, i)
      modifies this`out
      ensures out == old(out) + DacEntry(c, i)
    {
      assert c.CondFits(i);
      if dcUsed {
        EmitByte(i);
        EmitByte(c.dcCond[i].0 + c.dcCond[i].1 * 16);
      }
      if acUsed {
        EmitByte(i + 16);
        EmitByte(c.acCond[i]);
      }
    }

    /** The bounds of a DC conditioning are written as they are; a reader takes them exactly if they are in order. */
    method EmitDac(c: Compression, ghost h: Header) returns (ghost h1: Header)
      requires CondsFit(c) && h.sawSoi
      requires forall i :: 0 <= i < |c.scan| ==> c.scan[i] < |c.tblNos| && c.tblNos[c.scan[i]].0 < NUM_ARITH
                                                 && c.tblNos[c.scan[i]].1 < NUM_ARITH
      modifies this`out
      ensures out == old(out) + DacMarker(c) && h1 == WithConds(h, ReadFrom(c, NUM_ARITH))
      ensures if InOrder(c, NUM_ARITH) then Wrote(hs, o, old(out), out, h, h1) else WroteBad(hs, o, old(out), out, h)
    {
      var dcInUse, acInUse := FindUsed(c);
      var length := CountUsed(c, dcInUse, acInUse);
      h1 := WithConds(h, ReadFrom(c, NUM_ARITH));
      if length != 0 {
        EmitMarker(M_DAC);
        Emit2Bytes(length * 2 + 2);
        EmitConditions(c, dcInUse, acInUse);
        ThreeParts(old(out), Marker(M_DAC), Bytes2(length * 2 + 2), DacEntries(c, NUM_ARITH), []);
        assert out == old(out) + (Marker(M_DAC) + DacParams(c));
      }
      DacTaken(c, old(out), h);
    }

    lemma DacTaken(c: Compression, was: seq<Byte>, h: Header)
      requires CondsFit(c) && h.sawSoi
      ensures var now := was + DacMarker(c);
              if InOrder(c, NUM_ARITH) then Wrote(hs, o, was, now, h, WithConds(h, ReadFrom(c, NUM_ARITH)))
              else WroteBad(hs, o, was, now, h)
    {
      if DacEntries(c, NUM_ARITH) == [] {
        NoConditions(c, NUM_ARITH);
        assert h.dcCond + map[] == h.dcCond && h.acCond + map[] == h.acCond;
        assert was + [] == was;
        WroteNothing(hs, o, was, h);
      } else if InOrder(c, NUM_ARITH) {
        DacCarries(hs, o, c, h);
        WroteBytes(hs, o, was, DacMarker(c), h, WithConds(h, ReadFrom(c, NUM_ARITH)));
      } else {
        DacBreaks(hs, o, c, h);
        BadBytes(hs, o, was, DacMarker(c), h);
      }
    }

    // ---------------------------------------------------------------- DRI and LSE

    method EmitDri(interval: nat, ghost h: Header) returns (ghost h1: Header)
      requires h.sawSoi && interval < 65536
      modifies this`out
      ensures Wrote(hs, o, old(out), out, h, h1) && h1 == h.(restartInterval := interval)
      ensures out == old(out) + (Marker(M_DRI) + DriParams(interval))
    {
      EmitMarker(M_DRI);
      Emit2Bytes(4);
      Emit2Bytes(interval);
      h1 := h.(restartInterval := interval);
      DriCarries(hs, o, interval, h);
      assert out == old(out) + (Marker(M_DRI) + DriParams(interval));
      WroteBytes(hs, o, old(out), Marker(M_DRI) + DriParams(interval), h, h1);
    }

    method EmitValue(size: nat, value: nat, ghost start: seq<Byte>, ghost vs: seq<(nat, nat)>, ghost k: nat)
      requires ValuesFit(vs) && k < |vs| && vs[k] == (size, value) && out == start + ValueBytes(vs, k)
      modifies this`out
      ensures out == start + ValueBytes(vs, k + 1)
    {
      assert ValueFits(vs[k]);
      if size == 1 {
        EmitByte(value);
      } else {
        Emit2Bytes(value);
      }
    }

    /** Length, identifiers and the components: the first seven values. */
    method EmitLseHead(comps: seq<CompInfo>)
      requires |comps| >= 3 && AllFit(comps)
      modifies this`out
      ensures out == old(out) + ValueBytes(LseValues(comps), 7)
    {
      ghost var start, vs := out, LseValues(comps);
      EmitValue(2, 24, start, vs, 0);
      EmitValue(1, 0x0D, start, vs, 1);
      EmitValue(2, 255, start, vs, 2);
      EmitValue(1, 3, start, vs, 3);
      EmitValue(1, comps[1].id, start, vs, 4);
      EmitValue(1, comps[0].id, start, vs, 5);
      EmitValue(1, comps[2].id, start, vs, 6);
    }

    /** The coefficients of the transform. */
    method EmitLseRest(ghost comps: seq<CompInfo>, ghost start: seq<Byte>)
      requires |comps| >= 3 && AllFit(comps) && out == start + ValueBytes(LseValues(comps), 7)
      modifies this`out
      ensures out == start + ValueBytes(LseValues(comps), 16)
    {
      ghost var vs := LseValues(comps);
      EmitValue(1, 0x80, start, vs, 7);
      EmitValue(2, 0, start, vs, 8);
      EmitValue(2, 0, start, vs, 9);
      EmitValue(1, 0, start, vs, 10);
      EmitValue(2, 1, start, vs, 11);
      EmitValue(2, 0, start, vs, 12);
      EmitValue(1, 0, start, vs, 13);
      EmitValue(2, 1, start, vs, 14);
      EmitValue(2, 0, start, vs, 15);
    }

    /** The ids of the first three components are written as they are; a reader takes the transform exactly if they
        are the ids that it has. */
    method EmitLseIct(c: Compression, ghost h: Header) returns (ok: bool, ghost h1: Header)
      requires AllFit(c.comps) && h.sawSoi && h.sawSof && |h.comps| == |c.comps|
      modifies this`out
      ensures ok <==> c.transform.SubtractGreen? && |c.comps| >= 3
      ensures ok ==> out == old(out) + (Marker(M_JPG8) + ValueBytes(LseValues(c.comps), 16))
      ensures ok ==> h1 == h.(subtractGreen := true)
      ensures ok ==> if SameThree(c.comps, h.comps) then Wrote(hs, o, old(out), out, h, h1) else WroteBad(hs, o, old(out), out, h)
    {
      h1 := h.(subtractGreen := true);
      ok := c.transform.SubtractGreen? && |c.comps| >= 3;
      if ok {
        EmitMarker(M_JPG8);
        ghost var start := out;
        EmitLseHead(c.comps);
        EmitLseRest(c.comps, start);
        ReadLse(old(out), c.comps, h);
      }
    }

    lemma ReadLse(was: seq<Byte>, comps: seq<CompInfo>, h: Header)
      requires |comps| >= 3 && AllFit(comps) && h.sawSoi && h.sawSof && |h.comps| == |comps|
      ensures var bytes := Marker(M_JPG8) + ValueBytes(LseValues(comps), 16);
              && was + Marker(M_JPG8) + ValueBytes(LseValues(comps), 16) == was + bytes
              && if SameThree(comps, h.comps) then Wrote(hs, o, was, was + bytes, h, h.(subtractGreen := true))
                 else WroteBad(hs, o, was, was + bytes, h)
    {
      var params := ValueBytes(LseValues(comps), 16);
      assert was + Marker(M_JPG8) + params == was + (Marker(M_JPG8) + params);
      if SameThree(comps, h.comps) {
        LseCarries(hs, o, comps, h);
        WroteBytes(hs, o, was, Marker(M_JPG8) + params, h, h.(subtractGreen := true));
      } else {
        LseBreaks(hs, o, comps, h);
        BadBytes(hs, o, was, Marker(M_JPG8) + params, h);
      }
    }
    // ---------------------------------------------------------------- SOF and SOS

    method EmitComp(c: CompInfo)
      requires CompFits(c)
      modifies this`out
      ensures out == old(out) + CompBytes(c)
    {
      EmitSmall(c.id);
      EmitSmall(c.h * 16 + c.v);
      EmitSmall(c.tq);
    }

    method EmitComps(comps: seq<CompInfo>)
      requires AllFit(comps)
      modifies this`out
      ensures out == old(out) + CompsBytes(comps)
    {
      for i := 0 to |comps|
        invariant out == old(out) + CompsTo(comps, i)
      {
        EmitComp(comps[i]);
      }
      CompsToAll(comps, |comps|);
      assert comps[..|comps|] == comps;
    }

    method EmitFrame(f: Frame)
      requires AllFit(f.comps) && f.precision < 256 && |f.comps| < 256
      modifies this`out
      ensures out == old(out) + SofParams(f)
    {
      Emit2Bytes(3 * |f.comps| + 2 + 5 + 1);
      EmitByte(f.precision);
      Emit2Bytes(f.height);
      Emit2Bytes(f.width);
      EmitByte(|f.comps|);
      EmitComps(f.comps);
      SixParts(old(out), Bytes2(3 * |f.comps| + 8), [f.precision], Bytes2(f.height), Bytes2(f.width), [|f.comps|],
               CompsBytes(f.comps));
    }

    lemma SixParts(was: seq<Byte>, a: seq<Byte>, b: seq<Byte>, c: seq<Byte>, d: seq<Byte>, e: seq<Byte>, f: seq<Byte>)
      ensures was + a + b + c + d + e + f == was + (a + (b + (c + (d + (e + f)))))
    {
    }

    static function FrameOf(c: Compression): Frame {
      Frame(c.precision, c.height, c.width, c.comps)
    }

    /** The frame as a reader has it, with distinct ids. */
    static function FrameSeen(c: Compression): Frame {
      Frame(c.precision, c.height, c.width, Renamed(c.comps))
    }

    method EmitSof(c: Compression, code: Byte, ghost h: Header) returns (ok: bool, ghost h1: Header)
      requires c.FrameFits() && IsSof(code) && h.sawSoi && !h.sawSof
      modifies this`out
      ensures ok <==> c.height <= 65535 && c.width <= 65535
      ensures ok ==> out == old(out) + (Marker(code) + SofParams(FrameOf(c)))
      ensures ok ==> Wrote(hs, o, old(out), out, h, h1) && h1 == WithFrame(h, code, FrameSeen(c))
    {
      var f := FrameOf(c);
      h1 := WithFrame(h, code, FrameSeen(c));
      ok := c.height <= 65535 && c.width <= 65535;
      if ok {
        EmitMarker(code);
        EmitFrame(f);
        ReadSof(old(out), code, f, h);
      }
    }

    lemma ReadSof(was: seq<Byte>, code: Byte, f: Frame, h: Header)
      requires IsSof(code) && h.sawSoi && !h.sawSof && AllFit(f.comps) && f.precision < 256 && 1 <= |f.comps| < 256
      requires 0 < f.height < 65536 && 0 < f.width < 65536
      ensures was + Marker(code) + SofParams(f) == was + (Marker(code) + SofParams(f))
      ensures Wrote(hs, o, was, was + (Marker(code) + SofParams(f)), h, WithFrame(h, code, f.(comps := Renamed(f.comps))))
    {
      SofCarries(hs, o, code, f, h);
      assert was + Marker(code) + SofParams(f) == was + (Marker(code) + SofParams(f));
      WroteBytes(hs, o, was, Marker(code) + SofParams(f), h, WithFrame(h, code, f.(comps := Renamed(f.comps))));
    }

    method EmitSpecs(c: Compression)
      requires SpecsFit(c, c.scan)
      modifies this`out
      ensures out == old(out) + SpecBytes(c, c.scan)
    {
      for i := 0 to |c.scan|
        invariant out == old(out) + SpecBytes(c, c.scan[..i])
      {
        var k := c.scan[i];
        assert SpecFits(c, k);
        SpecBytesMore(c, c.scan[..i], k);
        assert c.scan[..i + 1] == c.scan[..i] + [k];
        var td := if c.ss == 0 && c.ah == 0 then c.tblNos[k].0 else 0;
        var ta := if c.se != 0 then c.tblNos[k].1 else 0;
        EmitByte(c.comps[k].id);
        EmitByte(td * 16 + ta);
      }
      assert c.scan[..|c.scan|] == c.scan;
    }

    /** The parameters of a SOS marker. */
    method EmitSosParams(c: Compression)
      requires SosFits(c)
      modifies this`out
      ensures out == old(out) + SosParams(c)
    {
      Emit2Bytes(2 * |c.scan| + 2 + 1 + 3);
      EmitByte(|c.scan|);
      EmitSpecs(c);
      ghost var was := out;
      EmitByte(c.ss);
      EmitByte(c.se);
      EmitByte(c.ah * 16 + c.al);
      assert out == was + [c.ss, c.se, c.ah * 16 + c.al];
      ThreeParts(old(out), Bytes2(2 * |c.scan| + 6), [|c.scan|], SpecBytes(c, c.scan), [c.ss, c.se, c.ah * 16 + c.al]);
    }

    /** The marker is written in any case; if all before it carries the reader, and each component is found by its
        id, it comes to the scan. */
    method EmitSos(c: Compression, ghost sound: bool, ghost was: seq<Byte>, ghost h0: Header, ghost h: Header)
      returns (ghost h1: Header)
      requires SosFits(c) && (sound ==> Wrote(hs, o, was, out, h0, h))
      requires h.sawSoi && h.sawSof && h.comps == Renamed(c.comps) && (c.scan == [] ==> h.progressive)
      modifies this`out
      ensures out == old(out) + (Marker(M_SOS) + SosParams(c)) && h1 == WithScan(h, HeaderOf(c))
      ensures sound && FindsAll(c, h.comps) ==> WroteSos(hs, o, was, out, h0, h1)
    {
      ghost var before := out;
      EmitMarker(M_SOS);
      EmitSosParams(c);
      h1 := WithScan(h, HeaderOf(c));
      assert out == before + (Marker(M_SOS) + SosParams(c));
      if sound && FindsAll(c, h.comps) {
        RenamedIs(c.comps);
        SosStops(hs, o, c, h);
        WroteToSos(hs, o, was, before, Marker(M_SOS) + SosParams(c), h0, h, h1);
      }
    }
    // ---------------------------------------------------------------- the frame header

    /** A DQT marker for each table that has not been sent; prec counts the components with 16-bit tables. */
    method EmitQuants(c: Compression, ghost h: Header) returns (ok: bool, prec: nat, ghost h1: Header)
      requires c.FrameFits() && InStep(c, h)
      modifies this`out, this`sentQuant
      ensures ok <==> forall i :: 0 <= i < |c.comps| ==> c.comps[i].tq in c.quant
      ensures ok ==> InStep(c, h1) && Wrote(hs, o, old(out), out, h, h1) && h1 == h.(quant := h1.quant)
      ensures ok ==> forall i :: 0 <= i < |c.comps| ==> c.comps[i].tq in sentQuant
      ensures ok ==> (prec > 0 <==> exists i :: 0 <= i < |c.comps| && c.Wide(o, c.comps[i].tq))
      ensures ok ==> QuantsSent(o, c, old(out), out, old(sentQuant), sentQuant, QuantsWanted(c.comps, |c.comps|))
    {
      ok, prec, h1 := true, 0, h;
      WroteNothing(hs, o, out, h);
      NoneSent(o, c, out, sentQuant, sentHuff);
      assert QuantsToNow(c, 0, out, sentQuant, prec, h, h1);
      for ci := 0 to |c.comps|
        invariant ok <==> forall i :: 0 <= i < ci ==> c.comps[i].tq in c.quant
        invariant ok ==> QuantsTo(c, ci, old(out), old(sentQuant), prec, h, h1)
      {
        if ok {
          ok, prec, h1 := EmitQuantOf(c, ci, old(out), old(sentQuant), prec, h, h1);
        }
      }
      if ok {
        assert QuantsToNow(c, |c.comps|, old(out), old(sentQuant), prec, h, h1);
        WantedAreSent(o, c, old(out), out, old(sentQuant), sentQuant);
      }
    }

    /** The tables of the first k components have been sent, and prec says how many need 16 bits. */
    ghost predicate QuantsToNow(c: Compression, k: nat, was: seq<Byte>, sent0: set<nat>, prec: nat, h0: Header, h: Header)
      requires c.FrameFits()
      reads this`out, this`lastRestartInterval, this`sentQuant, this`sentHuff
    {
      && k <= |c.comps|
      && InStep(c, h) && Wrote(hs, o, was, out, h0, h) && h == h0.(quant := h.quant)
      && (prec > 0 <==> exists i :: 0 <= i < k && c.Wide(o, c.comps[i].tq))
      && QuantsSent(o, c, was, out, sent0, sentQuant, QuantsWanted(c.comps, k))
    }

    /** The same, unfolded only on demand. */
    ghost predicate QuantsTo(c: Compression, k: nat, was: seq<Byte>, sent0: set<nat>, prec: nat, h0: Header, h: Header)
      requires c.FrameFits()
      reads this`out, this`lastRestartInterval, this`sentQuant, this`sentHuff
    {
      forall n {:trigger QuantsToNow(c, n, was, sent0, prec, h0, h)} :: n == k ==> QuantsToNow(c, n, was, sent0, prec, h0, h)
    }

    method EmitQuantOf(c: Compression, ci: nat, ghost was: seq<Byte>, ghost sent0: set<nat>, prec0: nat, ghost h0: Header,
                       ghost h: Header)
      returns (ok: bool, prec: nat, ghost h1: Header)
      requires c.FrameFits() && ci < |c.comps| && QuantsTo(c, ci, was, sent0, prec0, h0, h)
      modifies this`out, this`sentQuant
      ensures ok <==> c.comps[ci].tq in c.quant
      ensures ok ==> QuantsTo(c, ci + 1, was, sent0, prec, h0, h1)
    {
      assert QuantsToNow(c, ci, was, sent0, prec0, h0, h) && CompFits(c.comps[ci]);
      var one: nat;
      ok, one, h1 := EmitNextQuant(c, c.comps[ci].tq, was, sent0, QuantsWanted(c.comps, ci), h0, h);
      prec := prec0 + one;
      if ok {
        assert QuantsToNow(c, ci + 1, was, sent0, prec, h0, h1);
      }
    }

    /** Table n comes behind those of `wanted`. */
    method EmitNextQuant(c: Compression, n: nat, ghost was: seq<Byte>, ghost sent0: set<nat>, ghost wanted: seq<nat>,
                         ghost h0: Header, ghost h: Header)
      returns (ok: bool, prec: nat, ghost h1: Header)
      requires c.QuantsFit() && n < NUM_QUANT_TBLS && InStep(c, h) && Wrote(hs, o, was, out, h0, h)
      requires QuantsSent(o, c, was, out, sent0, sentQuant, wanted)
      modifies this`out, this`sentQuant
      ensures ok <==> n in c.quant
      ensures ok ==> InStep(c, h1) && Wrote(hs, o, was, out, h0, h1) && h1 == h.(quant := h1.quant)
      ensures ok ==> prec == (if c.Wide(o, n) then 1 else 0) && sentQuant == old(sentQuant) + {n}
      ensures ok ==> QuantsSent(o, c, was, out, sent0, sentQuant, wanted + [n])
    {
      ghost var mid, sent1 := out, sentQuant;
      ok, prec, h1 := EmitDqt(c, n, h);
      if ok {
        WroteMore(hs, o, was, mid, out, h0, h, h1);
        QuantSent(o, c, was, mid, out, sent0, sent1, sentQuant, wanted, n);
      }
    }

    method FindBaseline(c: Compression, prec: nat) returns (isBaseline: bool)
      requires c.FrameFits()
      requires prec > 0 <==> exists i :: 0 <= i < |c.comps| && c.Wide(o, c.comps[i].tq)
      ensures isBaseline <==> c.IsBaseline(o)
    {
      if c.arith || c.progressive || c.precision != 8 || c.blockSize != 8 {
        isBaseline := false;
      } else {
        isBaseline := true;
        for ci := 0 to |c.comps|
          invariant isBaseline <==> forall i :: 0 <= i < ci ==> c.tblNos[i].0 <= 1 && c.tblNos[i].1 <= 1
        {
          if c.tblNos[ci].0 > 1 || c.tblNos[ci].1 > 1 {
            isBaseline := false;
          }
        }
        if prec != 0 && isBaseline {
          isBaseline := false;
        }
      }
    }

    static function SofCode(c: Compression, isBaseline: bool): Byte {
      if c.arith then (if c.progressive then M_SOF10 else M_SOF9)
      else if c.progressive then M_SOF2 else if isBaseline then M_SOF0 else M_SOF1
    }

    /** The color transform, if there is one, is written with the ids that a reader has. */
    static predicate LseLegible(c: Compression) {
      |c.comps| >= 3 && !c.transform.NoTransform? ==> SameThree(c.comps, Renamed(c.comps))
    }

    /** SOF, and LSE if there is a color transform. */
    method EmitSofLse(c: Compression, isBaseline: bool, ghost was: seq<Byte>, ghost h0: Header, ghost h: Header)
      returns (ok: bool, ghost h1: Header)
      requires c.FrameFits() && Wrote(hs, o, was, out, h0, h) && h.sawSoi && !h.sawSof && !h.subtractGreen
      requires isBaseline <==> c.IsBaseline(o)
      modifies this`out
      ensures ok <==> c.height <= 65535 && c.width <= 65535
                      && (c.transform.NoTransform? || (c.transform.SubtractGreen? && |c.comps| >= 3))
      ensures ok ==> if LseLegible(c) then Wrote(hs, o, was, out, h0, h1) else WroteBad(hs, o, was, out, h0)
      ensures ok ==> h1 == WithFrame(h, SofCode(c, isBaseline), FrameSeen(c)).(subtractGreen := c.transform.SubtractGreen?)
      ensures ok ==> out == old(out) + SofBytes(c, SofCode(c, isBaseline)) + LseBytes(c)
    {
      ghost var before := out;
      ok, h1 := EmitSof(c, SofCode(c, isBaseline), h);
      if ok {
        WroteMore(hs, o, was, before, out, h0, h, h1);
        ok, h1 := EmitLse(c, was, h0, h1);
      }
    }

    /** LSE, if there is a color transform. */
    method EmitLse(c: Compression, ghost was: seq<Byte>, ghost h0: Header, ghost h: Header) returns (ok: bool, ghost h1: Header)
      requires c.FrameFits() && Wrote(hs, o, was, out, h0, h) && h.sawSoi && h.sawSof && !h.subtractGreen
      requires h.comps == Renamed(c.comps)
      modifies this`out
      ensures ok <==> c.transform.NoTransform? || (c.transform.SubtractGreen? && |c.comps| >= 3)
      ensures ok ==> if LseLegible(c) then Wrote(hs, o, was, out, h0, h1) else WroteBad(hs, o, was, out, h0)
      ensures ok ==> h1 == h.(subtractGreen := c.transform.SubtractGreen?) && out == old(out) + LseBytes(c)
    {
      ok, h1 := true, h;
      if !c.transform.NoTransform? {
        ghost var mid := out;
        ok, h1 := EmitLseIct(c, h);
        if ok && LseLegible(c) {
          WroteMore(hs, o, was, mid, out, h0, h, h1);
        } else if ok {
          BadLater(hs, o, was, mid, out, h0, h);
        }
      }
    }

    /** The frame header can be written: the tables are there, and the sizes and the transform are supported. */
    static predicate CanWriteFrame(c: Compression) {
      && (forall i :: 0 <= i < |c.comps| ==> c.comps[i].tq in c.quant) && c.height <= 65535 && c.width <= 65535
      && (c.transform.NoTransform? || (c.transform.SubtractGreen? && |c.comps| >= 3))
    }

    static predicate HasPseudoSos(c: Compression) {
      c.progressive && c.blockSize != 8
    }

    /** The SOS marker without components that shows the block size. */
    static function PseudoSos(c: Compression): (p: Compression)
      requires 1 <= c.blockSize <= 16
      ensures p == c.(scan := [], ss := 0, se := p.se, ah := 0, al := 0) && p.se < 256
    {
      LimSeIsSquare(c.blockSize);
      c.(scan := [], ss := 0, se := c.blockSize * c.blockSize - 1, ah := 0, al := 0)
    }

    lemma FrameShown(c: Compression, isBaseline: bool, h: Header, h1: Header)
      requires c.FrameFits() && QuantsKnown(o, c, h, sentQuant) && (isBaseline <==> c.IsBaseline(o))
      requires forall i :: 0 <= i < |c.comps| ==> c.comps[i].tq in sentQuant && c.comps[i].tq in c.quant
      requires h1 == WithFrame(h, SofCode(c, isBaseline), FrameSeen(c))
                     .(subtractGreen := c.transform.SubtractGreen?)
      ensures ShowsFrame(o, c, h1)
    {
      forall i | 0 <= i < |c.comps|
        ensures QuantKnown(o, c, h1, c.comps[i].tq)
      {
        assert QuantKnown(o, c, h, c.comps[i].tq);
      }
    }

    lemma StillShown(c: Compression, h: Header, s: ScanHeader)
      requires c.FrameFits() && ShowsFrame(o, c, h)
      ensures ShowsFrame(o, c, WithScan(h, s))
    {
      forall i | 0 <= i < |c.comps|
        ensures QuantKnown(o, c, WithScan(h, s), c.comps[i].tq)
      {
        assert QuantKnown(o, c, h, c.comps[i].tq);
      }
    }

    lemma StillInStep(c: Compression, h: Header, h1: Header)
      requires InStep(c, h) && h1.sawSoi == h.sawSoi && h1.restartInterval == h.restartInterval
      requires h1.quant == h.quant && h1.huff == h.huff
      ensures InStep(c, h1)
    {
      forall n | n in sentQuant && n in c.quant
        ensures QuantKnown(o, c, h1, n)
      {
        assert QuantKnown(o, c, h, n);
      }
    }

    /** The reader has read the SOS marker without components. */
    static ghost predicate AtPseudoSos(c: Compression, h: Header) {
      h.scan == [] && h.ss == 0 && h.se == c.blockSize * c.blockSize - 1 && h.ah == 0 && h.al == 0
    }

    /** The bytes of the frame header: the tables that have not been sent, the frame, and a SOS marker if the block
        size has to be shown. */
    static ghost predicate FrameWrittenNow(o: NaturalOrders, c: Compression, was: seq<Byte>, now: seq<Byte>, sent0: set<nat>,
                                           sent: set<nat>)
      requires c.FrameFits() && CanWriteFrame(c)
    {
      && now == was + QuantMarkers(o, c, NewOnes(QuantsWanted(c.comps, |c.comps|), sent0))
                + SofBytes(c, SofCode(c, c.IsBaseline(o))) + LseBytes(c) + PseudoBytes(c)
      && forall n :: n in sent <==> n in sent0 || n in QuantsWanted(c.comps, |c.comps|)
    }

    /** The same, unfolded only on demand. */
    static ghost predicate FrameWritten(o: NaturalOrders, c: Compression, was: seq<Byte>, now: seq<Byte>, sent0: set<nat>,
                                        sent: set<nat>)
      requires c.FrameFits() && CanWriteFrame(c)
    {
      forall b {:trigger FrameWrittenNow(o, c, was, b, sent0, sent)} :: b == now ==> FrameWrittenNow(o, c, was, b, sent0, sent)
    }

    static ghost function PseudoBytes(c: Compression): seq<Byte>
      requires c.FrameFits()
    {
      if HasPseudoSos(c) then Marker(M_SOS) + SosParams(PseudoSos(c)) else []
    }

    lemma FrameDone(c: Compression, was: seq<Byte>, tables: seq<Byte>, frame: seq<Byte>, now: seq<Byte>, sent0: set<nat>,
                    sent: set<nat>)
      requires c.FrameFits() && CanWriteFrame(c)
      requires QuantsSent(o, c, was, tables, sent0, sent, QuantsWanted(c.comps, |c.comps|))
      requires frame == tables + SofBytes(c, SofCode(c, c.IsBaseline(o))) + LseBytes(c)
      requires now == frame + PseudoBytes(c)
      ensures FrameWritten(o, c, was, now, sent0, sent)
    {
      AllQuantsSent(o, c, was, tables, sent0, sent, QuantsWanted(c.comps, |c.comps|));
      assert FrameWrittenNow(o, c, was, now, sent0, sent);
    }

    /** write_frame_header: the reader has the frame and all its quantization tables, unless the color transform
        names ids that have been repeated, which is an error.  A table that has been sent is not written again. */
    method WriteFrameHeader(c: Compression, ghost h: Header) returns (ok: bool, ghost h1: Header)
      requires c.FrameFits() && InStep(c, h) && !h.sawSof && !h.subtractGreen
      modifies this`out, this`sentQuant
      ensures ok <==> CanWriteFrame(c)
      ensures ok ==> InStep(c, h1) && ShowsFrame(o, c, h1)
      ensures ok && LseLegible(c) && HasPseudoSos(c) ==> WroteSos(hs, o, old(out), out, h, h1) && AtPseudoSos(c, h1)
      ensures ok && LseLegible(c) && !HasPseudoSos(c) ==> Wrote(hs, o, old(out), out, h, h1)
      ensures ok && !LseLegible(c) ==> WroteBad(hs, o, old(out), out, h)
      ensures ok ==> FrameWritten(o, c, old(out), out, old(sentQuant), sentQuant)
    {
      var prec;
      ok, prec, h1 := EmitQuants(c, h);
      if ok {
        ghost var tables := out;
        ok, h1 := WriteFrame(c, prec, old(out), h, h1);
        ghost var frame := out;
        if ok && c.progressive && c.blockSize != 8 {
          h1 := WritePseudoSos(c, old(out), h, h1);
        }
        if ok {
          FrameDone(c, old(out), tables, frame, out, old(sentQuant), sentQuant);
        }
      }
    }

    method WriteFrame(c: Compression, prec: nat, ghost was: seq<Byte>, ghost h0: Header, ghost h: Header)
      returns (ok: bool, ghost h1: Header)
      requires c.FrameFits() && InStep(c, h) && !h.sawSof && !h.subtractGreen && Wrote(hs, o, was, out, h0, h)
      requires forall i :: 0 <= i < |c.comps| ==> c.comps[i].tq in sentQuant && c.comps[i].tq in c.quant
      requires prec > 0 <==> exists i :: 0 <= i < |c.comps| && c.Wide(o, c.comps[i].tq)
      modifies this`out
      ensures ok <==> CanWriteFrame(c)
      ensures ok ==> InStep(c, h1) && ShowsFrame(o, c, h1)
      ensures ok ==> if LseLegible(c) then Wrote(hs, o, was, out, h0, h1) else WroteBad(hs, o, was, out, h0)
      ensures ok ==> out == old(out) + SofBytes(c, SofCode(c, c.IsBaseline(o))) + LseBytes(c)
    {
      var isBaseline := FindBaseline(c, prec);
      ok, h1 := EmitSofLse(c, isBaseline, was, h0, h);
      if ok {
        FrameShown(c, isBaseline, h, h1);
        StillInStep(c, h, h1);
      }
    }

    method WritePseudoSos(c: Compression, ghost was: seq<Byte>, ghost h0: Header, ghost h: Header) returns (ghost h1: Header)
      requires c.FrameFits() && InStep(c, h) && ShowsFrame(o, c, h) && c.progressive
      requires if LseLegible(c) then Wrote(hs, o, was, out, h0, h) else WroteBad(hs, o, was, out, h0)
      modifies this`out
      ensures AtPseudoSos(c, h1) && InStep(c, h1) && ShowsFrame(o, c, h1)
      ensures if LseLegible(c) then WroteSos(hs, o, was, out, h0, h1) else WroteBad(hs, o, was, out, h0)
      ensures out == old(out) + (Marker(M_SOS) + SosParams(PseudoSos(c)))
    {
      h1 := EmitSos(PseudoSos(c), LseLegible(c), was, h0, h);
      if !LseLegible(c) {
        BadStill(hs, o, was, old(out), out, h0);
      }
      StillShown(c, h, HeaderOf(PseudoSos(c)));
      StillInStep(c, h, h1);
    }
    // ---------------------------------------------------------------- the scan header

    /** The Huffman tables that component k needs have been sent. */
    ghost predicate Sent(c: Compression, k: nat)
      requires |c.tblNos| == |c.comps| && c.NumbersFit(k)
      reads this`sentHuff
    {
      && (c.NeedsDc() ==> DcSlot(c.tblNos[k].0) in sentHuff)
      && (c.NeedsAc() ==> AcSlot(c.tblNos[k].1) in sentHuff)
    }

    static predicate Defined(c: Compression, k: nat)
      requires |c.tblNos| == |c.comps| && c.NumbersFit(k)
    {
      && (c.NeedsDc() ==> DcSlot(c.tblNos[k].0) in c.huff)
      && (c.NeedsAc() ==> AcSlot(c.tblNos[k].1) in c.huff)
    }

    /** The tables of one component, behind those of `wanted`. */
    method EmitHuffsOf(c: Compression, k: nat, ghost was: seq<Byte>, ghost sent0: set<HuffSlot>, ghost wanted: seq<HuffSlot>,
                       ghost h0: Header, ghost h: Header)
      returns (ok: bool, ghost h1: Header)
      requires c.ScanFits() && !c.arith && c.NumbersFit(k) && InStep(c, h) && Wrote(hs, o, was, out, h0, h)
      requires HuffsSent(c, was, out, sent0, sentHuff, wanted)
      modifies this`out, this`sentHuff
      ensures ok <==> Defined(c, k)
      ensures ok ==> InStep(c, h1) && Wrote(hs, o, was, out, h0, h1) && h1 == h.(huff := h1.huff)
      ensures ok ==> HuffsSent(c, was, out, sent0, sentHuff, wanted + HuffsOf(c, k))
    {
      ok, h1 := true, h;
      ghost var more := wanted;
      if c.ss == 0 && c.ah == 0 {
        more := wanted + [DcSlot(c.tblNos[k].0)];
        ok, h1 := EmitNextHuff(c, DcSlot(c.tblNos[k].0), was, sent0, wanted, h0, h);
      }
      if ok && c.se != 0 {
        ok, h1 := EmitNextHuff(c, AcSlot(c.tblNos[k].1), was, sent0, more, h0, h1);
        more := more + [AcSlot(c.tblNos[k].1)];
      }
      if ok {
        assert more == wanted + HuffsOf(c, k);
      }
    }

    method EmitNextHuff(c: Compression, s: HuffSlot, ghost was: seq<Byte>, ghost sent0: set<HuffSlot>,
                        ghost wanted: seq<HuffSlot>, ghost h0: Header, ghost h: Header)
      returns (ok: bool, ghost h1: Header)
      requires c.HuffsFit() && s.i < NUM_HUFF && InStep(c, h) && Wrote(hs, o, was, out, h0, h)
      requires HuffsSent(c, was, out, sent0, sentHuff, wanted)
      modifies this`out, this`sentHuff
      ensures ok <==> s in c.huff
      ensures ok ==> InStep(c, h1) && Wrote(hs, o, was, out, h0, h1) && h1 == h.(huff := h1.huff)
      ensures ok ==> sentHuff == old(sentHuff) + {s}
      ensures ok ==> HuffsSent(c, was, out, sent0, sentHuff, wanted + [s])
    {
      ghost var mid, sent1 := out, sentHuff;
      ok, h1 := EmitDht(c, s, h);
      if ok {
        WroteMore(hs, o, was, mid, out, h0, h, h1);
        HuffSent(c, was, mid, out, sent0, sent1, sentHuff, wanted, s);
      }
    }

    method EmitHuffs(c: Compression, ghost h: Header) returns (ok: bool, ghost h1: Header)
      requires c.ScanFits() && !c.arith && InStep(c, h)
      modifies this`out, this`sentHuff
      ensures ok <==> forall i :: 0 <= i < |c.scan| ==> Defined(c, c.scan[i])
      ensures ok ==> InStep(c, h1) && Wrote(hs, o, old(out), out, h, h1) && h1 == h.(huff := h1.huff)
      ensures ok ==> forall i :: 0 <= i < |c.scan| ==> Sent(c, c.scan[i])
      ensures ok ==> HuffsSent(c, old(out), out, old(sentHuff), sentHuff, HuffsWanted(c, |c.scan|))
    {
      ok, h1 := true, h;
      WroteNothing(hs, o, out, h);
      NoneSent(o, c, out, sentQuant, sentHuff);
      for i := 0 to |c.scan|
        invariant ok <==> forall j :: 0 <= j < i ==> Defined(c, c.scan[j])
        invariant ok ==> InStep(c, h1) && Wrote(hs, o, old(out), out, h, h1) && h1 == h.(huff := h1.huff)
        invariant ok ==> HuffsSent(c, old(out), out, old(sentHuff), sentHuff, HuffsWanted(c, i))
      {
        if ok {
          ok, h1 := EmitHuffsOf(c, c.scan[i], old(out), old(sentHuff), HuffsWanted(c, i), h, h1);
        }
      }
      if ok {
        ScanHuffsAreSent(c, old(out), out, old(sentHuff), sentHuff);
      }
    }

    /** The reader has the tables or the conditioning that the scan uses. */
    static ghost predicate TablesShown(c: Compression, h: Header)
      requires c.ScanFits()
    {
      forall i :: 0 <= i < |c.scan| ==> HasTables(c, h, c.scan[i])
    }

    lemma HuffsShown(c: Compression, h: Header)
      requires c.ScanFits() && !c.arith && InStep(c, h)
      requires forall i :: 0 <= i < |c.scan| ==> Defined(c, c.scan[i]) && Sent(c, c.scan[i])
      ensures TablesShown(c, h)
    {
      forall i | 0 <= i < |c.scan|
        ensures HasTables(c, h, c.scan[i])
      {
        assert Defined(c, c.scan[i]) && Sent(c, c.scan[i]);
      }
    }

    static lemma CondsShown(c: Compression, h: Header)
      requires c.ScanFits() && c.arith
      ensures TablesShown(c, WithConds(h, ReadFrom(c, NUM_ARITH)))
    {
      ReadFromAll(c, NUM_ARITH);
      forall i | 0 <= i < |c.scan|
        ensures HasTables(c, WithConds(h, ReadFrom(c, NUM_ARITH)), c.scan[i])
      {
        var k := c.scan[i];
        assert c.NumbersFit(k);
        if c.NeedsDc() {
          assert DcUsed(c, c.tblNos[k].0);
        }
        if c.NeedsAc() {
          assert AcUsed(c, c.tblNos[k].1);
        }
      }
    }

    /** The bounds of each DC conditioning that the scan uses, if it is arithmetic, are in order. */
    static ghost predicate SoundConds(c: Compression)
      requires c.arith ==> CondsFit(c)
    {
      c.arith ==> InOrder(c, NUM_ARITH)
    }

    /** The Huffman tables that are sent with the tables of the scan. */
    ghost predicate SentAfter(c: Compression, sent0: set<HuffSlot>)
      requires c.ScanFits()
      reads this`sentHuff
    {
      forall s :: s in sentHuff <==> s in sent0 || (!c.arith && s in HuffsWanted(c, |c.scan|))
    }

    /** DAC, or DHT for each table that is needed and has not been sent. */
    method EmitScanTables(c: Compression, ghost h: Header) returns (ok: bool, ghost h1: Header)
      requires c.ScanFits() && InStep(c, h)
      modifies this`out, this`sentHuff
      ensures ok <==> c.arith || forall i :: 0 <= i < |c.scan| ==> Defined(c, c.scan[i])
      ensures ok ==> InStep(c, h1) && TablesShown(c, h1)
      ensures ok ==> if SoundConds(c) then Wrote(hs, o, old(out), out, h, h1) else WroteBad(hs, o, old(out), out, h)
      ensures ok ==> h1 == h.(huff := h1.huff, dcCond := h1.dcCond, acCond := h1.acCond)
      ensures ok ==> out == old(out) + TablesBytes(c, old(sentHuff)) && SentAfter(c, old(sentHuff))
    {
      if c.arith {
        Numbers(c);
        h1 := EmitDac(c, h);
        ok := true;
        StillInStep(c, h, h1);
        CondsShown(c, h);
      } else {
        ok, h1 := EmitHuffs(c, h);
        if ok {
          AllHuffsSent(c, old(out), out, old(sentHuff), sentHuff, HuffsWanted(c, |c.scan|));
          HuffsShown(c, h1);
        }
      }
    }

    static lemma Numbers(c: Compression)
      requires c.ScanFits() && c.arith
      ensures forall i :: 0 <= i < |c.scan| ==> c.scan[i] < |c.tblNos| && c.tblNos[c.scan[i]].0 < NUM_ARITH
                                                && c.tblNos[c.scan[i]].1 < NUM_ARITH
    {
      forall i | 0 <= i < |c.scan|
        ensures c.scan[i] < |c.tblNos| && c.tblNos[c.scan[i]].0 < NUM_ARITH && c.tblNos[c.scan[i]].1 < NUM_ARITH
      {
        assert c.NumbersFit(c.scan[i]);
      }
    }

    /** A DRI marker, if the restart interval has changed. */
    method EmitRestart(c: Compression, ghost sound: bool, ghost was: seq<Byte>, ghost h0: Header, ghost h: Header)
      returns (ghost h1: Header)
      requires c.ScanFits() && InStep(c, h) && (sound ==> Wrote(hs, o, was, out, h0, h))
      modifies this`out, this`lastRestartInterval
      ensures InStep(c, h1) && (sound ==> Wrote(hs, o, was, out, h0, h1))
      ensures h1 == h.(restartInterval := c.restartInterval) && lastRestartInterval == c.restartInterval
      ensures out == old(out) + if c.restartInterval != old(lastRestartInterval)
                                then Marker(M_DRI) + DriParams(c.restartInterval) else []
    {
      h1 := h;
      if c.restartInterval != lastRestartInterval {
        ghost var mid := out;
        h1 := EmitDri(c.restartInterval, h);
        if sound {
          WroteMore(hs, o, was, mid, out, h0, h, h1);
        }
        lastRestartInterval := c.restartInterval;
        TablesStill(c, h, h1);
      }
    }

    lemma TablesStill(c: Compression, h: Header, h1: Header)
      requires QuantsKnown(o, c, h, sentQuant) && HuffsKnown(c, h, sentHuff) && h1.quant == h.quant && h1.huff == h.huff
      ensures QuantsKnown(o, c, h1, sentQuant) && HuffsKnown(c, h1, sentHuff)
    {
      forall n | n in sentQuant && n in c.quant
        ensures QuantKnown(o, c, h1, n)
      {
        assert QuantKnown(o, c, h, n);
      }
    }

    static lemma ScanIsSos(c: Compression)
      requires c.ScanFits()
      ensures SosFits(c)
    {
      forall i | 0 <= i < |c.scan|
        ensures SpecFits(c, c.scan[i])
      {
        assert c.NumbersFit(c.scan[i]) && CompFits(c.comps[c.scan[i]]);
      }
    }

    static lemma ScanShown(c: Compression, h: Header)
      requires c.ScanFits() && SosFits(c) && TablesShown(c, h) && h.restartInterval == c.restartInterval
      ensures ShowsScan(c, WithScan(h, HeaderOf(c)))
    {
      forall i | 0 <= i < |c.scan|
        ensures ShowsTables(c, WithScan(h, HeaderOf(c)), c.scan[i])
      {
        assert HasTables(c, h, c.scan[i]);
        assert c.scan[i] in NosOf(c, c.scan);
      }
    }

    /** The fields that a scan header sets. */
    static ghost predicate ScanOnly(h: Header, h1: Header) {
      && h1 == h.(huff := h1.huff, dcCond := h1.dcCond, acCond := h1.acCond, restartInterval := h1.restartInterval,
                  scan := h1.scan, tblNos := h1.tblNos, ss := h1.ss, se := h1.se, ah := h1.ah, al := h1.al,
                  scanNumber := h1.scanNumber, nextRestart := h1.nextRestart)
      && h1.scanNumber == h.scanNumber + 1 && h1.nextRestart == 0
    }

    /** A reader comes to the scan: the bounds of the conditioning in use are in order, and each component is found
        by its id. */
    static ghost predicate Legible(c: Compression)
      requires c.ScanFits()
    {
      SoundConds(c) && SpecsFit(c, c.scan) && FindsAll(c, Renamed(c.comps))
    }

    /** The bytes of the scan header: the tables or the conditioning, the restart interval if it has changed, and
        the SOS marker. */
    static ghost predicate ScanWrittenNow(c: Compression, was: seq<Byte>, now: seq<Byte>, sent0: set<HuffSlot>,
                                          sent: set<HuffSlot>, last: nat)
      requires c.ScanFits()
    {
      && SosFits(c) && now == was + TablesBytes(c, sent0) + RestartSosBytes(c, last)
      && forall s :: s in sent <==> s in sent0 || (!c.arith && s in HuffsWanted(c, |c.scan|))
    }

    /** The same, unfolded only on demand. */
    static ghost predicate ScanWritten(c: Compression, was: seq<Byte>, now: seq<Byte>, sent0: set<HuffSlot>,
                                       sent: set<HuffSlot>, last: nat)
      requires c.ScanFits()
    {
      forall b {:trigger ScanWrittenNow(c, was, b, sent0, sent, last)} :: b == now ==> ScanWrittenNow(c, was, b, sent0, sent, last)
    }

    /** write_scan_header: the reader comes to the scan, with its components, parameters, tables and restart
        interval; and it stays in step, so that the same holds for the next scan.  Bounds out of order, and ids that
        do not find their components, are written as well: the bounds are an error for the reader. */
    method WriteScanHeader(c: Compression, ghost h: Header) returns (ok: bool, ghost h1: Header)
      requires c.ScanFits() && InStep(c, h) && h.sawSof && h.comps == Renamed(c.comps)
      modifies this`out, this`sentHuff, this`lastRestartInterval
      ensures ok <==> c.arith || forall i :: 0 <= i < |c.scan| ==> Defined(c, c.scan[i])
      ensures ok ==> ScanWritten(c, old(out), out, old(sentHuff), sentHuff, old(lastRestartInterval))
      ensures ok ==> old(out) <= out && lastRestartInterval == c.restartInterval
      ensures ok && Legible(c) ==> WroteSos(hs, o, old(out), out, h, h1) && ShowsScan(c, h1) && InStep(c, h1) && ScanOnly(h, h1)
      ensures ok && !SoundConds(c) ==> WroteBad(hs, o, old(out), out, h)
    {
      ok, h1 := EmitScanTables(c, h);
      if ok {
        ghost var mid := out;
        h1 := EmitRestartSos(c, old(out), h, h1);
        assert ScanWrittenNow(c, old(out), out, old(sentHuff), sentHuff, old(lastRestartInterval));
        if !SoundConds(c) {
          BadStill(hs, o, old(out), mid, out, h);
        }
      }
    }

    /** What follows the tables. */
    method EmitRestartSos(c: Compression, ghost was: seq<Byte>, ghost h0: Header, ghost h: Header) returns (ghost h1: Header)
      requires c.ScanFits() && InStep(c, h) && TablesShown(c, h) && h.sawSof && h.comps == Renamed(c.comps)
      requires SoundConds(c) ==> Wrote(hs, o, was, out, h0, h)
      requires h == h0.(huff := h.huff, dcCond := h.dcCond, acCond := h.acCond)
      modifies this`out, this`lastRestartInterval
      ensures SosFits(c) && out == old(out) + RestartSosBytes(c, old(lastRestartInterval))
      ensures lastRestartInterval == c.restartInterval
      ensures Legible(c) ==> WroteSos(hs, o, was, out, h0, h1) && ShowsScan(c, h1) && InStep(c, h1) && ScanOnly(h0, h1)
    {
      ghost var before := out;
      h1 := EmitRestart(c, SoundConds(c), was, h0, h);
      ghost var mid := out;
      TablesShownStill(c, h, h1);
      h1 := EndScanHeader(c, was, h0, h1);
      Regroup(before, if c.restartInterval != old(lastRestartInterval) then Marker(M_DRI) + DriParams(c.restartInterval) else [],
              Marker(M_SOS) + SosParams(c));
    }

    method EndScanHeader(c: Compression, ghost was: seq<Byte>, ghost h0: Header, ghost h: Header) returns (ghost h1: Header)
      requires c.ScanFits() && InStep(c, h) && TablesShown(c, h) && h.restartInterval == c.restartInterval
      requires h.sawSof && h.comps == Renamed(c.comps) && (SoundConds(c) ==> Wrote(hs, o, was, out, h0, h))
      modifies this`out
      ensures SosFits(c) && out == old(out) + (Marker(M_SOS) + SosParams(c)) && h1 == WithScan(h, HeaderOf(c))
      ensures ShowsScan(c, h1) && InStep(c, h1) && (Legible(c) ==> WroteSos(hs, o, was, out, h0, h1))
    {
      ScanIsSos(c);
      h1 := EmitSos(c, SoundConds(c), was, h0, h);
      ScanShown(c, h);
      StillInStep(c, h, h1);
    }

    static lemma TablesShownStill(c: Compression, h: Header, h1: Header)
      requires c.ScanFits() && TablesShown(c, h) && h1.huff == h.huff && h1.dcCond == h.dcCond && h1.acCond == h.acCond
      ensures TablesShown(c, h1)
    {
      forall i | 0 <= i < |c.scan|
        ensures HasTables(c, h1, c.scan[i])
      {
        assert HasTables(c, h, c.scan[i]);
      }
    }
    // ---------------------------------------------------------------- the rest of the datastream

    /** A marker with data: write_marker_header, and write_marker_byte for each byte. */
    method WriteMarker(code: Byte, data: seq<Byte>, ghost h: Header) returns (ok: bool, ghost h1: Header)
      requires (IsApp(code) || code == M_COM) && h.sawSoi
      modifies this`out
      ensures ok <==> |data| <= 65533
      ensures ok ==> Wrote(hs, o, old(out), out, h, h1) && h1 == WithData(hs, code, data, h)
      ensures ok ==> out == old(out) + (Marker(code) + DataParams(data))
    {
      h1, ok := WithData(hs, code, data, h), |data| <= 65533;
      if ok {
        EmitMarker(code);
        Emit2Bytes(|data| + 2);
        EmitData(data);
        ReadData(old(out), code, data, h);
      }
    }

    method EmitData(data: seq<Byte>)
      modifies this`out
      ensures out == old(out) + data
    {
      for i := 0 to |data|
        invariant out == old(out) + data[..i]
      {
        EmitSmall(data[i]);
        assert data[..i + 1] == data[..i] + [data[i]];
      }
      assert data[..|data|] == data;
    }

    lemma ReadData(was: seq<Byte>, code: Byte, data: seq<Byte>, h: Header)
      requires (IsApp(code) || code == M_COM) && |data| <= 65533 && h.sawSoi
      ensures Wrote(hs, o, was, was + Marker(code) + Bytes2(|data| + 2) + data, h, WithData(hs, code, data, h))
      ensures was + Marker(code) + Bytes2(|data| + 2) + data == was + (Marker(code) + DataParams(data))
    {
      DataCarries(hs, o, code, data, h);
      assert was + Marker(code) + Bytes2(|data| + 2) + data == was + (Marker(code) + DataParams(data));
      WroteBytes(hs, o, was, Marker(code) + DataParams(data), h, WithData(hs, code, data, h));
    }

    /** SOI */
    method WriteSoi(ghost h: Header) returns (ghost h1: Header)
      requires !h.sawSoi
      modifies this`out
      ensures Wrote(hs, o, old(out), out, h, h1) && h1 == AfterSoi(h) && out == old(out) + Marker(M_SOI)
    {
      EmitMarker(M_SOI);
      h1 := AfterSoi(h);
      SoiCarries(hs, o, h);
      WroteBytes(hs, o, old(out), Marker(M_SOI), h, h1);
    }

    /** write_file_header: the reader takes a restart interval of 0 and the standard conditioning from SOI, and keeps
        its tables. */
    method WriteFileHeader(c: Compression, f: FileMarkers, ghost h: Header) returns (ghost h1: Header)
      requires !h.sawSoi && QuantsKnown(o, c, h, sentQuant) && HuffsKnown(c, h, sentHuff)
      modifies this`out, this`lastRestartInterval
      ensures Wrote(hs, o, old(out), out, h, h1) && InStep(c, h1)
      ensures h1 == f.Shown(hs, AfterSoi(h)) && h1 == AfterSoi(h).(saved := h1.saved)
      ensures out == old(out) + Marker(M_SOI) + JfifBytes(f) + AdobeBytes(f) && lastRestartInterval == 0
    {
      h1 := WriteSoi(h);
      lastRestartInterval := 0;
      TablesStill(c, h, h1);
      h1 := WriteJfif(c, f, old(out), h, h1);
      h1 := WriteAdobe(c, f, old(out), h, h1);
    }

    /** The JFIF marker, if it is wanted. */
    method WriteJfif(c: Compression, f: FileMarkers, ghost was: seq<Byte>, ghost h0: Header, ghost h: Header)
      returns (ghost h1: Header)
      requires InStep(c, h) && Wrote(hs, o, was, out, h0, h)
      modifies this`out
      ensures Wrote(hs, o, was, out, h0, h1) && InStep(c, h1)
      ensures h1 == (if f.jfif then WithData(hs, M_APP0, f.JfifData(), h) else h) && h1 == h.(saved := h1.saved)
      ensures out == old(out) + JfifBytes(f)
    {
      h1 := h;
      if f.jfif {
        EmitJfif(f);
        h1 := AppTaken(c, M_APP0, f.JfifData(), was, old(out), out, h0, h);
      }
    }

    method WriteAdobe(c: Compression, f: FileMarkers, ghost was: seq<Byte>, ghost h0: Header, ghost h: Header)
      returns (ghost h1: Header)
      requires InStep(c, h) && Wrote(hs, o, was, out, h0, h)
      modifies this`out
      ensures Wrote(hs, o, was, out, h0, h1) && InStep(c, h1)
      ensures h1 == (if f.adobe then WithData(hs, M_APP14, f.AdobeData(), h) else h) && h1 == h.(saved := h1.saved)
      ensures out == old(out) + AdobeBytes(f)
    {
      h1 := h;
      if f.adobe {
        EmitAdobe(f);
        h1 := AppTaken(c, M_APP14, f.AdobeData(), was, old(out), out, h0, h);
      }
    }

    lemma AppTaken(c: Compression, code: Byte, data: seq<Byte>, was: seq<Byte>, mid: seq<Byte>, now: seq<Byte>, h0: Header,
                   h: Header) returns (h1: Header)
      requires IsApp(code) && |data| <= 65533 && InStep(c, h) && Wrote(hs, o, was, mid, h0, h)
      requires now == mid + (Marker(code) + DataParams(data))
      ensures Wrote(hs, o, was, now, h0, h1) && InStep(c, h1)
      ensures h1 == WithData(hs, code, data, h) && h1 == h.(saved := h1.saved)
    {
      h1 := WithData(hs, code, data, h);
      ReadData(mid, code, data, h);
      WroteMore(hs, o, was, mid, now, h0, h, h1);
      StillInStep(c, h, h1);
    }

    /** emit_jfif_app0 */
    method EmitJfif(f: FileMarkers)
      modifies this`out
      ensures out == old(out) + (Marker(M_APP0) + DataParams(f.JfifData()))
    {
      EmitMarker(M_APP0);
      Emit2Bytes(2 + 4 + 1 + 2 + 1 + 2 + 2 + 1 + 1);
      EmitFive(0x4A, 0x46, 0x49, 0x46, 0);
      EmitByte(f.major);
      EmitByte(f.minor);
      EmitByte(f.unit);
      ghost var start := out;
      Emit2Bytes(f.xDensity);
      Emit2Bytes(f.yDensity);
      EmitByte(0);
      EmitByte(0);
      assert start == old(out) + Marker(M_APP0) + Bytes2(16) + [0x4A, 0x46, 0x49, 0x46, 0, f.major % 256, f.minor % 256, f.unit % 256];
      assert out == start + (Bytes2(f.xDensity) + Bytes2(f.yDensity) + [0, 0]);
      Joined(old(out), Marker(M_APP0), Bytes2(16), [0x4A, 0x46, 0x49, 0x46, 0, f.major % 256, f.minor % 256, f.unit % 256],
             Bytes2(f.xDensity), Bytes2(f.yDensity), [0, 0]);
    }

    lemma Joined(was: seq<Byte>, a: seq<Byte>, b: seq<Byte>, c: seq<Byte>, d: seq<Byte>, e: seq<Byte>, f: seq<Byte>)
      ensures was + a + b + c + (d + e + f) == was + (a + (b + (c + d + e + f + [])))
    {
    }

    method EmitFive(a: Byte, b: Byte, c: Byte, d: Byte, e: Byte)
      modifies this`out
      ensures out == old(out) + [a, b, c, d, e]
    {
      EmitByte(a);
      EmitByte(b);
      EmitByte(c);
      EmitByte(d);
      EmitByte(e);
    }

    /** emit_adobe_app14 */
    method EmitAdobe(f: FileMarkers)
      modifies this`out
      ensures out == old(out) + (Marker(M_APP14) + DataParams(f.AdobeData()))
    {
      EmitMarker(M_APP14);
      Emit2Bytes(2 + 5 + 2 + 2 + 2 + 1);
      EmitFive(0x41, 0x64, 0x6F, 0x62, 0x65);
      ghost var start := out;
      Emit2Bytes(100);
      Emit2Bytes(0);
      Emit2Bytes(0);
      match f.space {
        case YCbCr => EmitByte(1);
        case YCCK => EmitByte(2);
        case OtherSpace => EmitByte(0);
      }
      assert start == old(out) + Marker(M_APP14) + Bytes2(14) + [0x41, 0x64, 0x6F, 0x62, 0x65];
      assert out == start + (Bytes2(100) + Bytes2(0) + (Bytes2(0) + [f.AdobeTransform()]));
      Joined(old(out), Marker(M_APP14), Bytes2(14), [0x41, 0x64, 0x6F, 0x62, 0x65], Bytes2(100), Bytes2(0),
             Bytes2(0) + [f.AdobeTransform()]);
      assert f.AdobeData() == [0x41, 0x64, 0x6F, 0x62, 0x65] + Bytes2(100) + Bytes2(0) + (Bytes2(0) + [f.AdobeTransform()]);
    }

    /** write_file_trailer: the reader comes to the end of the image. */
    method WriteFileTrailer(ghost h: Header)
      requires h.sawSoi
      modifies this`out
      ensures out == old(out) + Marker(M_EOI) && Ends(hs, o, out[|old(out)|..], h)
    {
      EmitMarker(M_EOI);
      assert out[|old(out)|..] == Marker(M_EOI);
      EoiEnds(hs, o, h);
    }

    /** jpeg_gen_optimal_table has made a table: it is to be sent. */
    method ReplaceHuff(c: Compression, s: HuffSlot, t: HuffTbl, ghost h: Header) returns (c1: Compression)
      requires InStep(c, h)
      modifies this`sentHuff
      ensures c1 == c.(huff := c.huff[s := t]) && InStep(c1, h) && s !in sentHuff
    {
      sentHuff := sentHuff - {s};
      c1 := c.(huff := c.huff[s := t]);
      forall n | n in sentQuant && n in c.quant
        ensures QuantKnown(o, c1, h, n)
      {
        SameQuant(o, c, c1, h, n);
      }
    }

    // ---------------------------------------------------------------- an abbreviated datastream

    method OfferQuant(c: Compression, n: nat, ghost was: seq<Byte>, ghost sent0: set<nat>, ghost wanted: seq<nat>,
                      ghost h0: Header, ghost h: Header)
      returns (ghost h1: Header)
      requires c.QuantsFit() && n < NUM_QUANT_TBLS && InStep(c, h) && Wrote(hs, o, was, out, h0, h)
      requires QuantsSent(o, c, was, out, sent0, sentQuant, wanted)
      modifies this`out, this`sentQuant
      ensures InStep(c, h1) && Wrote(hs, o, was, out, h0, h1)
      ensures QuantsSent(o, c, was, out, sent0, sentQuant, wanted + if n in c.quant then [n] else [])
    {
      h1 := h;
      if n in c.quant {
        var ok, prec;
        ok, prec, h1 := EmitNextQuant(c, n, was, sent0, wanted, h0, h);
      } else {
        assert wanted + [] == wanted;
      }
    }

    /** A DQT marker for each table that is defined and has not been sent. */
    method OfferQuants(c: Compression, ghost h: Header) returns (ghost h1: Header)
      requires c.QuantsFit() && InStep(c, h)
      modifies this`out, this`sentQuant
      ensures InStep(c, h1) && Wrote(hs, o, old(out), out, h, h1)
      ensures forall n :: 0 <= n < NUM_QUANT_TBLS && n in c.quant ==> n in sentQuant
      ensures QuantsSent(o, c, old(out), out, old(sentQuant), sentQuant, QuantsDefined(c, NUM_QUANT_TBLS))
    {
      h1 := h;
      WroteNothing(hs, o, out, h);
      NoneSent(o, c, out, sentQuant, sentHuff);
      for i := 0 to NUM_QUANT_TBLS
        invariant InStep(c, h1) && Wrote(hs, o, old(out), out, h, h1)
        invariant QuantsSent(o, c, old(out), out, old(sentQuant), sentQuant, QuantsDefined(c, i))
      {
        h1 := OfferQuant(c, i, old(out), old(sentQuant), QuantsDefined(c, i), h, h1);
      }
      DefinedAreSent(o, c, old(out), out, old(sentQuant), sentQuant, NUM_QUANT_TBLS);
    }

    method OfferHuff(c: Compression, s: HuffSlot, ghost was: seq<Byte>, ghost sent0: set<HuffSlot>, ghost wanted: seq<HuffSlot>,
                     ghost h0: Header, ghost h: Header)
      returns (ghost h1: Header)
      requires c.HuffsFit() && s.i < NUM_HUFF && InStep(c, h) && Wrote(hs, o, was, out, h0, h)
      requires HuffsSent(c, was, out, sent0, sentHuff, wanted)
      modifies this`out, this`sentHuff
      ensures InStep(c, h1) && Wrote(hs, o, was, out, h0, h1)
      ensures HuffsSent(c, was, out, sent0, sentHuff, wanted + if s in c.huff then [s] else [])
    {
      h1 := h;
      if s in c.huff {
        var ok;
        ok, h1 := EmitNextHuff(c, s, was, sent0, wanted, h0, h);
      } else {
        assert wanted + [] == wanted;
      }
    }

    /** A DHT marker for each table that is defined and has not been sent. */
    method OfferHuffs(c: Compression, ghost h: Header) returns (ghost h1: Header)
      requires c.HuffsFit() && InStep(c, h)
      modifies this`out, this`sentHuff
      ensures InStep(c, h1) && Wrote(hs, o, old(out), out, h, h1)
      ensures forall s: HuffSlot :: s.i < NUM_HUFF && s in c.huff ==> s in sentHuff
      ensures HuffsSent(c, old(out), out, old(sentHuff), sentHuff, HuffsDefined(c, NUM_HUFF))
    {
      h1 := h;
      WroteNothing(hs, o, out, h);
      NoneSent(o, c, out, sentQuant, sentHuff);
      for i := 0 to NUM_HUFF
        invariant InStep(c, h1) && Wrote(hs, o, old(out), out, h, h1)
        invariant HuffsSent(c, old(out), out, old(sentHuff), sentHuff, HuffsDefined(c, i))
      {
        h1 := OfferSlots(c, i, old(out), old(sentHuff), h, h1);
      }
      DefinedHuffsAreSent(c, old(out), out, old(sentHuff), sentHuff, NUM_HUFF);
    }

    method OfferSlots(c: Compression, i: nat, ghost was: seq<Byte>, ghost sent0: set<HuffSlot>, ghost h0: Header, ghost h: Header)
      returns (ghost h1: Header)
      requires c.HuffsFit() && i < NUM_HUFF && InStep(c, h) && Wrote(hs, o, was, out, h0, h)
      requires HuffsSent(c, was, out, sent0, sentHuff, HuffsDefined(c, i))
      modifies this`out, this`sentHuff
      ensures InStep(c, h1) && Wrote(hs, o, was, out, h0, h1)
      ensures HuffsSent(c, was, out, sent0, sentHuff, HuffsDefined(c, i + 1))
    {
      ghost var more := HuffsDefined(c, i) + if DcSlot(i) in c.huff then [DcSlot(i)] else [];
      h1 := OfferHuff(c, DcSlot(i), was, sent0, HuffsDefined(c, i), h0, h);
      h1 := OfferHuff(c, AcSlot(i), was, sent0, more, h0, h1);
    }

    /** The tables of an abbreviated datastream, as bytes. */
    static function DefinedBytes(o: NaturalOrders, c: Compression, quants: set<nat>, huffs: set<HuffSlot>): seq<Byte> {
      QuantMarkers(o, c, NewOnes(QuantsDefined(c, NUM_QUANT_TBLS), quants))
      + if c.arith then [] else HuffMarkers(c, NewOnes(HuffsDefined(c, NUM_HUFF), huffs))
    }

    method OfferTables(c: Compression, ghost h: Header) returns (ghost h1: Header)
      requires c.QuantsFit() && c.HuffsFit() && InStep(c, h)
      modifies this`out, this`sentQuant, this`sentHuff
      ensures InStep(c, h1) && Wrote(hs, o, old(out), out, h, h1)
      ensures forall n :: 0 <= n < NUM_QUANT_TBLS && n in c.quant ==> n in sentQuant
      ensures !c.arith ==> forall s: HuffSlot :: s.i < NUM_HUFF && s in c.huff ==> s in sentHuff
      ensures out == old(out) + DefinedBytes(o, c, old(sentQuant), old(sentHuff))
    {
      h1 := OfferQuants(c, h);
      AllQuantsSent(o, c, old(out), out, old(sentQuant), sentQuant, QuantsDefined(c, NUM_QUANT_TBLS));
      ghost var mid, h2 := out, h1;
      if !c.arith {
        h1 := OfferHuffs(c, h1);
        AllHuffsSent(c, mid, out, old(sentHuff), sentHuff, HuffsDefined(c, NUM_HUFF));
        WroteMore(hs, o, old(out), mid, out, h, h2, h1);
        Regroup(old(out), QuantMarkers(o, c, NewOnes(QuantsDefined(c, NUM_QUANT_TBLS), old(sentQuant))),
                HuffMarkers(c, NewOnes(HuffsDefined(c, NUM_HUFF), old(sentHuff))));
      }
    }

    /** write_tables_only: the reader has every table that is defined, and comes to EOI.  What is written is SOI, the
        tables that have not been sent, and EOI. */
    method WriteTablesOnly(c: Compression, ghost h: Header) returns (ghost h1: Header)
      requires c.QuantsFit() && c.HuffsFit() && lastRestartInterval == 0
      requires !h.sawSoi && QuantsKnown(o, c, h, sentQuant) && HuffsKnown(c, h, sentHuff)
      modifies this`out, this`sentQuant, this`sentHuff
      ensures old(out) <= out && Ended(hs, o, out[|old(out)|..], h, h1) && InStep(c, h1)
      ensures forall n :: 0 <= n < NUM_QUANT_TBLS && n in c.quant ==> n in sentQuant
      ensures !c.arith ==> forall s: HuffSlot :: s.i < NUM_HUFF && s in c.huff ==> s in sentHuff
      ensures out == old(out) + Marker(M_SOI) + DefinedBytes(o, c, old(sentQuant), old(sentHuff)) + Marker(M_EOI)
    {
      h1 := WriteSoi(h);
      TablesStill(c, h, h1);
      ghost var soi, h2 := out, h1;
      h1 := OfferTables(c, h1);
      ghost var mid := out;
      WroteMore(hs, o, old(out), soi, mid, h, h2, h1);
      WriteFileTrailer(h1);
      assert out[|old(out)|..] == mid[|old(out)|..] + out[|mid|..];
      EndsOn(hs, o, mid[|old(out)|..], out[|mid|..], h, h1);
    }
  }
}
