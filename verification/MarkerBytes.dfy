/** The headers that the compressor writes, byte for byte (jcmarker.c): each marker in its place, and each
    table once. */
module MarkerBytes {
  import opened ArithTable
  import opened HuffmanCodes
  import opened Segments
  import opened MarkerParsing
  import opened MarkerSegments

  /** What is wanted and has not been sent, each once, in the order in which it is first wanted. */
  function NewOnes<T(==, !new)>(wanted: seq<T>, sent: set<T>): (r: seq<T>)
    ensures forall x :: x in r <==> x in wanted && x !in sent
    ensures forall i, j :: 0 <= i < j < |r| ==> r[i] != r[j]
  {
    if wanted == [] then [] else
      var n := |wanted| - 1;
      var r := NewOnes(wanted[..n], sent);
      assert wanted == wanted[..n] + [wanted[n]];
      if wanted[n] in sent || wanted[n] in r then r else r + [wanted[n]]
  }

  lemma OneMoreWanted<T(!new)>(wanted: seq<T>, x: T, sent: set<T>)
    ensures NewOnes(wanted + [x], sent)
         == NewOnes(wanted, sent) + if x in sent || x in wanted then [] else [x]
  {
    assert (wanted + [x])[..|wanted|] == wanted;
  }

  // ------------------------------------------------------------------ DQT and DHT

  /** The DQT marker of a table, in which the precision is that which its entries need. */
  function QuantMarker(o: NaturalOrders, c: Compression, n: nat): seq<Byte> {
    if 1 <= c.blockSize && n < NUM_QUANT_TBLS && n in c.quant && |c.quant[n]| == 64 then
      Marker(M_DQT) + DqtParams(n + (if c.Wide(o, n) then 16 else 0), c.Zigzag(o, c.quant[n]))
    else []
  }

  lemma QuantMarkerIs(o: NaturalOrders, c: Compression, n: nat, prec: nat)
    requires 1 <= c.blockSize && n < NUM_QUANT_TBLS && n in c.quant && |c.quant[n]| == 64
    requires prec == if c.Wide(o, n) then 1 else 0
    ensures QuantMarker(o, c, n) == Marker(M_DQT) + DqtParams(n + prec * 16, c.Zigzag(o, c.quant[n]))
  {
  }

  function QuantMarkers(o: NaturalOrders, c: Compression, ns: seq<nat>): seq<Byte> {
    if ns == [] then [] else QuantMarkers(o, c, ns[..|ns| - 1]) + QuantMarker(o, c, ns[|ns| - 1])
  }

  /** The DHT marker of a table. */
  function HuffMarker(c: Compression, s: HuffSlot): seq<Byte> {
    if s.i < NUM_HUFF && s in c.huff && Count(c.huff[s]) <= 256 then Marker(M_DHT) + DhtParams(s, c.huff[s]) else []
  }

  function HuffMarkers(c: Compression, ss: seq<HuffSlot>): seq<Byte> {
    if ss == [] then [] else HuffMarkers(c, ss[..|ss| - 1]) + HuffMarker(c, ss[|ss| - 1])
  }

  /** The quantization tables of the first k components. */
  function QuantsWanted(comps: seq<CompInfo>, k: nat): seq<nat>
    requires k <= |comps|
  {
    if k == 0 then [] else QuantsWanted(comps, k - 1) + [comps[k - 1].tq]
  }

  /** The Huffman tables that a component needs in the current scan. */
  function HuffsOf(c: Compression, k: nat): seq<HuffSlot>
    requires k < |c.tblNos|
  {
    (if c.NeedsDc() then [DcSlot(c.tblNos[k].0)] else []) + if c.NeedsAc() then [AcSlot(c.tblNos[k].1)] else []
  }

  /** Those of the first n components of the scan. */
  function HuffsWanted(c: Compression, n: nat): seq<HuffSlot>
    requires n <= |c.scan| && forall i :: 0 <= i < |c.scan| ==> c.scan[i] < |c.tblNos|
  {
    if n == 0 then [] else HuffsWanted(c, n - 1) + HuffsOf(c, c.scan[n - 1])
  }

  /** All tables below n that are defined. */
  function QuantsDefined(c: Compression, n: nat): seq<nat> {
    if n == 0 then [] else QuantsDefined(c, n - 1) + if n - 1 in c.quant then [n - 1] else []
  }

  function HuffsDefined(c: Compression, n: nat): seq<HuffSlot> {
    if n == 0 then [] else
      HuffsDefined(c, n - 1)
      + (if DcSlot(n - 1) in c.huff then [DcSlot(n - 1)] else []) + if AcSlot(n - 1) in c.huff then [AcSlot(n - 1)] else []
  }

  /** From `was` to `now` the wanted tables have been written that had not been sent, and they are all sent now. */
  ghost predicate QuantsSentNow(o: NaturalOrders, c: Compression, was: seq<Byte>, now: seq<Byte>, sent0: set<nat>,
                                sent: set<nat>, wanted: seq<nat>)
  {
    now == was + QuantMarkers(o, c, NewOnes(wanted, sent0)) && forall n :: n in sent <==> n in sent0 || n in wanted
  }

  ghost predicate HuffsSentNow(c: Compression, was: seq<Byte>, now: seq<Byte>, sent0: set<HuffSlot>, sent: set<HuffSlot>,
                               wanted: seq<HuffSlot>)
  {
    now == was + HuffMarkers(c, NewOnes(wanted, sent0)) && forall s :: s in sent <==> s in sent0 || s in wanted
  }

  /** The same, unfolded only by the lemmas below. */
  ghost predicate QuantsSent(o: NaturalOrders, c: Compression, was: seq<Byte>, now: seq<Byte>, sent0: set<nat>,
                             sent: set<nat>, wanted: seq<nat>)
  {
    forall w {:trigger QuantsSentNow(o, c, was, now, sent0, sent, w)} ::
      w == wanted ==> QuantsSentNow(o, c, was, now, sent0, sent, w)
  }

  ghost predicate HuffsSent(c: Compression, was: seq<Byte>, now: seq<Byte>, sent0: set<HuffSlot>, sent: set<HuffSlot>,
                            wanted: seq<HuffSlot>)
  {
    forall w {:trigger HuffsSentNow(c, was, now, sent0, sent, w)} ::
      w == wanted ==> HuffsSentNow(c, was, now, sent0, sent, w)
  }

  lemma AllQuantsSent(o: NaturalOrders, c: Compression, was: seq<Byte>, now: seq<Byte>, sent0: set<nat>, sent: set<nat>,
                      wanted: seq<nat>)
    requires QuantsSent(o, c, was, now, sent0, sent, wanted)
    ensures now == was + QuantMarkers(o, c, NewOnes(wanted, sent0))
    ensures forall n :: n in sent <==> n in sent0 || n in wanted
  {
    assert QuantsSentNow(o, c, was, now, sent0, sent, wanted);
  }

  lemma AllHuffsSent(c: Compression, was: seq<Byte>, now: seq<Byte>, sent0: set<HuffSlot>, sent: set<HuffSlot>,
                     wanted: seq<HuffSlot>)
    requires HuffsSent(c, was, now, sent0, sent, wanted)
    ensures now == was + HuffMarkers(c, NewOnes(wanted, sent0))
    ensures forall s :: s in sent <==> s in sent0 || s in wanted
  {
    assert HuffsSentNow(c, was, now, sent0, sent, wanted);
  }

  /** After that, the tables of the components have been sent ... */
  lemma {:induction false} WantedQuant(comps: seq<CompInfo>, k: nat, i: nat)
    requires i < k <= |comps|
    ensures comps[i].tq in QuantsWanted(comps, k)
    decreases k
  {
    if i < k - 1 {
      WantedQuant(comps, k - 1, i);
    }
  }

  lemma {:induction false} WantedHuffs(c: Compression, n: nat, i: nat)
    requires i < n <= |c.scan| && forall j :: 0 <= j < |c.scan| ==> c.scan[j] < |c.tblNos|
    ensures forall s :: s in HuffsOf(c, c.scan[i]) ==> s in HuffsWanted(c, n)
    decreases n
  {
    if i < n - 1 {
      WantedHuffs(c, n - 1, i);
    }
  }

  /** ... or all that are defined. */
  lemma {:induction false} DefinedQuant(c: Compression, k: nat, n: nat)
    ensures n in QuantsDefined(c, k) <==> n < k && n in c.quant
    decreases k
  {
    if k != 0 {
      DefinedQuant(c, k - 1, n);
    }
  }

  lemma {:induction false} DefinedHuff(c: Compression, k: nat, s: HuffSlot)
    ensures s in HuffsDefined(c, k) <==> s.i < k && s in c.huff
    decreases k
  {
    if k != 0 {
      DefinedHuff(c, k - 1, s);
      assert s.i == k - 1 ==> s == DcSlot(k - 1) || s == AcSlot(k - 1);
    }
  }

  lemma WantedAreSent(o: NaturalOrders, c: Compression, was: seq<Byte>, now: seq<Byte>, sent0: set<nat>, sent: set<nat>)
    requires QuantsSent(o, c, was, now, sent0, sent, QuantsWanted(c.comps, |c.comps|))
    ensures forall i :: 0 <= i < |c.comps| ==> c.comps[i].tq in sent
  {
    AllQuantsSent(o, c, was, now, sent0, sent, QuantsWanted(c.comps, |c.comps|));
    forall i | 0 <= i < |c.comps|
      ensures c.comps[i].tq in sent
    {
      WantedQuant(c.comps, |c.comps|, i);
    }
  }

  lemma DefinedAreSent(o: NaturalOrders, c: Compression, was: seq<Byte>, now: seq<Byte>, sent0: set<nat>, sent: set<nat>,
                       k: nat)
    requires QuantsSent(o, c, was, now, sent0, sent, QuantsDefined(c, k))
    ensures forall n :: 0 <= n < k && n in c.quant ==> n in sent
  {
    AllQuantsSent(o, c, was, now, sent0, sent, QuantsDefined(c, k));
    forall n | 0 <= n < k && n in c.quant
      ensures n in sent
    {
      DefinedQuant(c, k, n);
    }
  }

  lemma ScanHuffsAreSent(c: Compression, was: seq<Byte>, now: seq<Byte>, sent0: set<HuffSlot>, sent: set<HuffSlot>)
    requires forall i :: 0 <= i < |c.scan| ==> c.scan[i] < |c.tblNos|
    requires HuffsSent(c, was, now, sent0, sent, HuffsWanted(c, |c.scan|))
    ensures forall i :: 0 <= i < |c.scan| ==>
              (c.NeedsDc() ==> DcSlot(c.tblNos[c.scan[i]].0) in sent) && (c.NeedsAc() ==> AcSlot(c.tblNos[c.scan[i]].1) in sent)
  {
    AllHuffsSent(c, was, now, sent0, sent, HuffsWanted(c, |c.scan|));
    forall i | 0 <= i < |c.scan|
      ensures forall s :: s in HuffsOf(c, c.scan[i]) ==> s in sent
    {
      WantedHuffs(c, |c.scan|, i);
    }
  }

  lemma DefinedHuffsAreSent(c: Compression, was: seq<Byte>, now: seq<Byte>, sent0: set<HuffSlot>, sent: set<HuffSlot>, k: nat)
    requires HuffsSent(c, was, now, sent0, sent, HuffsDefined(c, k))
    ensures forall s: HuffSlot :: s.i < k && s in c.huff ==> s in sent
  {
    AllHuffsSent(c, was, now, sent0, sent, HuffsDefined(c, k));
    forall s: HuffSlot | s.i < k && s in c.huff
      ensures s in sent
    {
      DefinedHuff(c, k, s);
    }
  }

  lemma NoneSent(o: NaturalOrders, c: Compression, out: seq<Byte>, quants: set<nat>, huffs: set<HuffSlot>)
    ensures QuantsSent(o, c, out, out, quants, quants, []) && HuffsSent(c, out, out, huffs, huffs, [])
  {
    assert out + [] == out;
    assert QuantsSentNow(o, c, out, out, quants, quants, []) && HuffsSentNow(c, out, out, huffs, huffs, []);
  }

  /** One table more: a marker, or nothing if it has been sent before. */
  lemma QuantSent(o: NaturalOrders, c: Compression, was: seq<Byte>, mid: seq<Byte>, now: seq<Byte>, sent0: set<nat>,
                  sent1: set<nat>, sent: set<nat>, wanted: seq<nat>, n: nat)
    requires QuantsSent(o, c, was, mid, sent0, sent1, wanted)
    requires now == mid + (if n in sent1 then [] else QuantMarker(o, c, n)) && sent == sent1 + {n}
    ensures QuantsSent(o, c, was, now, sent0, sent, wanted + [n])
  {
    AllQuantsSent(o, c, was, mid, sent0, sent1, wanted);
    OneMoreWanted(wanted, n, sent0);
    var ns := NewOnes(wanted, sent0);
    if n !in sent1 {
      assert (ns + [n])[..|ns|] == ns;
      Regroup(was, QuantMarkers(o, c, ns), QuantMarker(o, c, n));
    }
    assert QuantsSentNow(o, c, was, now, sent0, sent, wanted + [n]);
  }

  lemma HuffSent(c: Compression, was: seq<Byte>, mid: seq<Byte>, now: seq<Byte>, sent0: set<HuffSlot>,
                 sent1: set<HuffSlot>, sent: set<HuffSlot>, wanted: seq<HuffSlot>, s: HuffSlot)
    requires HuffsSent(c, was, mid, sent0, sent1, wanted)
    requires now == mid + (if s in sent1 then [] else HuffMarker(c, s)) && sent == sent1 + {s}
    ensures HuffsSent(c, was, now, sent0, sent, wanted + [s])
  {
    AllHuffsSent(c, was, mid, sent0, sent1, wanted);
    OneMoreWanted(wanted, s, sent0);
    var ss := NewOnes(wanted, sent0);
    if s !in sent1 {
      assert (ss + [s])[..|ss|] == ss;
      Regroup(was, HuffMarkers(c, ss), HuffMarker(c, s));
    }
    assert HuffsSentNow(c, was, now, sent0, sent, wanted + [s]);
  }

  lemma Regroup(a: seq<Byte>, b: seq<Byte>, c: seq<Byte>)
    ensures (a + b) + c == a + (b + c)
  {
  }

  // ------------------------------------------------------------------ whole headers

  /** The markers that a file header can have behind SOI. */
  function JfifBytes(f: FileMarkers): seq<Byte> {
    if f.jfif then Marker(M_APP0) + DataParams(f.JfifData()) else []
  }

  function AdobeBytes(f: FileMarkers): seq<Byte> {
    if f.adobe then Marker(M_APP14) + DataParams(f.AdobeData()) else []
  }

  /** SOF with this code. */
  ghost function SofBytes(c: Compression, code: Byte): seq<Byte>
    requires c.FrameFits()
  {
    Marker(code) + SofParams(Frame(c.precision, c.height, c.width, c.comps))
  }

  /** LSE, if there is a color transform. */
  ghost function LseBytes(c: Compression): seq<Byte>
    requires c.FrameFits() && (c.transform.NoTransform? || |c.comps| >= 3)
  {
    if c.transform.NoTransform? then [] else Marker(M_JPG8) + ValueBytes(LseValues(c.comps), 16)
  }

  /** DAC for the conditioning in use, or DHT for each table that is needed and has not been sent. */
  ghost function TablesBytes(c: Compression, sent: set<HuffSlot>): seq<Byte>
    requires c.ScanFits()
  {
    if c.arith then DacMarker(c) else HuffMarkers(c, NewOnes(HuffsWanted(c, |c.scan|), sent))
  }

  /** DRI, if the restart interval is not the last one that was written; then SOS. */
  ghost function RestartSosBytes(c: Compression, last: nat): seq<Byte>
    requires c.ScanFits() && SosFits(c)
  {
    (if c.restartInterval != last then Marker(M_DRI) + DriParams(c.restartInterval) else []) + (Marker(M_SOS) + SosParams(c))
  }
}
