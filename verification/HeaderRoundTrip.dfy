/** Headers that are written and then read, however their bytes arrive. */
module HeaderRoundTrip {
  import opened ArithTable
  import opened Segments
  import opened MarkerParsing
  import opened MarkerSegments
  import opened MarkerReaderObject
  import opened MarkerWriterObject

  /** The reader comes to the first scan, in one step, or in two if there is a pseudo SOS marker before it. */
  ghost predicate Announced(w: MarkerWriter, c: Compression, mid: seq<Byte>, h1: Header, h: Header)
    requires c.FrameFits() && c.ScanFits()
    reads w
  {
    && ShowsFrame(w.o, c, h) && ShowsScan(c, h) && w.InStep(c, h)
    && if MarkerWriter.HasPseudoSos(c) then
         WroteSos(w.hs, w.o, [], mid, FRESH, h1) && MarkerWriter.AtPseudoSos(c, h1) && WroteSos(w.hs, w.o, mid, w.out, h1, h)
       else WroteSos(w.hs, w.o, [], w.out, FRESH, h)
  }

  /** The reader comes to an error, perhaps behind a pseudo SOS marker. */
  ghost predicate Rejected(w: MarkerWriter, c: Compression, mid: seq<Byte>, h1: Header)
    reads w
  {
    if MarkerWriter.LseLegible(c) && MarkerWriter.HasPseudoSos(c) then
      WroteSos(w.hs, w.o, [], mid, FRESH, h1) && WroteBad(w.hs, w.o, mid, w.out, h1)
    else WroteBad(w.hs, w.o, [], w.out, FRESH)
  }

  predicate CanWriteHeaders(c: Compression)
    requires c.ScanFits()
  {
    MarkerWriter.CanWriteFrame(c) && (c.arith || forall i :: 0 <= i < |c.scan| ==> MarkerWriter.Defined(c, c.scan[i]))
  }

  /** What a reader needs beyond that: a color transform, and a scan, with ids that it finds, and conditioning with
      its bounds in order. */
  ghost predicate Readable(c: Compression)
    requires c.ScanFits()
  {
    MarkerWriter.LseLegible(c) && MarkerWriter.Legible(c)
  }

  /** It is enough that the ids are distinct and the bounds in order. */
  lemma DistinctIsReadable(c: Compression)
    requires c.ScanFits() && DistinctIds(Ids(c.comps)) && MarkerWriter.SoundConds(c)
    ensures Readable(c) && Renamed(c.comps) == c.comps
  {
    RenamedIs(c.comps);
    MarkerWriter.ScanIsSos(c);
    DistinctAreFound(c);
  }

  ghost predicate Unreadable(c: Compression)
    requires c.ScanFits()
  {
    !MarkerWriter.LseLegible(c) || !MarkerWriter.SoundConds(c)
  }

  /** The headers of an image up to its first scan, as jpeg_start_compress and the first pass have them written. */
  method WriteHeaders(w: MarkerWriter, c: Compression, f: FileMarkers)
    returns (ok: bool, ghost mid: seq<Byte>, ghost h1: Header, ghost h: Header)
    requires w.out == [] && w.sentQuant == {} && w.sentHuff == {} && c.FrameFits() && c.ScanFits()
    modifies w
    ensures ok <==> CanWriteHeaders(c)
    ensures ok && Readable(c) ==> Announced(w, c, mid, h1, h)
    ensures ok && Unreadable(c) ==> Rejected(w, c, mid, h1)
  {
    ghost var h0 := w.WriteFileHeader(c, f, FRESH);
    ghost var start := w.out;
    ok, h1 := w.WriteFrameHeader(c, h0);
    mid, h := w.out, h1;
    if ok {
      ok, h := w.WriteScanHeader(c, h1);
      if ok && Readable(c) {
        FrameStill(w.o, c, h1, h);
        Joined(w, c, start, mid, h0, h1, h);
      } else if ok && Unreadable(c) {
        JoinedBad(w, c, start, mid, h0, h1);
      }
    }
  }

  lemma Joined(w: MarkerWriter, c: Compression, start: seq<Byte>, mid: seq<Byte>, h0: Header, h1: Header, h: Header)
    requires Wrote(w.hs, w.o, [], start, FRESH, h0) && WroteSos(w.hs, w.o, mid, w.out, h1, h)
    requires if MarkerWriter.HasPseudoSos(c) then WroteSos(w.hs, w.o, start, mid, h0, h1) else Wrote(w.hs, w.o, start, mid, h0, h1)
    ensures if MarkerWriter.HasPseudoSos(c) then WroteSos(w.hs, w.o, [], mid, FRESH, h1)
            else WroteSos(w.hs, w.o, [], w.out, FRESH, h)
  {
    if MarkerWriter.HasPseudoSos(c) {
      assert start + mid[|start|..] == mid;
      WroteToSos(w.hs, w.o, [], start, mid[|start|..], FRESH, h0, h1);
    } else {
      WroteMore(w.hs, w.o, [], start, mid, FRESH, h0, h1);
      assert mid + w.out[|mid|..] == w.out;
      WroteToSos(w.hs, w.o, [], mid, w.out[|mid|..], FRESH, h1, h);
    }
  }

  lemma JoinedBad(w: MarkerWriter, c: Compression, start: seq<Byte>, mid: seq<Byte>, h0: Header, h1: Header)
    requires Wrote(w.hs, w.o, [], start, FRESH, h0) && mid <= w.out
    requires if !MarkerWriter.LseLegible(c) then WroteBad(w.hs, w.o, start, mid, h0)
             else WroteBad(w.hs, w.o, mid, w.out, h1)
                  && if MarkerWriter.HasPseudoSos(c) then WroteSos(w.hs, w.o, start, mid, h0, h1)
                     else Wrote(w.hs, w.o, start, mid, h0, h1)
    ensures Rejected(w, c, mid, h1)
  {
    if !MarkerWriter.LseLegible(c) {
      BadLater(w.hs, w.o, [], start, mid, FRESH, h0);
      BadStill(w.hs, w.o, [], mid, w.out, FRESH);
    } else if MarkerWriter.HasPseudoSos(c) {
      assert start + mid[|start|..] == mid;
      WroteToSos(w.hs, w.o, [], start, mid[|start|..], FRESH, h0, h1);
    } else {
      WroteMore(w.hs, w.o, [], start, mid, FRESH, h0, h1);
      BadLater(w.hs, w.o, [], mid, w.out, FRESH, h1);
    }
  }

  lemma FrameStill(o: NaturalOrders, c: Compression, h: Header, h1: Header)
    requires c.FrameFits() && ShowsFrame(o, c, h) && MarkerWriter.ScanOnly(h, h1)
    ensures ShowsFrame(o, c, h1)
  {
    forall i | 0 <= i < |c.comps|
      ensures QuantKnown(o, c, h1, c.comps[i].tq)
    {
      assert QuantKnown(o, c, h, c.comps[i].tq);
    }
  }

  lemma StopsHere(hs: Handlers, o: NaturalOrders, raw: seq<Byte>, was: seq<Byte>, now: seq<Byte>, h: Header, h1: Header)
    requires WroteSos(hs, o, was, now, h, h1) && now <= raw
    ensures Fate(hs, o, raw, |was|, 0, h, NoMarker) == Outcome.ReachesSos(|now|, h1)
  {
    assert now == was + now[|was|..];
    assert At(raw, |was|, now[|was|..]);
    assert StopsAt(hs, o, now[|was|..], h, h1, raw, |was|);
  }

  lemma BreaksHere(hs: Handlers, o: NaturalOrders, raw: seq<Byte>, was: seq<Byte>, now: seq<Byte>, h: Header)
    requires WroteBad(hs, o, was, now, h) && now <= raw
    ensures Fate(hs, o, raw, |was|, 0, h, NoMarker) == Fails
  {
    assert now == was + now[|was|..];
    assert At(raw, |was|, now[|was|..]);
    assert BreaksAt(hs, o, now[|was|..], h, raw, |was|);
  }

  /** A reader comes to f; if `pseudo`, behind a SOS marker that ends at mid. */
  ghost predicate ComesTo(hs: Handlers, o: NaturalOrders, raw: seq<Byte>, pseudo: bool, mid: nat, h1: Header, f: Outcome) {
    var first := Fate(hs, o, raw, 0, 0, FRESH, NoMarker);
    if pseudo then first == Outcome.ReachesSos(mid, h1) && Fate(hs, o, raw, mid, 0, h1, NoMarker) == f
    else first == f
  }

  /** What a reader of the headers, with anything after them, comes to. */
  lemma Awaited(w: MarkerWriter, c: Compression, raw: seq<Byte>, mid: seq<Byte>, h1: Header, h: Header)
    requires c.FrameFits() && c.ScanFits() && Announced(w, c, mid, h1, h) && w.out <= raw
    ensures ComesTo(w.hs, w.o, raw, MarkerWriter.HasPseudoSos(c), |mid|, h1, Outcome.ReachesSos(|w.out|, h))
    ensures MarkerWriter.HasPseudoSos(c) ==> |mid| <= |w.out|
  {
    if MarkerWriter.HasPseudoSos(c) {
      StopsHere(w.hs, w.o, raw, [], mid, FRESH, h1);
      StopsHere(w.hs, w.o, raw, mid, w.out, h1, h);
    } else {
      StopsHere(w.hs, w.o, raw, [], w.out, FRESH, h);
    }
  }

  lemma AwaitedBad(w: MarkerWriter, c: Compression, raw: seq<Byte>, mid: seq<Byte>, h1: Header)
    requires Rejected(w, c, mid, h1) && w.out <= raw
    ensures ComesTo(w.hs, w.o, raw, MarkerWriter.LseLegible(c) && MarkerWriter.HasPseudoSos(c), |mid|, h1, Fails)
  {
    if MarkerWriter.LseLegible(c) && MarkerWriter.HasPseudoSos(c) {
      StopsHere(w.hs, w.o, raw, [], mid, FRESH, h1);
      BreaksHere(w.hs, w.o, raw, mid, w.out, h1);
    } else {
      BreaksHere(w.hs, w.o, raw, [], w.out, FRESH);
    }
  }

  /** A reader that may come to a pseudo SOS marker first, and then goes on. */
  method ReadBack(raw: seq<Byte>, hs: Handlers, o: NaturalOrders, arrivals: seq<nat>, pseudo: bool, ghost sure: bool,
                  ghost mid: nat, ghost h1: Header, ghost f: Outcome) returns (r: Reached, reader: MarkerReader)
    requires sure ==> ComesTo(hs, o, raw, pseudo, mid, h1, f)
    requires if f.ReachesSos? then mid <= f.next <= |raw| else f.Fails?
    ensures fresh(reader) && reader.raw == raw
    ensures sure ==> match r
                     case ReachedSos => f == Outcome.ReachesSos(reader.pos, reader.h)
                     case NeedInput => Arrived(arrivals) < |raw| && (f.ReachesSos? ==> Arrived(arrivals) < f.next)
                     case ReachedEoi => false
                     case ErrorExit => f.Fails?
  {
    r, reader := ReadArriving(raw, hs, o, arrivals);
    if pseudo && r.ReachedSos? {
      r := ReadOn(reader, []);
    }
  }

  /** The headers are written, something follows them, and a reader gets the bytes in any portions.  Main result: it
      comes to the first scan, right behind the headers, knowing the frame and the scan; unless not all bytes of the
      headers have arrived.  Headers that are written although no reader can take them end in an error. */
  method Announce(hs: Handlers, o: NaturalOrders, c: Compression, f: FileMarkers, rest: seq<Byte>,
                  arrivals: seq<nat>) returns (ok: bool, r: Reached, reader: MarkerReader)
    requires c.FrameFits() && c.ScanFits()
    ensures ok <==> CanWriteHeaders(c)
    ensures ok && Readable(c) ==>
              match r
              case ReachedSos => ShowsFrame(o, c, reader.h) && ShowsScan(c, reader.h)
                                 && reader.pos <= |reader.raw| && reader.raw[reader.pos..] == rest
              case NeedInput => Arrived(arrivals) + |rest| < |reader.raw|
              case ReachedEoi => false
              case ErrorExit => false
    ensures ok && Unreadable(c) ==> r.ErrorExit? || (r.NeedInput? && Arrived(arrivals) < |reader.raw|)
  {
    var w := new MarkerWriter(o, hs, {}, {});
    ghost var mid, h1, h;
    ok, mid, h1, h := WriteHeaders(w, c, f);
    var raw := w.out + rest;
    var pseudo := MarkerWriter.LseLegible(c) && MarkerWriter.HasPseudoSos(c);
    ghost var come, sure, end := Fails, ok && (Readable(c) || Unreadable(c)), 0;
    if ok && Readable(c) {
      Awaited(w, c, raw, mid, h1, h);
      come, end := Outcome.ReachesSos(|w.out|, h), if pseudo then |mid| else 0;
    } else if ok && Unreadable(c) {
      AwaitedBad(w, c, raw, mid, h1);
      end := |mid|;
    }
    assert raw[|w.out|..] == rest;
    r, reader := ReadBack(raw, hs, o, arrivals, pseudo, sure, end, h1, come);
  }
}
