/** Runs of ends of band as the decoder sees them (sections G.1.2.2 and G.1.2.3 of ITU-T T.81). */
module HuffmanEobRuns {
  import opened ArithTable
  import opened ArithModel
  import opened ArithBlocks
  import opened PointTransform
  import opened HuffmanCodes
  import opened HuffmanDerived
  import opened BitStrings
  import opened HuffmanItems
  import opened HuffmanRuns

  /** With d ends of band left in the run, the bits stand for the bands bs: first the correction bits
      of d bands, then whatever the encoder sends from a fresh start. */
  ghost predicate AwaitsNow(t: Tables, tbl: HuffNo, bs: seq<BandItems>, d: nat, bits: seq<Bit>, pad: seq<Bit>) {
    && d <= |bs| && Proper(bs) && OnlyTails(bs[..d])
    && HaveCodes(t, Coming(tbl, bs[d..], 0, []))
    && bits == Tails(bs[..d]) + (ItemsBits(t, Coming(tbl, bs[d..], 0, [])) + pad)
  }

  /** The same, unfolded only by the lemmas below. */
  ghost predicate AwaitsBands(t: Tables, tbl: HuffNo, bs: seq<BandItems>, d: nat, bits: seq<Bit>, pad: seq<Bit>) {
    forall p {:trigger AwaitsNow(t, tbl, bs, d, bits, p)} :: p == pad ==> AwaitsNow(t, tbl, bs, d, bits, p)
  }

  lemma BandsStart(t: Tables, tbl: HuffNo, bs: seq<BandItems>, pad: seq<Bit>)
    requires Proper(bs) && HaveCodes(t, Coming(tbl, bs, 0, []))
    ensures AwaitsBands(t, tbl, bs, 0, ItemsBits(t, Coming(tbl, bs, 0, [])) + pad, pad)
  {
    assert bs[..0] == [] && bs[0..] == bs;
    assert [] + (ItemsBits(t, Coming(tbl, bs, 0, [])) + pad) == ItemsBits(t, Coming(tbl, bs, 0, [])) + pad;
    assert AwaitsNow(t, tbl, bs, 0, ItemsBits(t, Coming(tbl, bs, 0, [])) + pad, pad);
  }

  /** After the last band only the padding is left. */
  lemma BandsEnd(t: Tables, tbl: HuffNo, d: nat, bits: seq<Bit>, pad: seq<Bit>)
    requires AwaitsBands(t, tbl, [], d, bits, pad)
    ensures d == 0 && bits == pad
  {
    assert AwaitsNow(t, tbl, [], d, bits, pad);
    assert [] + ([] + pad) == pad;
  }

  /** A band inside a run has only correction bits. */
  lemma InRun(t: Tables, tbl: HuffNo, bs: seq<BandItems>, d: nat, bits: seq<Bit>, pad: seq<Bit>) returns (bits1: seq<Bit>)
    requires AwaitsBands(t, tbl, bs, d, bits, pad) && d > 0
    ensures bs != [] && bs[0].body == [] && bs[0].tail.Some? && bits == bs[0].tail.value + bits1
    ensures AwaitsBands(t, tbl, bs[1..], d - 1, bits1, pad)
  {
    assert AwaitsNow(t, tbl, bs, d, bits, pad);
    assert bs[..d] == [bs[0]] + bs[1..][..d - 1] && bs[1..][d - 1..] == bs[d..];
    assert bs[..d][1..] == bs[1..][..d - 1];
    bits1 := Tails(bs[1..][..d - 1]) + (ItemsBits(t, Coming(tbl, bs[d..], 0, [])) + pad);
    BitsAssoc(bs[0].tail.value, Tails(bs[1..][..d - 1]), ItemsBits(t, Coming(tbl, bs[d..], 0, [])) + pad);
    assert AwaitsNow(t, tbl, bs[1..], d - 1, bits1, pad);
  }

  lemma {:induction false} BitItemsBits(t: Tables, s: seq<Bit>)
    ensures ItemsBits(t, BitItems(s)) == s && HaveCodes(t, BitItems(s))
  {
    if s != [] {
      BitItemsBits(t, s[1..]);
      OneBit(s[0], 1);
      assert ([Extra(s[0], 1)] + BitItems(s[1..]))[1..] == BitItems(s[1..]);
      assert s == [s[0]] + s[1..];
    }
  }

  lemma OneBit(b: Bit, n: nat)
    requires n == 1
    ensures BitsOf(b, n) == [b]
  {
    assert BitsOf(b, n) == BitsOf(b / 2, 0) + [b % 2];
  }

  /** The bits of a run of e ends of band. */
  lemma EobRunBits(t: Tables, tbl: HuffNo, e: nat, be: seq<Bit>, rest: seq<Bit>)
    requires 1 <= e <= 0x7FFF
    ensures Log2(e) <= 14
    ensures ItemsBits(t, EobItems(tbl, e, be)) + rest
         == CodeBits(t.ac[tbl], Log2(e) * 16) + (BitsOf(e, Log2(e)) + (be + rest))
    ensures HaveCodes(t, EobItems(tbl, e, be)) ==> t.ac[tbl].ehufsi[Log2(e) * 16] != 0
  {
    BitItemsBits(t, be);
    PairOfLists(t, EobHead(tbl, e), BitItems(be), rest);
    EobHeadBits(t, tbl, e, be + rest);
  }

  lemma EobHeadBits(t: Tables, tbl: HuffNo, e: nat, more: seq<Bit>)
    requires 1 <= e <= 0x7FFF
    ensures Log2(e) <= 14
    ensures ItemsBits(t, EobHead(tbl, e)) + more == CodeBits(t.ac[tbl], Log2(e) * 16) + (BitsOf(e, Log2(e)) + more)
    ensures HaveCodes(t, EobHead(tbl, e)) ==> t.ac[tbl].ehufsi[Log2(e) * 16] != 0
  {
    var n := Log2(e);
    Powers();
    Log2Bound(e, 15);
    if n == 0 {
      assert [AcSym(tbl, 0)] + [] == [AcSym(tbl, 0)];
      OneItem(t, AcSym(tbl, 0), [], more);
      assert [] + more == more;
    } else {
      DcTwo(t, AcSym(tbl, n * 16), Extra(e, n), more);
    }
  }

  lemma PairOfLists(t: Tables, a: seq<Item>, b: seq<Item>, rest: seq<Bit>)
    ensures ItemsBits(t, a + b) + rest == ItemsBits(t, a) + (ItemsBits(t, b) + rest)
    ensures HaveCodes(t, a + b) <==> HaveCodes(t, a) && HaveCodes(t, b)
  {
    ItemsBitsConcat(t, a, b);
    HaveCodesConcat(t, a, b);
    BitsAssoc(ItemsBits(t, a), ItemsBits(t, b), rest);
  }

  /** An end of band that begins a run of n further bands. */
  lemma RunBegins(t: Tables, tbl: HuffNo, tt: seq<Bit>, bs: seq<BandItems>, pad: seq<Bit>) returns (n: nat, more: seq<Bit>)
    requires Proper(bs) && HaveCodes(t, AfterBand(tbl, Some(tt), bs, 0, []))
    ensures n == JoinedAfter(bs, 1, tt)
    ensures n < 0x7FFF && Log2(n + 1) <= 14 && t.ac[tbl].ehufsi[Log2(n + 1) * 16] != 0
    ensures ItemsBits(t, AfterBand(tbl, Some(tt), bs, 0, [])) + pad
         == CodeBits(t.ac[tbl], Log2(n + 1) * 16) + (BitsOf(n + 1, Log2(n + 1)) + (tt + more))
    ensures AwaitsBands(t, tbl, bs, n, more, pad)
  {
    var full := AfterBand(tbl, Some(tt), bs, 0, []);
    assert [] + tt == tt;
    n := AfterSplits(tbl, tt, bs, 0, [], tt);
    var tails, coming := Tails(bs[..n]), Coming(tbl, bs[n..], 0, []);
    more := tails + (ItemsBits(t, coming) + pad);
    JoinRun(t, tbl, n + 1, tt, tails, coming, pad);
    assert AwaitsNow(t, tbl, bs, n, more, pad);
  }

  lemma JoinRun(t: Tables, tbl: HuffNo, e: nat, tt: seq<Bit>, tails: seq<Bit>, coming: seq<Item>, pad: seq<Bit>)
    requires 1 <= e <= 0x7FFF && HaveCodes(t, EobItems(tbl, e, tt + tails) + coming)
    ensures Log2(e) <= 14 && t.ac[tbl].ehufsi[Log2(e) * 16] != 0 && HaveCodes(t, coming)
    ensures ItemsBits(t, EobItems(tbl, e, tt + tails) + coming) + pad
         == CodeBits(t.ac[tbl], Log2(e) * 16) + (BitsOf(e, Log2(e)) + (tt + (tails + (ItemsBits(t, coming) + pad))))
  {
    PairOfLists(t, EobItems(tbl, e, tt + tails), coming, pad);
    EobRunBits(t, tbl, e, tt + tails, ItemsBits(t, coming) + pad);
    BitsAssoc(tt, tails, ItemsBits(t, coming) + pad);
  }

  lemma NoRunBegins(t: Tables, tbl: HuffNo, bs: seq<BandItems>, pad: seq<Bit>)
    requires Proper(bs) && HaveCodes(t, AfterBand(tbl, None, bs, 0, []))
    ensures AwaitsBands(t, tbl, bs, 0, ItemsBits(t, AfterBand(tbl, None, bs, 0, [])) + pad, pad)
  {
    BandsStart(t, tbl, bs, pad);
  }

  /** What the end-of-band symbol stands for, and what follows it. */
  ghost predicate RunSent(t: Tables, tbl: HuffNo, tail: seq<Bit>, n: nat, rest: seq<Bit>, more: seq<Bit>) {
    && n < 0x7FFF && Log2(n + 1) <= 14 && t.ac[tbl].ehufsi[Log2(n + 1) * 16] != 0
    && rest == CodeBits(t.ac[tbl], Log2(n + 1) * 16) + (BitsOf(n + 1, Log2(n + 1)) + (tail + more))
  }

  /** How many ends of band are left after the first of these bands, when d were left before it. */
  function LeftAfter(bs: seq<BandItems>, d: nat): nat
    requires bs != []
  {
    if d > 0 then d - 1 else if bs[0].tail.None? then 0 else JoinedAfter(bs[1..], 1, bs[0].tail.value)
  }

  /** A band outside a run: its own items; if it has an end of band, that begins a run of n further
      bands. */
  lemma AtBand(t: Tables, tbl: HuffNo, bs: seq<BandItems>, bits: seq<Bit>, pad: seq<Bit>)
    returns (rest: seq<Bit>, n: nat, more: seq<Bit>)
    requires AwaitsBands(t, tbl, bs, 0, bits, pad) && bs != []
    ensures bits == ItemsBits(t, bs[0].body) + rest && HaveCodes(t, bs[0].body)
    ensures match bs[0].tail case None => n == 0 && more == rest case Some(tt) => RunSent(t, tbl, tt, n, rest, more)
    ensures AwaitsBands(t, tbl, bs[1..], n, more, pad) && n == LeftAfter(bs, 0)
  {
    assert AwaitsNow(t, tbl, bs, 0, bits, pad);
    var after := AfterBand(tbl, bs[0].tail, bs[1..], 0, []);
    FreshBand(tbl, bs);
    assert bs[..0] == [] && bs[0..] == bs;
    PairOfLists(t, bs[0].body, after, pad);
    rest := ItemsBits(t, after) + pad;
    assert [] + (ItemsBits(t, bs[0].body) + rest) == ItemsBits(t, bs[0].body) + rest;
    match bs[0].tail {
      case None =>
        n, more := 0, rest;
        NoRunBegins(t, tbl, bs[1..], pad);
      case Some(tt) =>
        n, more := RunBegins(t, tbl, tt, bs[1..], pad);
    }
  }

  lemma FreshBand(tbl: HuffNo, bs: seq<BandItems>)
    requires bs != []
    ensures Coming(tbl, bs, 0, []) == bs[0].body + AfterBand(tbl, bs[0].tail, bs[1..], 0, [])
  {
    var after := AfterBand(tbl, bs[0].tail, bs[1..], 0, []);
    assert [] + bs[0].body == bs[0].body;
    assert [] + after == after;
  }

  // ------------------------------------------------------------------ bands of first scans

  /** A band without items of its own holds only vanishing coefficients. */
  lemma NoBody(tbl: HuffNo, z: ZBlock, al: nat, k: nat, se: Index)
    requires k <= se && FirstItems(tbl, z, al, k, se, 0).body == []
    ensures Vanish(z, al, k, se + 1)
  {
    NextRunFinds(tbl, z, al, k, k, se);
  }

  /** Bands of first scans have no correction bits. */
  lemma {:induction false} NoCorrections(tbl: HuffNo, z: ZBlock, al: nat, k: nat, se: Index, r: nat)
    ensures var tail := FirstItems(tbl, z, al, k, se, r).tail; tail.Some? ==> tail.value == []
    decreases se + 1 - k
  {
    if k <= se {
      NoCorrections(tbl, z, al, k + 1, se, r + 1);
      NoCorrections(tbl, z, al, k + 1, se, 0);
    }
  }

  /** The run length that the extra bits complete. */
  lemma RunExtra(e: nat)
    requires e >= 1
    ensures var n := Log2(e);
            Pow2(n) <= e && e - Pow2(n) < Pow2(n) && BitsOf(e - Pow2(n), n) == BitsOf(e, n) && (n == 0 ==> e == 1)
  {
    var n := Log2(e);
    Log2Bounds(e);
    ModIs(e, Pow2(n), 1, e - Pow2(n));
    BitsOfMod(e, n, n);
  }

  lemma {:induction false} Log2Bounds(e: nat)
    requires e >= 1
    ensures Pow2(Log2(e)) <= e < 2 * Pow2(Log2(e))
  {
    if e / 2 != 0 {
      Log2Bounds(e / 2);
    }
  }

  /** The decoder's task for a band of a first scan outside a run. */
  lemma FirstStarts(t: Tables, tbl: HuffNo, sc: Scan, z: ZBlock, bs: seq<BandItems>, bits: seq<Bit>, pad: seq<Bit>,
                    was: seq<Jcoef>)
    returns (x: Task, n: nat, more: seq<Bit>)
    requires sc.Routine().AcFirst? && |was| == 64 && sc.Injective() && Partly(sc, z, sc.al, was, sc.ss - 1, sc.se)
    requires bs != [] && bs[0] == FirstItems(tbl, z, sc.al, sc.ss, sc.se, 0)
    requires AwaitsBands(t, tbl, bs, 0, bits, pad)
    ensures x.t == t && x.tbl == tbl && x.sc == sc && x.z == z && x.al == sc.al && x.a == sc.ss && x.se == sc.se
    ensures x.was == was && x.eobSym % 16 == 0 && x.eobSym != 0xF0 && DecodedTo(x, sc.ss, bits, was)
    ensures if x.hasEob then n < 0x7FFF && x.eobSym == Log2(n + 1) * 16 && x.eobRest == BitsOf(n + 1, Log2(n + 1)) + more
            else n == 0 && more == x.rest
    ensures AwaitsBands(t, tbl, bs[1..], n, more, pad) && n == LeftAfter(bs, 0)
  {
    var rest;
    rest, n, more := AtBand(t, tbl, bs, bits, pad);
    NoCorrections(tbl, z, sc.al, sc.ss, sc.se, 0);
    x := FirstTask(t, tbl, sc, z, bs[0], bits, was, rest, n, more);
  }

  lemma FirstTask(t: Tables, tbl: HuffNo, sc: Scan, z: ZBlock, b: BandItems, bits: seq<Bit>, was: seq<Jcoef>,
                  rest: seq<Bit>, n: nat, more: seq<Bit>) returns (x: Task)
    requires sc.Routine().AcFirst? && |was| == 64 && sc.Injective() && Partly(sc, z, sc.al, was, sc.ss - 1, sc.se)
    requires b == FirstItems(tbl, z, sc.al, sc.ss, sc.se, 0) && bits == ItemsBits(t, b.body) + rest && HaveCodes(t, b.body)
    requires match b.tail case None => n == 0 && more == rest case Some(tt) => tt == [] && RunSent(t, tbl, tt, n, rest, more)
    ensures x.t == t && x.tbl == tbl && x.sc == sc && x.z == z && x.al == sc.al && x.a == sc.ss && x.se == sc.se
    ensures x.was == was && x.eobSym % 16 == 0 && x.eobSym != 0xF0 && DecodedTo(x, sc.ss, bits, was)
    ensures if x.hasEob then n < 0x7FFF && x.eobSym == Log2(n + 1) * 16 && x.eobRest == BitsOf(n + 1, Log2(n + 1)) + more
            else n == 0 && more == x.rest
  {
    var some := b.tail.Some?;
    assert some ==> [] + more == more;
    x := BandTask(t, tbl, sc, z, sc.al, sc.ss, sc.se, was, rest, some, if some then Log2(n + 1) * 16 else 0,
                  if some then BitsOf(n + 1, Log2(n + 1)) + more else []);
    BandStarts(x);
  }
}
