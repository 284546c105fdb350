/** The decoder's view of a refinement scan (section G.1.2.3 of ITU-T T.81): which symbol comes next,
    how far it reaches, and which correction bits come with it. */
module HuffmanRefine {
  import opened ArithTable
  import opened ArithModel
  import opened ArithBlocks
  import opened PointTransform
  import opened HuffmanDerived
  import opened HuffmanItems
  import opened HuffmanRuns
  import opened HuffmanEobRuns

  /** The magnitude of coefficient i after the point transform. */
  function Mag(z: ZBlock, al: nat, i: nat): nat
    requires i < 64
  {
    Abs(Trunc(z[i], al))
  }

  /** Where a run of m zeros that begins at k stops: at the next coefficient without history. */
  function Stop(z: ZBlock, al: nat, k: nat, se: Index, m: nat): (j: nat)
    ensures k <= j <= if k <= se then se + 1 else k
    ensures k <= j <= se ==> Mag(z, al, j) <= 1
    decreases se + 1 - k
  {
    if k > se then k
    else if Mag(z, al, k) > 1 then Stop(z, al, k + 1, se, m)
    else if m == 0 then k
    else Stop(z, al, k + 1, se, m - 1)
  }

  /** The correction bits on the way. */
  function Corrections(z: ZBlock, al: nat, k: nat, se: Index, m: nat): seq<Bit>
    decreases se + 1 - k
  {
    if k > se then []
    else if Mag(z, al, k) > 1 then [Mag(z, al, k) % 2] + Corrections(z, al, k + 1, se, m)
    else if m == 0 then []
    else Corrections(z, al, k + 1, se, m - 1)
  }

  /** All correction bits from k on. */
  function AllCorrections(z: ZBlock, al: nat, k: nat, se: Index): seq<Bit>
    decreases se + 1 - k
  {
    if k > se then []
    else (if Mag(z, al, k) > 1 then [Mag(z, al, k) % 2] else []) + AllCorrections(z, al, k + 1, se)
  }

  /** The encoder has come from k to i, over r zeros and the correction bits br. */
  ghost predicate CameTo(z: ZBlock, al: nat, k: nat, i: nat, se: Index, r: nat, br: seq<Bit>) {
    && (forall m: nat {:trigger Stop(z, al, k, se, m)} :: m >= r ==> Stop(z, al, k, se, m) == Stop(z, al, i, se, m - r))
    && (forall m: nat {:trigger Corrections(z, al, k, se, m)} :: m >= r ==>
          Corrections(z, al, k, se, m) == br + Corrections(z, al, i, se, m - r))
  }

  lemma CameToStart(z: ZBlock, al: nat, k: nat, se: Index)
    ensures CameTo(z, al, k, k, se, 0, [])
  {
  }

  lemma CameOverZero(z: ZBlock, al: nat, k: nat, i: nat, se: Index, r: nat, br: seq<Bit>)
    requires CameTo(z, al, k, i, se, r, br) && i <= se && Mag(z, al, i) == 0
    ensures CameTo(z, al, k, i + 1, se, r + 1, br)
    ensures Stop(z, al, k, se, r) == i && Corrections(z, al, k, se, r) == br
  {
    assert br + [] == br;
    assert Stop(z, al, k, se, r) == Stop(z, al, i, se, r - r);
    assert Corrections(z, al, k, se, r) == br + Corrections(z, al, i, se, r - r);
  }

  lemma CameOverHistory(z: ZBlock, al: nat, k: nat, i: nat, se: Index, r: nat, br: seq<Bit>)
    requires CameTo(z, al, k, i, se, r, br) && i <= se && Mag(z, al, i) > 1
    ensures CameTo(z, al, k, i + 1, se, r, br + [Mag(z, al, i) % 2])
  {
    forall m: nat | m >= r
      ensures Corrections(z, al, k, se, m) == br + [Mag(z, al, i) % 2] + Corrections(z, al, i + 1, se, m - r)
    {
      assert Corrections(z, al, k, se, m) == br + Corrections(z, al, i, se, m - r);
    }
  }

  // ------------------------------------------------------------------ the next symbol

  datatype Event = New(m: nat) | Zrl

  /** No coefficient of k..j-1 becomes nonzero. */
  ghost predicate NoNew(z: ZBlock, al: nat, k: nat, j: nat)
    requires j <= 64
  {
    forall i :: k <= i < j ==> Mag(z, al, i) != 1
  }

  /** The items from k on begin with the symbol of this event, its sign, and the correction bits up to
      where it stops; then the encoder goes on behind. */
  ghost predicate Begins(ev: Event, tbl: HuffNo, z: ZBlock, al: nat, k: nat, se: Index, eob: nat) {
    var m := if ev.New? then ev.m else 15;
    var j := Stop(z, al, k, se, m);
    && m <= 15 && j <= se && (ev.New? <==> Mag(z, al, j) == 1) && NoNew(z, al, k, j)
    && RefineItems(tbl, z, al, k, se, 0, [], eob)
         == Before(EventItems(tbl, if ev.New? then m * 16 + 1 else 0xF0,
                              if ev.New? then Some(if Trunc(z[j], al) < 0 then 0 else 1) else None,
                              Corrections(z, al, k, se, m)),
                   RefineItems(tbl, z, al, j + 1, se, 0, [], eob))
  }

  lemma {:induction false} RefineSkips(tbl: HuffNo, z: ZBlock, al: nat, k: nat, i: nat, se: Index, r: nat, br: seq<Bit>,
                                       eob: nat)
    requires k <= i <= se + 1 && forall j :: k <= j < i ==> Mag(z, al, j) == 0
    ensures RefineItems(tbl, z, al, k, se, r, br, eob) == RefineItems(tbl, z, al, i, se, r + (i - k), br, eob)
    decreases i - k
  {
    if k < i {
      assert Mag(z, al, k) == 0;
      RefineSkips(tbl, z, al, k + 1, i, se, r + 1, br, eob);
    }
  }

  /** From i on, with up to 15 zeros passed since k. */
  lemma {:induction false} EventFollows(tbl: HuffNo, z: ZBlock, al: nat, k: nat, i: nat, se: Index, r: nat, br: seq<Bit>,
                                        eob: nat) returns (ev: Event)
    requires k <= i <= eob <= se && Mag(z, al, eob) == 1 && r <= 15 && CameTo(z, al, k, i, se, r, br) && NoNew(z, al, k, i)
    requires RefineItems(tbl, z, al, k, se, 0, [], eob) == RefineItems(tbl, z, al, i, se, r, br, eob)
    ensures Begins(ev, tbl, z, al, k, se, eob)
    decreases eob - i
  {
    var v := Mag(z, al, i);
    if v == 0 {
      CameOverZero(z, al, k, i, se, r, br);
      if r < 15 {
        ev := EventFollows(tbl, z, al, k, i + 1, se, r + 1, br, eob);
      } else {
        ev := Zrl;
        ZrlFollows(tbl, z, al, k, i, i + 1, se, br, eob);
      }
    } else if v > 1 {
      CameOverHistory(z, al, k, i, se, r, br);
      CorrectionUnfolds(tbl, z, al, i, se, r, br, eob);
      ev := EventFollows(tbl, z, al, k, i + 1, se, r, br + [v % 2], eob);
    } else {
      ev := New(r);
      NewFollows(tbl, z, al, k, i, se, r, br, eob);
    }
  }

  /** A new coefficient at i, with r zeros passed since k. */
  lemma NewFollows(tbl: HuffNo, z: ZBlock, al: nat, k: nat, i: nat, se: Index, r: nat, br: seq<Bit>, eob: nat)
    requires k <= i <= eob <= se && r <= 15 && CameTo(z, al, k, i, se, r, br) && NoNew(z, al, k, i) && Mag(z, al, i) == 1
    requires RefineItems(tbl, z, al, k, se, 0, [], eob) == RefineItems(tbl, z, al, i, se, r, br, eob)
    ensures Begins(New(r), tbl, z, al, k, se, eob)
  {
    assert Stop(z, al, k, se, r) == Stop(z, al, i, se, r - r);
    assert Corrections(z, al, k, se, r) == br + Corrections(z, al, i, se, r - r);
    assert br + [] == br;
    NewUnfolds(tbl, z, al, i, se, r, br, eob);
  }

  /** After the 16th zero at p, only zeros up to i. */
  lemma {:induction false} ZrlFollows(tbl: HuffNo, z: ZBlock, al: nat, k: nat, p: nat, i: nat, se: Index, br: seq<Bit>,
                                      eob: nat)
    requires k <= p < i <= eob <= se && Mag(z, al, eob) == 1 && NoNew(z, al, k, p)
    requires Stop(z, al, k, se, 15) == p && Corrections(z, al, k, se, 15) == br && Mag(z, al, p) == 0
    requires forall j :: p < j < i ==> Mag(z, al, j) == 0
    requires RefineItems(tbl, z, al, k, se, 0, [], eob) == RefineItems(tbl, z, al, i, se, 16 + (i - p - 1), br, eob)
    ensures Begins(Zrl, tbl, z, al, k, se, eob)
    decreases eob - i
  {
    if Mag(z, al, i) == 0 {
      ZrlFollows(tbl, z, al, k, p, i + 1, se, br, eob);
    } else {
      ZrlUnfolds(tbl, z, al, i, se, 16 + (i - p - 1), br, eob);
      RefineSkips(tbl, z, al, p + 1, i, se, 0, [], eob);
    }
  }

  /** While new coefficients are to come, the next symbol is one of theirs or ZRL. */
  lemma NextEvent(tbl: HuffNo, z: ZBlock, al: nat, k: nat, se: Index, eob: nat) returns (ev: Event)
    requires k <= eob <= se && Mag(z, al, eob) == 1
    ensures Begins(ev, tbl, z, al, k, se, eob)
  {
    CameToStart(z, al, k, se);
    ev := EventFollows(tbl, z, al, k, k, se, 0, [], eob);
  }

  /** Behind the last new coefficient only correction bits are left. */
  lemma {:induction false} OnlyCorrections(tbl: HuffNo, z: ZBlock, al: nat, k: nat, se: Index, r: nat, br: seq<Bit>, eob: nat)
    requires k > eob && forall i :: k <= i <= se ==> Mag(z, al, i) != 1
    ensures RefineItems(tbl, z, al, k, se, r, br, eob)
         == BandItems([], if k <= se || r > 0 || br != [] then Some(br + AllCorrections(z, al, k, se)) else None)
    decreases se + 1 - k
  {
    if k > se {
      assert br + [] == br;
    } else if Mag(z, al, k) == 0 {
      OnlyCorrections(tbl, z, al, k + 1, se, r + 1, br, eob);
      assert [] + AllCorrections(z, al, k + 1, se) == AllCorrections(z, al, k + 1, se);
    } else {
      assert Mag(z, al, k) != 1;
      CorrectionUnfolds(tbl, z, al, k, se, r, br, eob);
      OnlyCorrections(tbl, z, al, k + 1, se, r, br + [Mag(z, al, k) % 2], eob);
      BitsAssoc(br, [Mag(z, al, k) % 2], AllCorrections(z, al, k + 1, se));
    }
  }

  // ------------------------------------------------------------------ coefficients of a block

  /** Coefficient i as it is before and after the refinement. */
  function CoarseAt(z: ZBlock, al: nat, i: nat): Jcoef
    requires i < 64
  {
    ToJcoef(AcKept(z[i], al + 1))
  }

  function FineAt(z: ZBlock, al: nat, i: nat): Jcoef
    requires i < 64
  {
    ToJcoef(AcKept(z[i], al))
  }

  /** Every coefficient of the band is as it was before the scan, or a coefficient with history has
      had its correction: a call that was suspended may have left it so. */
  ghost predicate Mixed(sc: Scan, z: ZBlock, al: nat, block: seq<Jcoef>, a: nat, se: Index) {
    && |block| == 64 && se <= sc.limSe
    && forall i :: a <= i <= se ==> MixedAt(sc, z, al, block, i)
  }

  predicate MixedAt(sc: Scan, z: ZBlock, al: nat, block: seq<Jcoef>, i: nat)
    requires |block| == 64 && i <= sc.limSe
  {
    block[sc.order[i]] == CoarseAt(z, al, i) || (Mag(z, al, i) > 1 && block[sc.order[i]] == FineAt(z, al, i))
  }

  /** Adding a correction bit, unless it has been added already: the bit of weight 2^al tells. */
  function Correct(c: Jcoef, al: nat, bit: Bit): Jcoef {
    if bit == 1 && Shr(c, al) % 2 == 0 then ToJcoef(c + (if c >= 0 then Pow2(al) else 0 - Pow2(al))) else c
  }

  /** The correction bit turns a coefficient with history into its finer value, whether or not that
      has happened before. */
  lemma CorrectTwice(c: Coef, al: nat)
    requires al <= 13 && Abs(Trunc(c, al)) > 1
    ensures var bit: Bit := Abs(Trunc(c, al)) % 2;
            var coarse, fine := ToJcoef(AcKept(c, al + 1)), ToJcoef(AcKept(c, al));
            coarse != 0 && fine != 0 && Correct(coarse, al, bit) == fine && Correct(fine, al, bit) == fine
  {
    CoarseBit(c, al);
    FineBit(c, al);
    KeptStored(c, al);
    CorrectBoth(AcKept(c, al + 1), AcKept(c, al), al, Abs(Trunc(c, al)) % 2);
  }

  lemma KeptStored(c: Coef, al: nat)
    requires al <= 13 && Abs(Trunc(c, al)) > 1
    ensures var coarse, fine := AcKept(c, al + 1), AcKept(c, al);
            && -0x8000 <= coarse < 0x8000 && -0x8000 <= fine < 0x8000
            && ToJcoef(coarse) == coarse && ToJcoef(fine) == fine && coarse != 0
            && fine == coarse + if Abs(Trunc(c, al)) % 2 == 0 then 0 else if coarse > 0 then Pow2(al) else 0 - Pow2(al)
  {
    AcNextBit(c, al);
    KeptLegal(c, al + 1);
    KeptLegal(c, al);
  }

  /** The same for the values themselves. */
  lemma CorrectBoth(coarse: Jcoef, fine: Jcoef, al: nat, bit: Bit)
    requires coarse != 0 && fine != 0 && Shr(coarse, al) % 2 == 0 && Shr(fine, al) % 2 == bit
    requires fine == coarse + if bit == 0 then 0 else if coarse > 0 then Pow2(al) else 0 - Pow2(al)
    ensures Correct(coarse, al, bit) == fine && Correct(fine, al, bit) == fine
  {
  }

  /** The bit of weight 2^al of the finer value is the lowest bit of the magnitude. */
  lemma FineBit(c: Coef, al: nat)
    requires Trunc(c, al) != 0
    ensures AcKept(c, al) != 0 && Shr(AcKept(c, al), al) % 2 == Abs(Trunc(c, al)) % 2
  {
    ShiftFacts(Trunc(c, al), al);
    ShiftFacts(0, al);
  }

  /** The bit of weight 2^al is clear in the coarser value. */
  lemma CoarseBit(c: Coef, al: nat)
    ensures Shr(AcKept(c, al + 1), al) % 2 == 0
  {
    var w := Trunc(c, al + 1);
    ShiftFacts(w, al);
    ShiftAdd(w, w, al);
    ShiftFacts(2 * w, al);
  }

  /** A coefficient without history is zero before the scan. */
  lemma NoHistory(c: Coef, al: nat)
    requires Abs(Trunc(c, al)) <= 1
    ensures ToJcoef(AcKept(c, al + 1)) == 0
    ensures Trunc(c, al) == 0 ==> ToJcoef(AcKept(c, al)) == 0
    ensures Trunc(c, al) != 0 ==> ToJcoef(AcKept(c, al)) == ToJcoef(if Trunc(c, al) > 0 then Pow2(al) else 0 - Pow2(al))
  {
    AcNextBit(c, al);
    ShiftFacts(0, al);
    ShiftFacts(1, al);
    ShrLegal(Abs(c), al);
  }

  // ------------------------------------------------------------------ the progress of a band

  /** A band to be refined: `rest` are the bits behind its body, `tail` the correction bits that come
      with its end of band, if it has one. */
  datatype RefineInfo = RefineInfo(t: Tables, tbl: HuffNo, sc: Scan, z: ZBlock, al: nat, a: nat, se: Index,
                                   was: seq<Jcoef>, rest: seq<Bit>, hasEob: bool, tail: seq<Bit>)
  {
    function Table(): CTable {
      t.ac[tbl]
    }

    function Eob(): nat {
      LastNew(z, al, a, se)
    }

    predicate Fits() {
      |was| == 64 && 1 <= a <= se <= sc.limSe && al <= 13
    }
  }

  type RefineTask = x: RefineInfo | x.Fits() witness AnyRefinement()

  /** A band of no interest. */
  function AnyRefinement(): RefineInfo {
    var x := AnyTask();
    RefineInfo(x.t, 0, ScanInfo(true, 1, 1, 1, 0, 1, 1, [0], [0, 0, 0, 0], [0, 0, 0, 0], seq(16, _ => 0), seq(16, _ => 0),
                                seq(16, _ => 0), [0, 1], 0),
               x.z, 0, 1, 1, x.was, [], false, [])
  }

  ghost predicate Base(x: RefineTask, k: nat, content: seq<Jcoef>) {
    && x.sc.Injective() && Mixed(x.sc, x.z, x.al, x.was, x.a, x.se)
    && x.a <= k <= x.se + 1 && content == Placed(x.sc, x.z, x.al, x.was, x.a, k - 1)
  }

  /** The coefficients before k are done, and `bits` come next. */
  ghost predicate RefinedToNow(x: RefineTask, k: nat, bits: seq<Bit>, content: seq<Jcoef>, n: nat) {
    && n == 64 && Base(x, k, content)
    && var b := RefineItems(x.tbl, x.z, x.al, k, x.se, 0, [], x.Eob());
       && bits == ItemsBits(x.t, b.body) + x.rest && HaveCodes(x.t, b.body)
       && b.tail == if x.hasEob then Some(x.tail) else None
  }

  ghost predicate RefinedTo(x: RefineTask, k: nat, bits: seq<Bit>, content: seq<Jcoef>) {
    forall n {:trigger RefinedToNow(x, k, bits, content, n)} :: n == 64 ==> RefinedToNow(x, k, bits, content, n)
  }

  /** Inside a run: m zeros are still to be passed, and bits1 come behind its correction bits. */
  ghost predicate RunningNow(x: RefineTask, i: nat, m: nat, bits: seq<Bit>, content: seq<Jcoef>, bits1: seq<Bit>, n: nat) {
    && n == 64 && Base(x, i, content) && NoNew(x.z, x.al, i, Stop(x.z, x.al, i, x.se, m))
    && bits == Corrections(x.z, x.al, i, x.se, m) + bits1
  }

  ghost predicate RunningTo(x: RefineTask, i: nat, m: nat, bits: seq<Bit>, content: seq<Jcoef>, bits1: seq<Bit>) {
    forall n {:trigger RunningNow(x, i, m, bits, content, bits1, n)} :: n == 64 ==>
      RunningNow(x, i, m, bits, content, bits1, n)
  }

  /** Behind the end of band: only correction bits are left. */
  ghost predicate TailingNow(x: RefineTask, i: nat, bits: seq<Bit>, content: seq<Jcoef>, bits1: seq<Bit>, n: nat) {
    && n == 64 && Base(x, i, content) && NoNew(x.z, x.al, i, x.se + 1)
    && bits == AllCorrections(x.z, x.al, i, x.se) + bits1
  }

  ghost predicate TailingTo(x: RefineTask, i: nat, bits: seq<Bit>, content: seq<Jcoef>, bits1: seq<Bit>) {
    forall n {:trigger TailingNow(x, i, bits, content, bits1, n)} :: n == 64 ==> TailingNow(x, i, bits, content, bits1, n)
  }

  /** What the block holds at the place of a coefficient that has not been reached. */
  lemma Unreached(x: RefineTask, k: nat, i: nat, content: seq<Jcoef>)
    requires Base(x, k, content) && k <= i <= x.se
    ensures |content| == 64 && MixedAt(x.sc, x.z, x.al, content, i)
    ensures Mag(x.z, x.al, i) <= 1 ==> content[x.sc.order[i]] == 0
    ensures Mag(x.z, x.al, i) > 1 ==> content[x.sc.order[i]] != 0
    ensures Mag(x.z, x.al, i) > 1 ==>
              Correct(content[x.sc.order[i]], x.al, Mag(x.z, x.al, i) % 2) == FineAt(x.z, x.al, i)
  {
    PlacedAt(x.sc, x.z, x.al, x.was, x.a, k - 1, i);
    assert MixedAt(x.sc, x.z, x.al, x.was, i);
    if Mag(x.z, x.al, i) > 1 {
      CorrectTwice(x.z[i], x.al);
    } else {
      NoHistory(x.z[i], x.al);
    }
  }

  /** A coefficient with history takes its correction bit. */
  lemma BaseCorrected(x: RefineTask, i: nat, content: seq<Jcoef>)
    requires Base(x, i, content) && i <= x.se && Mag(x.z, x.al, i) > 1
    ensures |content| == 64
    ensures Base(x, i + 1, content[x.sc.order[i] := Correct(content[x.sc.order[i]], x.al, Mag(x.z, x.al, i) % 2)])
  {
    Unreached(x, i, i, content);
  }

  /** A coefficient that stays zero is passed. */
  lemma BasePassed(x: RefineTask, i: nat, content: seq<Jcoef>)
    requires Base(x, i, content) && i <= x.se && Mag(x.z, x.al, i) == 0
    ensures Base(x, i + 1, content)
  {
    assert MixedAt(x.sc, x.z, x.al, x.was, i);
    NoHistory(x.z[i], x.al);
    PlacedStays(x.sc, x.z, x.al, x.was, x.a, i);
  }

  // ------------------------------------------------------------------ the steps

  lemma RefineStarts(x: RefineTask)
    requires x.sc.Injective() && Mixed(x.sc, x.z, x.al, x.was, x.a, x.se)
    requires var b := RefineItems(x.tbl, x.z, x.al, x.a, x.se, 0, [], x.Eob());
             HaveCodes(x.t, b.body) && b.tail == if x.hasEob then Some(x.tail) else None
    ensures RefinedTo(x, x.a, ItemsBits(x.t, RefineItems(x.tbl, x.z, x.al, x.a, x.se, 0, [], x.Eob()).body) + x.rest, x.was)
  {
    assert RefinedToNow(x, x.a, ItemsBits(x.t, RefineItems(x.tbl, x.z, x.al, x.a, x.se, 0, [], x.Eob()).body) + x.rest,
                        x.was, 64);
  }

  /** In a run, a coefficient with history. */
  lemma RunCorrects(x: RefineTask, i: nat, m: nat, bits: seq<Bit>, content: seq<Jcoef>, bits1: seq<Bit>)
    returns (more: seq<Bit>)
    requires RunningTo(x, i, m, bits, content, bits1) && i <= x.se && Mag(x.z, x.al, i) > 1
    ensures |content| == 64 && content[x.sc.order[i]] != 0
    ensures bits == [Mag(x.z, x.al, i) % 2] + more
    ensures RunningTo(x, i + 1, m, more,
                      content[x.sc.order[i] := Correct(content[x.sc.order[i]], x.al, Mag(x.z, x.al, i) % 2)], bits1)
  {
    assert RunningNow(x, i, m, bits, content, bits1, 64);
    Unreached(x, i, i, content);
    BaseCorrected(x, i, content);
    more := Corrections(x.z, x.al, i + 1, x.se, m) + bits1;
    BitsAssoc([Mag(x.z, x.al, i) % 2], Corrections(x.z, x.al, i + 1, x.se, m), bits1);
    assert RunningNow(x, i + 1, m, more,
                      content[x.sc.order[i] := Correct(content[x.sc.order[i]], x.al, Mag(x.z, x.al, i) % 2)], bits1, 64);
  }

  /** In a run, a coefficient without history: it is passed, or the run stops there. */
  lemma RunPasses(x: RefineTask, i: nat, m: nat, bits: seq<Bit>, content: seq<Jcoef>, bits1: seq<Bit>)
    requires RunningTo(x, i, m, bits, content, bits1) && i <= x.se && Mag(x.z, x.al, i) <= 1
    ensures |content| == 64 && content[x.sc.order[i]] == 0
    ensures m > 0 ==> RunningTo(x, i + 1, m - 1, bits, content, bits1)
    ensures m == 0 ==> Stop(x.z, x.al, i, x.se, m) == i && bits == bits1 && Base(x, i, content)
  {
    assert RunningNow(x, i, m, bits, content, bits1, 64);
    Unreached(x, i, i, content);
    assert [] + bits1 == bits1;
    if m > 0 {
      BasePassed(x, i, content);
      assert RunningNow(x, i + 1, m - 1, bits, content, bits1, 64);
    }
  }

  /** Behind the end of band, a coefficient. */
  lemma TailSteps(x: RefineTask, i: nat, bits: seq<Bit>, content: seq<Jcoef>, bits1: seq<Bit>) returns (more: seq<Bit>)
    requires TailingTo(x, i, bits, content, bits1) && i <= x.se
    ensures |content| == 64 && (content[x.sc.order[i]] != 0 <==> Mag(x.z, x.al, i) > 1)
    ensures bits == (if Mag(x.z, x.al, i) > 1 then [Mag(x.z, x.al, i) % 2] else []) + more
    ensures TailingTo(x, i + 1, more,
                      if Mag(x.z, x.al, i) > 1 then
                        content[x.sc.order[i] := Correct(content[x.sc.order[i]], x.al, Mag(x.z, x.al, i) % 2)]
                      else content, bits1)
  {
    assert TailingNow(x, i, bits, content, bits1, 64);
    Unreached(x, i, i, content);
    more := AllCorrections(x.z, x.al, i + 1, x.se) + bits1;
    if Mag(x.z, x.al, i) > 1 {
      BaseCorrected(x, i, content);
      BitsAssoc([Mag(x.z, x.al, i) % 2], AllCorrections(x.z, x.al, i + 1, x.se), bits1);
      assert TailingNow(x, i + 1, more,
                        content[x.sc.order[i] := Correct(content[x.sc.order[i]], x.al, Mag(x.z, x.al, i) % 2)], bits1, 64);
    } else {
      BasePassed(x, i, content);
      assert [] + AllCorrections(x.z, x.al, i + 1, x.se) == AllCorrections(x.z, x.al, i + 1, x.se);
      assert [] + more == more;
      assert TailingNow(x, i + 1, more, content, bits1, 64);
    }
  }

  lemma TailEnds(x: RefineTask, i: nat, bits: seq<Bit>, content: seq<Jcoef>, bits1: seq<Bit>)
    requires TailingTo(x, i, bits, content, bits1) && i > x.se
    ensures bits == bits1 && content == Placed(x.sc, x.z, x.al, x.was, x.a, x.se)
  {
    assert TailingNow(x, i, bits, content, bits1, 64);
    assert [] + bits1 == bits1;
  }

  /** Behind coefficient j the band goes on with bits1. */
  ghost predicate ResumesNow(x: RefineTask, j: nat, bits1: seq<Bit>, n: nat) {
    var b := RefineItems(x.tbl, x.z, x.al, j + 1, x.se, 0, [], x.Eob());
    n == 64 && bits1 == ItemsBits(x.t, b.body) + x.rest && HaveCodes(x.t, b.body)
    && b.tail == if x.hasEob then Some(x.tail) else None
  }

  ghost predicate Resumes(x: RefineTask, j: nat, bits1: seq<Bit>) {
    forall n {:trigger ResumesNow(x, j, bits1, n)} :: n == 64 ==> ResumesNow(x, j, bits1, n)
  }

  /** Where a run has stopped, the band goes on behind the coefficient, which has been stored if it is
      new. */
  lemma RunResumes(x: RefineTask, j: nat, content: seq<Jcoef>, bits1: seq<Bit>)
    requires Base(x, j, content) && j <= x.se && Resumes(x, j, bits1) && Mag(x.z, x.al, j) <= 1
    ensures |content| == 64
    ensures RefinedTo(x, j + 1, bits1,
                      if Mag(x.z, x.al, j) == 1 then content[x.sc.order[j] := FineAt(x.z, x.al, j)] else content)
  {
    assert ResumesNow(x, j, bits1, 64);
    Unreached(x, j, j, content);
    if Mag(x.z, x.al, j) == 1 {
      assert RefinedToNow(x, j + 1, bits1, content[x.sc.order[j] := FineAt(x.z, x.al, j)], 64);
    } else {
      BasePassed(x, j, content);
      assert RefinedToNow(x, j + 1, bits1, content, 64);
    }
  }

  /** The next symbol before the last new coefficient: m zeros, and a new coefficient where they end,
      or ZRL. */
  ghost predicate EventComes(x: RefineTask, k: nat, bits: seq<Bit>, content: seq<Jcoef>, s: Byte, m: nat,
                             run: seq<Bit>, bits1: seq<Bit>)
  {
    var j := Stop(x.z, x.al, k, x.se, m);
    && m <= 15 && k <= j <= x.se && x.Table().ehufsi[s] != 0
    && s == (if Mag(x.z, x.al, j) == 1 then m * 16 + 1 else 0xF0) && (Mag(x.z, x.al, j) == 1 || m == 15)
    && bits == CodeBits(x.Table(), s)
               + (if Mag(x.z, x.al, j) == 1 then [if Trunc(x.z[j], x.al) < 0 then 0 else 1] + run else run)
    && RunningTo(x, k, m, run, content, bits1) && Resumes(x, j, bits1)
  }

  lemma NextRefine(x: RefineTask, k: nat, bits: seq<Bit>, content: seq<Jcoef>)
    returns (s: Byte, m: nat, run: seq<Bit>, bits1: seq<Bit>)
    requires RefinedTo(x, k, bits, content) && k <= x.Eob()
    ensures EventComes(x, k, bits, content, s, m, run, bits1)
  {
    assert RefinedToNow(x, k, bits, content, 64);
    var ev := NextEvent(x.tbl, x.z, x.al, k, x.se, x.Eob());
    m := if ev.New? then ev.m else 15;
    s := if ev.New? then m * 16 + 1 else 0xF0;
    run, bits1 := BeginsBits(x, k, ev);
    EventShape(ev, x, k);
    assert RunningNow(x, k, m, run, content, bits1, 64);
  }

  lemma EventShape(ev: Event, x: RefineTask, k: nat)
    requires Begins(ev, x.tbl, x.z, x.al, k, x.se, x.Eob())
    ensures var m := if ev.New? then ev.m else 15;
            var j := Stop(x.z, x.al, k, x.se, m);
            m <= 15 && k <= j <= x.se && (ev.New? <==> Mag(x.z, x.al, j) == 1)
  {
  }

  /** The bits from k on, when the next event is ev. */
  lemma BeginsBits(x: RefineTask, k: nat, ev: Event) returns (run: seq<Bit>, bits1: seq<Bit>)
    requires Begins(ev, x.tbl, x.z, x.al, k, x.se, x.Eob())
    requires var b := RefineItems(x.tbl, x.z, x.al, k, x.se, 0, [], x.Eob());
             HaveCodes(x.t, b.body) && b.tail == if x.hasEob then Some(x.tail) else None
    ensures var m := if ev.New? then ev.m else 15;
            var j := Stop(x.z, x.al, k, x.se, m);
            var s: Byte := if ev.New? then m * 16 + 1 else 0xF0;
            && x.Table().ehufsi[s] != 0 && run == Corrections(x.z, x.al, k, x.se, m) + bits1 && Resumes(x, j, bits1)
            && ItemsBits(x.t, RefineItems(x.tbl, x.z, x.al, k, x.se, 0, [], x.Eob()).body) + x.rest
                 == CodeBits(x.Table(), s)
                    + (if ev.New? then [if Trunc(x.z[j], x.al) < 0 then 0 else 1] + run else run)
  {
    var m := if ev.New? then ev.m else 15;
    var j := Stop(x.z, x.al, k, x.se, m);
    var b := RefineItems(x.tbl, x.z, x.al, j + 1, x.se, 0, [], x.Eob());
    var corrections := Corrections(x.z, x.al, k, x.se, m);
    bits1 := ItemsBits(x.t, b.body) + x.rest;
    run := corrections + bits1;
    EventBits(x.t, x.tbl, if ev.New? then m * 16 + 1 else 0xF0,
              if ev.New? then Some(if Trunc(x.z[j], x.al) < 0 then 0 else 1) else None, corrections, b, x.rest);
    assert ResumesNow(x, j, bits1, 64);
  }

  /** The bits of an event. */
  lemma EventBits(t: Tables, tbl: HuffNo, s: Byte, sign: Option<Bit>, br: seq<Bit>, b: BandItems, rest: seq<Bit>)
    ensures ItemsBits(t, Before(EventItems(tbl, s, sign, br), b).body) + rest
         == CodeBits(t.ac[tbl], s)
            + (match sign case None => br + (ItemsBits(t, b.body) + rest)
                          case Some(bit) => [bit] + (br + (ItemsBits(t, b.body) + rest)))
    ensures HaveCodes(t, Before(EventItems(tbl, s, sign, br), b).body) <==> t.ac[tbl].ehufsi[s] != 0 && HaveCodes(t, b.body)
  {
    var more := br + (ItemsBits(t, b.body) + rest);
    BitItemsBits(t, br);
    PairOfLists(t, EventItems(tbl, s, sign, br), b.body, rest);
    PairOfLists(t, EventHead(tbl, s, sign), BitItems(br), ItemsBits(t, b.body) + rest);
    match sign {
      case None =>
        assert [AcSym(tbl, s)] + [] == [AcSym(tbl, s)];
        OneItem(t, AcSym(tbl, s), [], more);
        assert [] + more == more;
      case Some(bit) =>
        DcTwo(t, AcSym(tbl, s), Extra(bit, 1), more);
        OneBit(bit, 1);
    }
  }

  lemma NoMoreNew(x: RefineTask, k: nat)
    requires x.a <= k && k > x.Eob()
    ensures NoNew(x.z, x.al, k, x.se + 1)
  {
  }

  /** Behind the last new coefficient comes the end of band, and the correction bits that go with it. */
  lemma RefineEob(x: RefineTask, k: nat, bits: seq<Bit>, content: seq<Jcoef>, more: seq<Bit>)
    requires RefinedTo(x, k, bits, content) && x.Eob() < k <= x.se
    ensures x.hasEob && bits == x.rest && TailingTo(x, k, x.tail + more, content, more)
  {
    assert RefinedToNow(x, k, bits, content, 64);
    NoMoreNew(x, k);
    OnlyCorrections(x.tbl, x.z, x.al, k, x.se, 0, [], x.Eob());
    assert [] + AllCorrections(x.z, x.al, k, x.se) == AllCorrections(x.z, x.al, k, x.se);
    assert [] + x.rest == x.rest;
    assert TailingNow(x, k, x.tail + more, content, more, 64);
  }

  /** The band may also end without one. */
  lemma RefineEnds(x: RefineTask, k: nat, bits: seq<Bit>, content: seq<Jcoef>)
    requires RefinedTo(x, k, bits, content) && k > x.se
    ensures !x.hasEob && bits == x.rest && content == Placed(x.sc, x.z, x.al, x.was, x.a, x.se)
  {
    assert RefinedToNow(x, k, bits, content, 64);
    assert [] + x.rest == x.rest;
  }

  /** A band inside a run has no new coefficients. */
  lemma RunBand(x: RefineTask, more: seq<Bit>)
    requires x.sc.Injective() && Mixed(x.sc, x.z, x.al, x.was, x.a, x.se)
    requires RefineItems(x.tbl, x.z, x.al, x.a, x.se, 0, [], x.Eob()) == BandItems([], Some(x.tail))
    ensures TailingTo(x, x.a, x.tail + more, x.was, more)
  {
    if x.a <= x.Eob() {
      var ev := NextEvent(x.tbl, x.z, x.al, x.a, x.se, x.Eob());
    }
    NoMoreNew(x, x.a);
    OnlyCorrections(x.tbl, x.z, x.al, x.a, x.se, 0, [], x.Eob());
    assert [] + AllCorrections(x.z, x.al, x.a, x.se) == AllCorrections(x.z, x.al, x.a, x.se);
    assert TailingNow(x, x.a, x.tail + more, x.was, more, 64);
  }

  // ------------------------------------------------------------------ suspension

  /** The places of the coefficients before k that have become nonzero in this call. */
  ghost predicate NewPlaces(x: RefineTask, k: nat, places: seq<Index>)
    requires k <= x.se + 1
  {
    && (forall i :: x.a <= i < k && Mag(x.z, x.al, i) == 1 ==> x.sc.order[i] in places)
    && forall p :: p in places ==> exists i :: x.a <= i < k && Mag(x.z, x.al, i) == 1 && x.sc.order[i] == p
  }

  /** Re-zeroing the new coefficients leaves a block from which the call can be made again, with the
      same outcome. */
  lemma UndoneIsMixed(x: RefineTask, k: nat, content: seq<Jcoef>, places: seq<Index>, undone: seq<Jcoef>)
    requires Base(x, k, content) && NewPlaces(x, k, places) && |content| == |undone| == 64
    requires forall j: Index :: undone[j] == if j in places then 0 else content[j]
    ensures Mixed(x.sc, x.z, x.al, undone, x.a, x.se)
    ensures Placed(x.sc, x.z, x.al, undone, x.a, x.se) == Placed(x.sc, x.z, x.al, x.was, x.a, x.se)
  {
    forall i | x.a <= i <= x.se
      ensures MixedAt(x.sc, x.z, x.al, undone, i)
    {
      UndoneAt(x, k, content, places, undone, i);
    }
    forall j: Index
      ensures Placed(x.sc, x.z, x.al, undone, x.a, x.se)[j] == Placed(x.sc, x.z, x.al, x.was, x.a, x.se)[j]
    {
      if i :| x.a <= i <= x.se && x.sc.order[i] == j {
        PlacedAt(x.sc, x.z, x.al, undone, x.a, x.se, i);
        PlacedAt(x.sc, x.z, x.al, x.was, x.a, x.se, i);
      } else {
        PlacedElsewhere(x.sc, x.z, x.al, undone, x.a, x.se, j);
        PlacedElsewhere(x.sc, x.z, x.al, x.was, x.a, x.se, j);
        PlacedElsewhere(x.sc, x.z, x.al, x.was, x.a, k - 1, j);
      }
    }
  }

  lemma UndoneAt(x: RefineTask, k: nat, content: seq<Jcoef>, places: seq<Index>, undone: seq<Jcoef>, i: nat)
    requires Base(x, k, content) && NewPlaces(x, k, places) && |content| == |undone| == 64
    requires forall j: Index :: undone[j] == if j in places then 0 else content[j]
    requires x.a <= i <= x.se
    ensures MixedAt(x.sc, x.z, x.al, undone, i)
  {
    var p := x.sc.order[i];
    PlacedAt(x.sc, x.z, x.al, x.was, x.a, k - 1, i);
    assert MixedAt(x.sc, x.z, x.al, x.was, i);
    if p in places {
      var i1 :| x.a <= i1 < k && Mag(x.z, x.al, i1) == 1 && x.sc.order[i1] == p;
      assert i1 == i;
    }
    if Mag(x.z, x.al, i) <= 1 {
      NoHistory(x.z[i], x.al);
    }
  }
}
