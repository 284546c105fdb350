/** The MCU routines of the Huffman decoder (jdhuff.c) for scans of DC coefficients, and one contract
    for the routines of all scans: an MCU is rebuilt, or the call can be made again. */
module HuffmanMcuDecoder {
  import opened ArithTable
  import opened ArithModel
  import opened ArithBlocks
  import opened PointTransform
  import opened HuffmanItems
  import opened HuffmanRuns
  import opened HuffmanEobRuns
  import opened HuffmanRefine
  import opened HuffmanEncoder
  import opened HuffmanDecoder
  import opened HuffmanRefineDecoder
  import opened HuffmanScan

  // ------------------------------------------------------------------ contents of blocks

  /** The block can take part in the scan: it holds what it held before the scan, apart from changes
      that a suspended call may have made. */
  ghost predicate Waiting(sc: Scan, z: ZBlock, block: seq<Jcoef>) {
    && |block| == 64
    && match sc.Routine()
       case Sequential => Partly(sc, z, 0, block, 0, sc.limSe)
       case DcFirst => true
       case AcFirst => Partly(sc, z, sc.al, block, sc.ss - 1, sc.se)
       case DcRefine => block[0] == DcKept(z[0], sc.al + 1) || block[0] == ToJcoef(DcKept(z[0], sc.al))
       case AcRefine => Mixed(sc, z, sc.al, block, sc.ss, sc.se)
  }

  ghost predicate McuWaiting(sc: Scan, zs: Mcu, vals: seq<seq<Jcoef>>) {
    |zs| == |vals| && forall j :: 0 <= j < |zs| ==> Waiting(sc, zs[j], vals[j])
  }

  /** What the scan makes of the blocks of an MCU. */
  function DecodedMcu(sc: Scan, zs: Mcu, vals: seq<seq<Jcoef>>): (r: seq<seq<Jcoef>>)
    requires |zs| == |vals| && forall j :: 0 <= j < |vals| ==> |vals[j]| == 64
    ensures |r| == |vals| && forall j :: 0 <= j < |vals| ==> r[j] == Decoded(sc, zs[j], vals[j])
  {
    seq(|vals|, j requires 0 <= j < |vals| => Decoded(sc, zs[j], vals[j]))
  }

  /** After a suspended call the MCU can be decoded again, to the same result. */
  ghost predicate McuAgain(sc: Scan, zs: Mcu, before: seq<seq<Jcoef>>, after: seq<seq<Jcoef>>) {
    && McuWaiting(sc, zs, before) && McuWaiting(sc, zs, after)
    && DecodedMcu(sc, zs, after) == DecodedMcu(sc, zs, before)
  }

  // ------------------------------------------------------------------ scans of DC coefficients

  predicate IsProgressiveDc(sc: Scan) {
    sc.Routine().DcFirst? || sc.Routine().DcRefine?
  }

  /** How far an MCU has been decoded: j blocks; last are the predictions. */
  datatype DcProgress = DcProgress(sc: HuffScan, t: Tables, zs: Mcu, before: seq<seq<Jcoef>>, rest: seq<Bit>, goal: DcValues,
                                   j: nat, last: DcValues, after: seq<seq<Jcoef>>)

  ghost predicate DcProgressNow(p: DcProgress, lastOut: seq<int>, bits: seq<Bit>, n: nat) {
    && n == 0 && IsProgressiveDc(p.sc) && |p.zs| == |p.sc.membership| == |p.after| && p.j <= |p.zs|
    && McuWaiting(p.sc, p.zs, p.before)
    && (forall i :: 0 <= i < |p.zs| ==>
          |p.after[i]| == 64 && p.after[i] == if i < p.j then Decoded(p.sc, p.zs[i], p.before[i]) else p.before[i])
    && lastOut == p.last && LastAfter(p.sc, p.last, p.sc.membership[p.j..], p.zs[p.j..]) == p.goal
    && var its := McuItems(p.sc, p.last, p.sc.membership[p.j..], p.zs[p.j..]);
       HaveCodes(p.t, its) && bits == ItemsBits(p.t, its) + p.rest
  }

  ghost predicate DcProgressed(p: DcProgress, lastOut: seq<int>, bits: seq<Bit>) {
    forall n {:trigger DcProgressNow(p, lastOut, bits, n)} :: n == 0 ==> DcProgressNow(p, lastOut, bits, n)
  }

  /** The next block: its own bits, and the state behind it. */
  lemma DcBlockComes(p: DcProgress, lastOut: seq<int>, bits: seq<Bit>) returns (more: seq<Bit>, q: DcProgress)
    requires DcProgressed(p, lastOut, bits) && p.j < |p.sc.membership|
    ensures |p.zs| == |p.sc.membership| == |p.after| && |lastOut| == 4 && IsProgressiveDc(p.sc)
    ensures Waiting(p.sc, p.zs[p.j], p.after[p.j]) && lastOut == p.last
    ensures var m := p.sc.membership[p.j];
            var b := BlockItems(DcNo(p.sc, m), AcNo(p.sc, m), p.sc, p.last[m], p.zs[p.j]);
            && HaveCodes(p.t, b) && bits == ItemsBits(p.t, b) + more
            && q == p.(j := p.j + 1, last := NextLast(p.sc, p.last, m, p.zs[p.j]),
                       after := p.after[p.j := Decoded(p.sc, p.zs[p.j], p.after[p.j])])
            && DcProgressed(q, q.last, more)
  {
    assert DcProgressNow(p, lastOut, bits, 0);
    var m := p.sc.membership[p.j];
    var ms, ws := p.sc.membership[p.j..], p.zs[p.j..];
    assert ms[1..] == p.sc.membership[p.j + 1..] && ws[1..] == p.zs[p.j + 1..];
    var its := McuItems(p.sc, NextLast(p.sc, p.last, m, p.zs[p.j]), ms[1..], ws[1..]);
    PairBits(p.t, BlockItems(DcNo(p.sc, m), AcNo(p.sc, m), p.sc, p.last[m], p.zs[p.j]), its, p.rest);
    more := ItemsBits(p.t, its) + p.rest;
    q := p.(j := p.j + 1, last := NextLast(p.sc, p.last, m, p.zs[p.j]),
            after := p.after[p.j := Decoded(p.sc, p.zs[p.j], p.after[p.j])]);
    assert DcProgressNow(q, q.last, more, 0);
  }

  lemma DcStarts(p: DcProgress, lastOut: seq<int>, bits: seq<Bit>)
    requires IsProgressiveDc(p.sc) && |p.zs| == |p.sc.membership| && p.j == 0 && p.after == p.before
    requires McuWaiting(p.sc, p.zs, p.before) && lastOut == p.last
    requires p.goal == LastAfter(p.sc, p.last, p.sc.membership, p.zs)
    requires var its := McuItems(p.sc, p.last, p.sc.membership, p.zs);
             HaveCodes(p.t, its) && bits == ItemsBits(p.t, its) + p.rest
    ensures DcProgressed(p, lastOut, bits)
  {
    assert p.sc.membership[0..] == p.sc.membership && p.zs[0..] == p.zs;
    assert DcProgressNow(p, lastOut, bits, 0);
  }

  lemma DcEnds(p: DcProgress, lastOut: seq<int>, bits: seq<Bit>)
    requires DcProgressed(p, lastOut, bits) && p.j == |p.sc.membership|
    ensures McuWaiting(p.sc, p.zs, p.before) && p.after == DecodedMcu(p.sc, p.zs, p.before)
    ensures lastOut == p.goal && bits == p.rest
  {
    assert DcProgressNow(p, lastOut, bits, 0);
    assert [] + p.rest == p.rest;
  }

  /** Blocks that are done come out the same when they are decoded once more. */
  lemma DcBreaks(p: DcProgress, lastOut: seq<int>, bits: seq<Bit>)
    requires DcProgressed(p, lastOut, bits)
    ensures McuAgain(p.sc, p.zs, p.before, p.after)
  {
    assert DcProgressNow(p, lastOut, bits, 0);
    forall i | 0 <= i < |p.zs|
      ensures Waiting(p.sc, p.zs[i], p.after[i])
      ensures Decoded(p.sc, p.zs[i], p.after[i]) == Decoded(p.sc, p.zs[i], p.before[i])
    {
      assert Waiting(p.sc, p.zs[i], p.before[i]);
    }
  }

  /** A block of a scan of DC coefficients: the difference to the prediction, or the next bit. */
  method DecodeDcBlock(dec: HuffDecoder, scan: HuffScan, ci: Component, block: array<Jcoef>, lastIn: seq<int>,
                       ghost t: Tables, ghost last: DcValues, ghost z: ZBlock, ghost rest: seq<Bit>, ghost on: bool)
    returns (ok: bool, lastOut: seq<int>)
    requires dec.Shape() && dec.reader.Valid() && block.Length == 64 && IsProgressiveDc(scan) && |lastIn| == 4
    requires on ==> dec.AllInverted(t) && lastIn == last && Waiting(scan, z, block[..]) && !dec.reader.insufficientData
    requires on ==> HaveCodes(t, BlockItems(DcNo(scan, ci), AcNo(scan, ci), scan, last[ci], z))
                    && dec.reader.Ahead()
                         == ItemsBits(t, BlockItems(DcNo(scan, ci), AcNo(scan, ci), scan, last[ci], z)) + rest
    modifies dec.reader`pos, dec.reader`getBuffer, dec.reader`bitsLeft, dec.reader`unreadMarker,
             dec.reader`insufficientData, block
    ensures dec.reader.Valid() && (!ok ==> dec.reader.Starved()) && |lastOut| == 4
    ensures !ok ==> dec.reader.unreadMarker == old(dec.reader.unreadMarker) == 0 && block[..] == old(block[..])
    ensures dec.reader.unreadMarker == 0 ==> dec.reader.insufficientData == old(dec.reader.insufficientData)
    ensures old(dec.reader.unreadMarker) != 0 ==> dec.reader.unreadMarker == old(dec.reader.unreadMarker)
    ensures ok && on ==> dec.reader.Ahead() == rest && !dec.reader.insufficientData
                         && lastOut == NextLast(scan, last, ci, z) && block[..] == Decoded(scan, z, old(block[..]))
  {
    lastOut := lastIn;
    if scan.Routine().DcFirst? {
      ok, lastOut := DecodeDcValue(dec, scan, ci, block, lastIn, t, last, z, rest, on);
    } else {
      if on {
        OneBitItem(t, DcBit(scan, z), rest);
      }
      ok := DecodeDcBit(dec, scan, block, z, rest, on);
    }
  }

  lemma DcValueDone(sc: HuffScan, ci: Component, last: DcValues, z: ZBlock, block: seq<Jcoef>)
    requires sc.Routine().DcFirst? && |block| == 64 && Waiting(sc, z, block)
    ensures NextLast(sc, last, ci, z) == last[ci := DcValue(sc, z)]
    ensures Decoded(sc, z, block) == block[0 := ToJcoef(Shift(DcValue(sc, z), sc.al))]
  {
  }

  /** The first bits of a DC value. */
  method DecodeDcValue(dec: HuffDecoder, scan: HuffScan, ci: Component, block: array<Jcoef>, lastIn: seq<int>,
                       ghost t: Tables, ghost last: DcValues, ghost z: ZBlock, ghost rest: seq<Bit>, ghost on: bool)
    returns (ok: bool, lastOut: seq<int>)
    requires dec.Shape() && dec.reader.Valid() && block.Length == 64 && scan.Routine().DcFirst? && |lastIn| == 4
    requires on ==> dec.AllInverted(t) && lastIn == last && Waiting(scan, z, block[..]) && !dec.reader.insufficientData
    requires on ==> HaveCodes(t, BlockItems(DcNo(scan, ci), AcNo(scan, ci), scan, last[ci], z))
                    && dec.reader.Ahead()
                         == ItemsBits(t, BlockItems(DcNo(scan, ci), AcNo(scan, ci), scan, last[ci], z)) + rest
    modifies dec.reader`pos, dec.reader`getBuffer, dec.reader`bitsLeft, dec.reader`unreadMarker,
             dec.reader`insufficientData, block
    ensures dec.reader.Valid() && (!ok ==> dec.reader.Starved()) && |lastOut| == 4
    ensures !ok ==> dec.reader.unreadMarker == old(dec.reader.unreadMarker) == 0 && block[..] == old(block[..])
    ensures dec.reader.unreadMarker == 0 ==> dec.reader.insufficientData == old(dec.reader.insufficientData)
    ensures old(dec.reader.unreadMarker) != 0 ==> dec.reader.unreadMarker == old(dec.reader.unreadMarker)
    ensures ok && on ==> dec.reader.Ahead() == rest && !dec.reader.insufficientData
                         && lastOut == NextLast(scan, last, ci, z) && block[..] == Decoded(scan, z, old(block[..]))
  {
    lastOut := lastIn;
    assert dec.BothSound(DcNo(scan, ci));
    if on {
      DcValueDone(scan, ci, last, z, block[..]);
    }
    var s;
    ok, s := dec.DecodeDcDiff(dec.dcTbls[DcNo(scan, ci)], t, DcNo(scan, ci), DcValue(scan, z) - last[ci], rest, on);
    if ok {
      lastOut := lastIn[ci := lastIn[ci] + s];
      block[0] := ToJcoef(Shift(lastOut[ci], scan.al));
    }
  }

  /** The next bit of a DC value. */
  method DecodeDcBit(dec: HuffDecoder, scan: HuffScan, block: array<Jcoef>, ghost z: ZBlock, ghost rest: seq<Bit>,
                     ghost on: bool) returns (ok: bool)
    requires dec.reader.Valid() && block.Length == 64 && scan.Routine().DcRefine?
    requires on ==> Waiting(scan, z, block[..]) && !dec.reader.insufficientData
                    && dec.reader.Ahead() == [DcBit(scan, z)] + rest
    modifies dec.reader`pos, dec.reader`getBuffer, dec.reader`bitsLeft, dec.reader`unreadMarker,
             dec.reader`insufficientData, block
    ensures dec.reader.Valid() && (!ok ==> dec.reader.Starved())
    ensures !ok ==> dec.reader.unreadMarker == old(dec.reader.unreadMarker) == 0 && block[..] == old(block[..])
    ensures dec.reader.unreadMarker == 0 ==> dec.reader.insufficientData == old(dec.reader.insufficientData)
    ensures old(dec.reader.unreadMarker) != 0 ==> dec.reader.unreadMarker == old(dec.reader.unreadMarker)
    ensures ok && on ==> dec.reader.Ahead() == rest && !dec.reader.insufficientData
                         && block[..] == Decoded(scan, z, old(block[..]))
  {
    ghost var bit := DcBit(scan, z);
    OneBit(bit, 1);
    assert Pow2(1) == 2;
    var b;
    ok, b := dec.DecodeExtra(1, bit, rest, on);
    if ok && on {
      OrTwice(scan, z, block[..]);
    }
    if ok && b == 1 {
      block[0] := OrBit(block[0], scan.al);
    }
  }

  lemma OneBitItem(t: Tables, bit: Bit, rest: seq<Bit>)
    ensures ItemsBits(t, [Extra(bit, 1)]) + rest == [bit] + rest
  {
    OneBit(bit, 1);
    assert [bit] + [] == [bit];
  }

  lemma KeptBit(c: Coef, al: nat)
    requires al <= 13
    ensures ToJcoef(DcKept(c, al)) == DcKept(c, al) && Shr(DcKept(c, al), al) == Shr(c, al)
  {
    KeptLegal(c, al);
    ShiftFacts(Shr(c, al), al);
  }

  /** Setting the bit once more changes nothing. */
  lemma OrTwice(sc: Scan, z: ZBlock, block: seq<Jcoef>)
    requires sc.Routine().DcRefine? && Waiting(sc, z, block)
    ensures Decoded(sc, z, block) == if DcBit(sc, z) == 1 then block[0 := OrBit(block[0], sc.al)] else block
  {
    OrBitKept(z[0], sc.al);
    KeptBit(z[0], sc.al);
    var fine := ToJcoef(DcKept(z[0], sc.al));
    assert block[0 := block[0]] == block;
    if block[0] == fine {
      assert DcBit(sc, z) == 1 ==> OrBit(block[0], sc.al) == block[0];
    } else {
      assert DcBit(sc, z) == 1 && fine == OrBit(block[0], sc.al);
    }
  }

  /** decode_mcu_DC_first or decode_mcu_DC_refine between the loading and the saving of the state. */
  method DecodeDcBlocks(dec: HuffDecoder, scan: HuffScan, blocks: seq<array<Jcoef>>, ghost p0: DcProgress, ghost on: bool)
    returns (ok: bool, lastOut: seq<int>, ghost p: DcProgress)
    requires dec.Shape() && dec.reader.Valid() && DistinctNow(blocks) && IsProgressiveDc(scan) && |blocks| == |scan.membership|
    requires Hold(blocks, p0.after)
    requires on ==> dec.AllInverted(p0.t) && p0.sc == scan && p0.j == 0 && !dec.reader.insufficientData
                    && DcProgressed(p0, dec.lastDcVal, dec.reader.Ahead())
    modifies dec.reader`pos, dec.reader`getBuffer, dec.reader`bitsLeft, dec.reader`unreadMarker,
             dec.reader`insufficientData, blocks
    ensures dec.reader.Valid() && (!ok ==> dec.reader.Starved()) && |lastOut| == 4 && Hold(blocks, p.after)
    ensures !ok ==> dec.reader.unreadMarker == old(dec.reader.unreadMarker) == 0
    ensures dec.reader.unreadMarker == 0 ==> dec.reader.insufficientData == old(dec.reader.insufficientData)
    ensures old(dec.reader.unreadMarker) != 0 ==> dec.reader.unreadMarker == old(dec.reader.unreadMarker)
    ensures !ok && on ==> McuAgain(scan, p0.zs, p0.before, p.after)
    ensures ok && on ==> p == p0.(j := p.j, last := p.last, after := p.after) && p.j == |blocks|
                         && DcProgressed(p, lastOut, dec.reader.Ahead()) && !dec.reader.insufficientData
  {
    p := p0;
    ok, lastOut := true, dec.lastDcVal;
    var j: nat := 0;
    while j < |blocks|
      invariant j <= |blocks| && dec.reader.Valid() && |lastOut| == 4 && Hold(blocks, p.after)
      invariant old(dec.reader.unreadMarker) != 0 ==> dec.reader.unreadMarker == old(dec.reader.unreadMarker)
      invariant dec.reader.unreadMarker == 0 ==> dec.reader.insufficientData == old(dec.reader.insufficientData)
      invariant on ==> p == p0.(j := j, last := p.last, after := p.after) && !dec.reader.insufficientData
                       && DcProgressed(p, lastOut, dec.reader.Ahead())
    {
      ghost var more: seq<Bit>, q: DcProgress := [], p;
      ghost var z: ZBlock := seq(64, _ => 0);
      ghost var bits, last0 := dec.reader.Ahead(), lastOut;
      if on {
        more, q := DcBlockComes(p, lastOut, bits);
        z := p.zs[j];
      }
      ok, lastOut := DecodeDcBlock(dec, scan, scan.membership[j], blocks[j], lastOut, p.t, p.last, z, more, on);
      if !ok {
        if on {
          DcBreaks(p, last0, bits);
        }
        return;
      }
      p := if on then q else p.(after := p.after[j := blocks[j][..]]);
      j := j + 1;
    }
  }

  /** decode_mcu_DC_first and decode_mcu_DC_refine. */
  method DecodeDcMcu(dec: HuffDecoder, scan: HuffScan, blocks: seq<array<Jcoef>>, ghost p0: DcProgress, ghost on: bool)
    returns (ok: bool, ghost after: seq<seq<Jcoef>>)
    requires dec.Valid() && DistinctNow(blocks) && IsProgressiveDc(scan) && |blocks| == |scan.membership|
    requires Hold(blocks, p0.after)
    requires on ==> dec.AllInverted(p0.t) && p0.sc == scan && p0.j == 0 && !dec.reader.insufficientData
                    && DcProgressed(p0, dec.lastDcVal, dec.Ahead())
    modifies dec.reader`pos, dec.reader`getBuffer, dec.reader`bitsLeft, dec.reader`unreadMarker,
             dec.reader`insufficientData, dec`saved, dec`lastDcVal, blocks
    ensures dec.Valid() && (!ok ==> dec.reader.Starved()) && Hold(blocks, after)
    ensures !ok ==> dec.saved == old(dec.saved) && dec.lastDcVal == old(dec.lastDcVal) && dec.Ahead() == old(dec.Ahead())
                    && dec.reader.insufficientData == old(dec.reader.insufficientData)
    ensures old(dec.reader.insufficientData) && scan.Routine().DcFirst? ==>
              ok && after == p0.after && dec.saved == old(dec.saved) && dec.lastDcVal == old(dec.lastDcVal)
    ensures !ok && on ==> McuAgain(scan, p0.zs, p0.before, after)
    ensures ok && on ==> !dec.reader.insufficientData && dec.lastDcVal == p0.goal && dec.Ahead() == p0.rest
                         && McuWaiting(scan, p0.zs, p0.before) && after == DecodedMcu(scan, p0.zs, p0.before)
  {
    ok, after := true, p0.after;
    if dec.reader.insufficientData && scan.Routine().DcFirst? {
      return;
    }
    dec.Load();
    var lastOut;
    ghost var p;
    ok, lastOut, p := DecodeDcBlocks(dec, scan, blocks, p0, on);
    after := p.after;
    if !ok {
      return;
    }
    dec.Save();
    dec.lastDcVal := lastOut;
    if on {
      DcEnds(p, lastOut, dec.reader.Ahead());
    }
  }

  // ------------------------------------------------------------------ any scan

  /** What the decoder works towards: the MCUs that remain in the open segment, the predictions of the
      encoder, and the padding at the end of the segment. */
  datatype DecGoal = DecGoal(t: Tables, sc: HuffScan, part: seq<Mcu>, last: DcValues, pad: seq<Bit>)

  ghost predicate AwaitsPartNow(g: DecGoal, lastDc: seq<int>, run: nat, bits: seq<Bit>, n: nat) {
    && n == 0 && Fit(g.sc, g.part) && g.sc.Injective() && lastDc == g.last
    && if IsAc(g.sc) then
         g.sc.membership == [0] && AwaitsBands(g.t, AcNo(g.sc, 0), Bands(g.sc, g.part), run, bits, g.pad)
       else
         var its := McusItems(g.sc, g.last, g.part);
         HaveCodes(g.t, its) && bits == ItemsBits(g.t, its) + g.pad
  }

  /** The bits stand for these MCUs (unfolded only on demand). */
  ghost predicate AwaitsPart(g: DecGoal, lastDc: seq<int>, run: nat, bits: seq<Bit>) {
    forall n {:trigger AwaitsPartNow(g, lastDc, run, bits, n)} :: n == 0 ==> AwaitsPartNow(g, lastDc, run, bits, n)
  }

  /** The goal behind the next MCU. */
  function NextGoal(g: DecGoal): DecGoal
    requires g.part != [] && |g.part[0]| == |g.sc.membership|
  {
    g.(part := g.part[1..], last := LastAfter(g.sc, g.last, g.sc.membership, g.part[0]))
  }

  lemma PartHead(g: DecGoal, lastDc: seq<int>, run: nat, bits: seq<Bit>)
    requires AwaitsPart(g, lastDc, run, bits) && g.part != []
    ensures |g.part[0]| == |g.sc.membership| && g.sc.Injective() && lastDc == g.last && Fit(g.sc, g.part)
    ensures IsAc(g.sc) ==>
              && g.sc.membership == [0] && AwaitsBands(g.t, AcNo(g.sc, 0), Bands(g.sc, g.part), run, bits, g.pad)
              && Bands(g.sc, g.part)[0] == BandOfBlock(g.sc, g.part[0][0])
              && Bands(g.sc, g.part)[1..] == Bands(g.sc, g.part[1..])
              && NextGoal(g).last == g.last
    ensures !IsAc(g.sc) ==>
              var its := McuItems(g.sc, g.last, g.sc.membership, g.part[0]);
              HaveCodes(g.t, its) && bits == ItemsBits(g.t, its) + PartRest(g)
  {
    assert AwaitsPartNow(g, lastDc, run, bits, 0);
    if IsAc(g.sc) {
      assert Bands(g.sc, g.part)[1..] == Bands(g.sc, g.part[1..]);
      LastOfOne(g.sc, g.last, g.part[0]);
    } else {
      PairBits(g.t, McuItems(g.sc, g.last, g.sc.membership, g.part[0]),
               McusItems(g.sc, LastAfter(g.sc, g.last, g.sc.membership, g.part[0]), g.part[1..]), g.pad);
    }
  }

  lemma {:induction false} LastOfOne(sc: HuffScan, last: DcValues, zs: Mcu)
    requires IsAc(sc) && |zs| == |sc.membership| == 1
    ensures LastAfter(sc, last, sc.membership, zs) == last
  {
    assert LastAfter(sc, NextLast(sc, last, sc.membership[0], zs[0]), sc.membership[1..], zs[1..]) == last;
  }

  /** The bits behind the next MCU. */
  function PartRest(g: DecGoal): seq<Bit>
    requires g.part != [] && Fit(g.sc, g.part)
  {
    ItemsBits(g.t, McusItems(g.sc, LastAfter(g.sc, g.last, g.sc.membership, g.part[0]), g.part[1..])) + g.pad
  }

  lemma PartStepDc(g: DecGoal, lastDc: seq<int>, run: nat, bits: seq<Bit>, run1: nat)
    requires AwaitsPart(g, lastDc, run, bits) && g.part != [] && !IsAc(g.sc)
    ensures |g.part[0]| == |g.sc.membership| && Fit(g.sc, g.part)
    ensures AwaitsPart(NextGoal(g), NextGoal(g).last, run1, PartRest(g))
  {
    assert AwaitsPartNow(g, lastDc, run, bits, 0);
    PartHead(g, lastDc, run, bits);
    PairBits(g.t, McuItems(g.sc, g.last, g.sc.membership, g.part[0]),
             McusItems(g.sc, LastAfter(g.sc, g.last, g.sc.membership, g.part[0]), g.part[1..]), g.pad);
    assert AwaitsPartNow(NextGoal(g), NextGoal(g).last, run1, PartRest(g), 0);
  }

  lemma PartStepAc(g: DecGoal, lastDc: seq<int>, run: nat, bits: seq<Bit>, run1: nat, bits1: seq<Bit>)
    requires AwaitsPart(g, lastDc, run, bits) && g.part != [] && IsAc(g.sc) && Fit(g.sc, g.part)
    requires AwaitsBands(g.t, AcNo(g.sc, 0), Bands(g.sc, g.part)[1..], run1, bits1, g.pad)
    ensures |g.part[0]| == |g.sc.membership| && AwaitsPart(NextGoal(g), lastDc, run1, bits1)
  {
    assert AwaitsPartNow(g, lastDc, run, bits, 0);
    PartHead(g, lastDc, run, bits);
    assert AwaitsPartNow(NextGoal(g), lastDc, run1, bits1, 0);
  }

  /** Block 0 of an MCU of one block, in a scan of AC coefficients. */
  method DecodeAcMcu(dec: HuffDecoder, scan: HuffScan, block: array<Jcoef>, ghost g: DecGoal, ghost on: bool)
    returns (ok: bool)
    requires dec.Valid() && block.Length == 64 && IsAc(scan)
    requires on ==> dec.AllInverted(g.t) && g.sc == scan && g.part != [] && !dec.reader.insufficientData
                    && AwaitsPart(g, dec.lastDcVal, dec.eobrun, dec.Ahead())
                    && |g.part[0]| == 1 && Waiting(scan, g.part[0][0], block[..])
    modifies dec.reader`pos, dec.reader`getBuffer, dec.reader`bitsLeft, dec.reader`unreadMarker,
             dec.reader`insufficientData, dec`saved, dec`eobrun, block
    ensures dec.Valid() && (!ok ==> dec.reader.Starved())
    ensures !ok ==> dec.saved == old(dec.saved) && dec.eobrun == old(dec.eobrun) && dec.Ahead() == old(dec.Ahead())
                    && dec.reader.insufficientData == old(dec.reader.insufficientData)
    ensures old(dec.reader.insufficientData) ==>
              ok && block[..] == old(block[..]) && dec.saved == old(dec.saved) && dec.eobrun == old(dec.eobrun)
    ensures !ok && on ==> Waiting(scan, g.part[0][0], block[..])
                          && Decoded(scan, g.part[0][0], block[..]) == Decoded(scan, g.part[0][0], old(block[..]))
    ensures ok && on ==> !dec.reader.insufficientData && |g.part[0]| == |scan.membership|
                         && AwaitsPart(NextGoal(g), dec.lastDcVal, dec.eobrun, dec.Ahead())
                         && block[..] == Decoded(scan, g.part[0][0], old(block[..]))
  {
    assert dec.BothSound(AcNo(scan, 0));
    var d := dec.acTbls[AcNo(scan, 0)];
    ghost var bg := BandGoal(g.t, AcNo(scan, 0), scan, if on then g.part[0][0] else seq(64, _ => 0), [], g.pad);
    ghost var run, bits, content := dec.eobrun, dec.Ahead(), block[..];
    if on {
      PartHead(g, dec.lastDcVal, run, bits);
      bg := bg.(bs := Bands(scan, g.part));
    }
    if scan.Routine().AcFirst? {
      ok := dec.DecodeAcFirst(d, scan, block, bg.t, bg.tbl, bg.z, bg.bs, bg.pad, on);
    } else {
      if on {
        assert ReadyNow(bg, run, bits, content, 64);
      }
      ok := DecodeAcRefine(dec, d, scan, block, bg, on);
      if on {
        if ok {
          assert RefinedNow(bg, run, content, dec.eobrun, dec.Ahead(), block[..], 64);
        } else {
          assert ReadyNow(bg, run, bits, block[..], 64);
        }
      }
    }
    if ok && on {
      PartStepAc(g, dec.lastDcVal, run, bits, dec.eobrun, dec.Ahead());
    }
  }

  /** The limits of a scan all of whose coefficients are wanted. */
  function NoLimits(sc: HuffScan): (limits: seq<nat>)
    ensures |limits| == |sc.membership| && forall j :: 0 <= j < |limits| ==> limits[j] == sc.limSe + 1
  {
    seq(|sc.membership|, _ => sc.limSe + 1)
  }

  const ALL_NEEDED := [true, true, true, true]

  lemma AllBlocksKept(sc: HuffScan, zs: Mcu, before: seq<seq<Jcoef>>, after: seq<seq<Jcoef>>)
    requires McuKept(sc, zs, NoLimits(sc), before, after, |zs|) && McuWaiting(sc, zs, before) && !sc.progressive
    ensures after == DecodedMcu(sc, zs, before)
  {
    forall j | 0 <= j < |zs|
      ensures after[j] == Decoded(sc, zs[j], before[j])
    {
      AllKept(sc, zs[j], before[j], after[j]);
    }
  }

  lemma BrokenSequential(p: McuProgress)
    requires Resumable(p) && !p.sc.progressive && McuReady(p.sc, p.zs, p.before)
    ensures McuAgain(p.sc, p.zs, p.before, p.after)
  {
    forall j | 0 <= j < |p.zs|
      ensures Decoded(p.sc, p.zs[j], p.after[j]) == Decoded(p.sc, p.zs[j], p.before[j])
    {
      assert Redo(p.sc, p.zs[j], p.before[j], p.after[j]);
    }
  }

  method DecodeSequentialMcu(dec: HuffDecoder, scan: HuffScan, blocks: seq<array<Jcoef>>,
                             ghost g: DecGoal, ghost vals: seq<seq<Jcoef>>, ghost on: bool)
    returns (ok: bool, ghost after: seq<seq<Jcoef>>)
    requires dec.Valid() && DistinctNow(blocks) && !scan.progressive && |blocks| == |scan.membership| && Hold(blocks, vals)
    requires on ==> dec.AllInverted(g.t) && g.sc == scan && g.part != [] && !dec.reader.insufficientData
                    && AwaitsPart(g, dec.lastDcVal, dec.eobrun, dec.Ahead()) && McuWaiting(scan, g.part[0], vals)
    modifies dec.reader`pos, dec.reader`getBuffer, dec.reader`bitsLeft, dec.reader`unreadMarker,
             dec.reader`insufficientData, dec`saved, dec`lastDcVal, blocks
    ensures dec.Valid() && (!ok ==> dec.reader.Starved()) && Hold(blocks, after)
    ensures !ok ==> dec.saved == old(dec.saved) && dec.lastDcVal == old(dec.lastDcVal) && dec.Ahead() == old(dec.Ahead())
                    && dec.reader.insufficientData == old(dec.reader.insufficientData)
    ensures old(dec.reader.insufficientData) ==>
              ok && after == vals && dec.saved == old(dec.saved) && dec.lastDcVal == old(dec.lastDcVal)
    ensures !ok && on ==> McuAgain(scan, g.part[0], vals, after)
    ensures ok && on ==> !dec.reader.insufficientData && |g.part[0]| == |scan.membership|
                         && AwaitsPart(NextGoal(g), dec.lastDcVal, dec.eobrun, dec.Ahead())
                         && |vals| == |g.part[0]| && McuWaiting(scan, g.part[0], vals)
                         && after == DecodedMcu(scan, g.part[0], vals)
  {
    ghost var p := McuProgress(scan, [], NoLimits(scan), ALL_NEEDED, vals, g.last, g.t, [], 0, dec.lastDcVal, g.last, vals);
    ghost var bits, last, run := dec.Ahead(), dec.lastDcVal, dec.eobrun;
    if on {
      p := SequentialBegins(g, last, run, bits, vals);
    }
    ok, p := dec.DecodeMcu(scan, NoLimits(scan), blocks, p, on);
    after := p.after;
    if on {
      if ok {
        SequentialDone(g, last, run, bits, vals, after, dec.lastDcVal);
      } else {
        BrokenSequential(p);
      }
    }
  }

  lemma SequentialBegins(g: DecGoal, lastDc: seq<int>, run: nat, bits: seq<Bit>, vals: seq<seq<Jcoef>>)
    returns (p: McuProgress)
    requires AwaitsPart(g, lastDc, run, bits) && g.part != [] && !g.sc.progressive && McuWaiting(g.sc, g.part[0], vals)
    ensures |g.part[0]| == |g.sc.membership| && g.sc.Injective() && Fit(g.sc, g.part)
    ensures p == McuProgress(g.sc, g.part[0], NoLimits(g.sc), ALL_NEEDED, vals, g.last, g.t, PartRest(g), 0, lastDc, g.last,
                             vals)
    ensures Progress(p, bits) && McuReady(g.sc, g.part[0], vals)
  {
    PartHead(g, lastDc, run, bits);
    p := McuProgress(g.sc, g.part[0], NoLimits(g.sc), ALL_NEEDED, vals, g.last, g.t, PartRest(g), 0, lastDc, g.last, vals);
    ProgressStarts(p, bits);
  }

  lemma SequentialDone(g: DecGoal, lastDc: seq<int>, run: nat, bits: seq<Bit>, vals: seq<seq<Jcoef>>, after: seq<seq<Jcoef>>,
                       lastDc1: seq<int>)
    requires AwaitsPart(g, lastDc, run, bits) && g.part != [] && !g.sc.progressive && McuWaiting(g.sc, g.part[0], vals)
    requires McuKept(g.sc, g.part[0], NoLimits(g.sc), vals, after, |g.part[0]|) && |g.part[0]| == |g.sc.membership|
    requires LastAgrees(lastDc1, LastAfter(g.sc, g.last, g.sc.membership, g.part[0]), ALL_NEEDED)
    ensures Fit(g.sc, g.part) && AwaitsPart(NextGoal(g), lastDc1, run, PartRest(g))
    ensures after == DecodedMcu(g.sc, g.part[0], vals)
  {
    AllBlocksKept(g.sc, g.part[0], vals, after);
    PartHead(g, lastDc, run, bits);
    PartStepDc(g, lastDc, run, bits, run);
    AllAgree(lastDc1, NextGoal(g).last);
  }

  lemma AllAgree(a: seq<int>, b: DcValues)
    requires LastAgrees(a, b, ALL_NEEDED)
    ensures a == b
  {
    forall ci: Component
      ensures a[ci] == b[ci]
    {
      assert ALL_NEEDED[ci];
    }
  }

  method DecodeProgressiveDc(dec: HuffDecoder, scan: HuffScan, blocks: seq<array<Jcoef>>,
                             ghost g: DecGoal, ghost vals: seq<seq<Jcoef>>, ghost on: bool)
    returns (ok: bool, ghost after: seq<seq<Jcoef>>)
    requires dec.Valid() && DistinctNow(blocks) && IsProgressiveDc(scan) && |blocks| == |scan.membership| && Hold(blocks, vals)
    requires on ==> dec.AllInverted(g.t) && g.sc == scan && g.part != [] && !dec.reader.insufficientData
                    && AwaitsPart(g, dec.lastDcVal, dec.eobrun, dec.Ahead()) && McuWaiting(scan, g.part[0], vals)
    modifies dec.reader`pos, dec.reader`getBuffer, dec.reader`bitsLeft, dec.reader`unreadMarker,
             dec.reader`insufficientData, dec`saved, dec`lastDcVal, blocks
    ensures dec.Valid() && (!ok ==> dec.reader.Starved()) && Hold(blocks, after)
    ensures !ok ==> dec.saved == old(dec.saved) && dec.lastDcVal == old(dec.lastDcVal) && dec.Ahead() == old(dec.Ahead())
                    && dec.reader.insufficientData == old(dec.reader.insufficientData)
    ensures old(dec.reader.insufficientData) && scan.Routine().DcFirst? ==>
              ok && after == vals && dec.saved == old(dec.saved) && dec.lastDcVal == old(dec.lastDcVal)
    ensures !ok && on ==> McuAgain(scan, g.part[0], vals, after)
    ensures ok && on ==> !dec.reader.insufficientData && |g.part[0]| == |scan.membership|
                         && AwaitsPart(NextGoal(g), dec.lastDcVal, dec.eobrun, dec.Ahead())
                         && |vals| == |g.part[0]| && McuWaiting(scan, g.part[0], vals)
                         && after == DecodedMcu(scan, g.part[0], vals)
  {
    ghost var p := DcProgress(scan, g.t, [], vals, [], g.last, 0, g.last, vals);
    if on {
      p := DcBegins(g, dec.lastDcVal, dec.eobrun, dec.Ahead(), vals);
    }
    ok, after := DecodeDcMcu(dec, scan, blocks, p, on);
  }

  lemma DcBegins(g: DecGoal, lastDc: seq<int>, run: nat, bits: seq<Bit>, vals: seq<seq<Jcoef>>) returns (p: DcProgress)
    requires AwaitsPart(g, lastDc, run, bits) && g.part != [] && IsProgressiveDc(g.sc) && McuWaiting(g.sc, g.part[0], vals)
    ensures |g.part[0]| == |g.sc.membership| && Fit(g.sc, g.part)
    ensures p == DcProgress(g.sc, g.t, g.part[0], vals, PartRest(g), NextGoal(g).last, 0, g.last, vals)
    ensures DcProgressed(p, lastDc, bits) && AwaitsPart(NextGoal(g), NextGoal(g).last, run, PartRest(g))
  {
    PartHead(g, lastDc, run, bits);
    PartStepDc(g, lastDc, run, bits, run);
    p := DcProgress(g.sc, g.t, g.part[0], vals, PartRest(g), NextGoal(g).last, 0, g.last, vals);
    DcStarts(p, lastDc, bits);
  }

  /** The MCU routine of a scan.  While the input holds what an encoder sent, every MCU is rebuilt; if
      the call is suspended, nothing has been lost, and the next call comes to the same result.  It is
      suspended only where too few bits are at hand.  Once zeros had to be supplied for a segment that
      is too short, the blocks of its other MCUs stay as they are. */
  method DecodeMcu(dec: HuffDecoder, scan: HuffScan, blocks: seq<array<Jcoef>>,
                   ghost g: DecGoal, ghost vals: seq<seq<Jcoef>>, ghost on: bool)
    returns (ok: bool, ghost after: seq<seq<Jcoef>>)
    requires dec.Valid() && Distinct(blocks) && |blocks| == |scan.membership| && Hold(blocks, vals)
    requires on ==> dec.AllInverted(g.t) && g.sc == scan && g.part != [] && !dec.reader.insufficientData
                    && AwaitsPart(g, dec.lastDcVal, dec.eobrun, dec.Ahead()) && McuWaiting(scan, g.part[0], vals)
    modifies dec.reader`pos, dec.reader`getBuffer, dec.reader`bitsLeft, dec.reader`unreadMarker,
             dec.reader`insufficientData, dec`saved, dec`lastDcVal, dec`eobrun, blocks
    ensures dec.Valid() && (!ok ==> dec.reader.Starved()) && Hold(blocks, after)
    ensures !ok ==> dec.saved == old(dec.saved) && dec.lastDcVal == old(dec.lastDcVal) && dec.eobrun == old(dec.eobrun)
                    && dec.Ahead() == old(dec.Ahead()) && dec.reader.insufficientData == old(dec.reader.insufficientData)
    ensures old(dec.reader.insufficientData) && !scan.Routine().DcRefine? ==>
              ok && after == vals && dec.saved == old(dec.saved) && dec.eobrun == old(dec.eobrun)
    ensures !ok && on ==> McuAgain(scan, g.part[0], vals, after)
    ensures ok && on ==> !dec.reader.insufficientData && |g.part[0]| == |scan.membership|
                         && AwaitsPart(NextGoal(g), dec.lastDcVal, dec.eobrun, dec.Ahead())
                         && |vals| == |g.part[0]| && McuWaiting(scan, g.part[0], vals)
                         && after == DecodedMcu(scan, g.part[0], vals)
  {
    assert DistinctUpTo(blocks, |blocks|) && blocks[..|blocks|] == blocks;
    if !scan.progressive {
      ok, after := DecodeSequentialMcu(dec, scan, blocks, g, vals, on);
    } else if scan.ss == 0 {
      ok, after := DecodeProgressiveDc(dec, scan, blocks, g, vals, on);
    } else {
      ok := DecodeAcMcu(dec, scan, blocks[0], g, on);
      after := [blocks[0][..]];
      if on {
        assert |vals| == 1 && Waiting(scan, g.part[0][0], vals[0]);
      }
    }
  }
}
