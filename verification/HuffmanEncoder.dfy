/** The Huffman entropy encoder (jchuff.c): output and gathering passes of sequential scans and of
    all four kinds of progressive scans. */
module HuffmanEncoder {
  import opened ArithTable
  import opened ArithModel
  import opened PointTransform
  import opened HuffmanDerived
  import opened BitStrings
  import opened BitSinkObject
  import opened HuffmanItems
  import opened Segments

  /** The statistics tables: how often each symbol has been used. */
  class SymbolCounts {
    const dc: array2<nat>
    const ac: array2<nat>
    ghost var seen: seq<Item>

    constructor ()
      ensures Valid() && seen == [] && fresh(dc) && fresh(ac)
    {
      dc, ac := new nat[NUM_HUFF_TBLS, 257]((_, _) => 0), new nat[NUM_HUFF_TBLS, 257]((_, _) => 0);
      seen := [];
      new;
      assert Matches(multiset(seen));
    }

    ghost predicate Matches(m: multiset<Item>)
      reads dc, ac
    {
      && dc != ac && dc.Length0 == ac.Length0 == NUM_HUFF_TBLS && dc.Length1 == ac.Length1 == 257
      && forall t: HuffNo, s: Byte :: dc[t, s] == m[DcSym(t, s)] && ac[t, s] == m[AcSym(t, s)]
    }

    /** The counts are those of the symbols seen (looked up only on demand). */
    ghost predicate Valid()
      reads this, dc, ac
    {
      forall m {:trigger Matches(m)} :: m == multiset(seen) ==> Matches(m)
    }

    method Count(it: Item)
      requires Valid()
      modifies this, dc, ac
      ensures Valid() && seen == old(seen) + [it]
    {
      assert Matches(multiset(seen));
      match it {
        case DcSym(tbl, sym) => dc[tbl, sym] := dc[tbl, sym] + 1;
        case AcSym(tbl, sym) => ac[tbl, sym] := ac[tbl, sym] + 1;
        case Extra(_, _) =>
      }
      seen := seen + [it];
      assert Matches(multiset(seen));
    }

    ghost method Pass(it: Item)
      requires Valid() && it.Extra?
      modifies this`seen
      ensures Valid() && seen == old(seen) + [it]
    {
      assert Matches(multiset(seen));
      seen := seen + [it];
      assert Matches(multiset(seen));
    }
  }

  function ItemSize(t: Tables, it: Item): nat {
    match it
    case DcSym(tbl, sym) => t.dc[tbl].ehufsi[sym]
    case AcSym(tbl, sym) => t.ac[tbl].ehufsi[sym]
    case Extra(_, n) => n
  }

  /** No code is longer than 16 bits. */
  ghost predicate ShortCodes(t: Tables) {
    forall it: Item {:trigger ItemSize(t, it)} :: !it.Extra? ==> ItemSize(t, it) <= 16
  }

  /** The scan codes AC coefficients of one component. */
  predicate IsAc(sc: Scan) {
    sc.Routine().AcFirst? || sc.Routine().AcRefine?
  }

  /** A segment: its bytes before stuffing, and what it stands for. */
  datatype Seg = Seg(data: seq<Byte>, items: seq<Item>)

  /** The bytes hold the bits of the items, and up to 7 ones behind them. */
  ghost predicate Carries(t: Tables, seg: Seg) {
    Padded(ItemsBits(t, seg.items), BytesBits(seg.data))
  }

  /** What an MCU will have coded, the predictions behind it, and whether its coefficients can be
      coded. */
  datatype McuGoal = McuGoal(items: seq<Item>, last: DcValues, inRange: bool)

  /** From block j on, the goal is reached. */
  ghost predicate LeadsToNow(scan: HuffScan, j: nat, zs: Mcu, items: seq<Item>, last: DcValues, goal: McuGoal, n: nat) {
    && n == 0 && j <= |zs| == |scan.membership|
    && goal == McuGoal(items + McuItems(scan, last, scan.membership[j..], zs[j..]),
                       LastAfter(scan, last, scan.membership[j..], zs[j..]),
                       McuInRange(scan, last, scan.membership[j..], zs[j..]))
  }

  ghost predicate LeadsTo(scan: HuffScan, j: nat, zs: Mcu, items: seq<Item>, last: DcValues, goal: McuGoal) {
    forall n {:trigger LeadsToNow(scan, j, zs, items, last, goal, n)} :: n == 0 ==>
      LeadsToNow(scan, j, zs, items, last, goal, n)
  }

  lemma LeadsFirst(scan: HuffScan, zs: Mcu, items: seq<Item>, last: DcValues, goal: McuGoal)
    requires |zs| == |scan.membership|
    requires goal == McuGoal(items + McuItems(scan, last, scan.membership, zs), LastAfter(scan, last, scan.membership, zs),
                             McuInRange(scan, last, scan.membership, zs))
    ensures LeadsTo(scan, 0, zs, items, last, goal)
  {
    assert scan.membership[0..] == scan.membership && zs[0..] == zs;
    assert LeadsToNow(scan, 0, zs, items, last, goal, 0);
  }

  lemma LeadsLast(scan: HuffScan, zs: Mcu, items: seq<Item>, last: DcValues, goal: McuGoal)
    requires LeadsTo(scan, |zs|, zs, items, last, goal)
    ensures goal == McuGoal(items, last, true)
  {
    assert LeadsToNow(scan, |zs|, zs, items, last, goal, 0);
    assert items + [] == items;
  }

  class HuffEncoder {
    const sink: BitSink
    const counts: SymbolCounts
    const tables: Tables
    const gather: bool            // only gather statistics
    var badCode: bool             // a symbol without a code was needed (JERR_HUFF_MISSING_CODE)
    var badCoef: bool             // a coefficient was out of range (JERR_BAD_DCT_COEF)
    const acTbl: HuffNo
    var eobrun: nat               // ends of band not yet sent
    var be: nat                   // correction bits not yet sent
    const bitBuffer: array<Bit>
    var lastDcVal: DcValues
    ghost var items: seq<Item>    // everything coded in the open segment
    ghost var earlier: seq<Item>  // everything coded in the segments before it
    ghost var sent: seq<Byte>     // what had been sent before the open segment

    constructor (sink: BitSink, counts: SymbolCounts, tables: Tables, gather: bool, acTbl: HuffNo)
      requires sink.Valid() && sink.trace == [] && counts.Valid() && counts.seen == [] && ShortCodes(tables)
      ensures Valid() && items == earlier == [] && sent == sink.closed && eobrun == be == 0 && !badCode && !badCoef
      ensures this.sink == sink && this.counts == counts && this.tables == tables && this.gather == gather
      ensures this.acTbl == acTbl && fresh(bitBuffer) && lastDcVal == [0, 0, 0, 0]
    {
      this.sink, this.counts, this.tables, this.gather, this.acTbl := sink, counts, tables, gather, acTbl;
      badCode, badCoef, eobrun, be, lastDcVal := false, false, 0, 0, [0, 0, 0, 0];
      bitBuffer := new Bit[MAX_CORR_BITS];
      items, earlier, sent := [], [], sink.closed;
      new;
      assert CodedAs([]);
    }

    ghost predicate CodedAs(its: seq<Item>)
      reads this`badCode, this`earlier, this`sent, sink, counts, counts.dc, counts.ac
    {
      && sink.Valid() && sink.closed == sent && counts.Valid() && ShortCodes(tables) && AllUsable(earlier + its)
      && (if gather then counts.seen == earlier + its && !badCode
          else sink.trace == ItemsBits(tables, its) && (badCode <==> !HaveCodes(tables, earlier + its)))
    }

    /** The output, or the statistics, are those of the items (unfolded only on demand). */
    ghost predicate Valid()
      reads this`badCode, this`items, this`earlier, this`sent, sink, counts, counts.dc, counts.ac
    {
      && bitBuffer.Length == MAX_CORR_BITS
      && forall its {:trigger CodedAs(its)} :: its == items ==> CodedAs(its)
    }

    /** Emit (or just count) a Huffman symbol, or emit extra bits unless in gather mode. */
    method Emit(it: Item)
      requires Valid() && Usable(it) && (it.Extra? ==> 1 <= it.n <= 16)
      modifies sink, counts, counts.dc, counts.ac, this`badCode, this`items
      ensures Valid() && items == old(items) + [it]
    {
      assert CodedAs(items);
      ItemsAssoc(earlier, items, [it]);
      MoreUsable(earlier + items, it);
      if gather {
        counts.Count(it);
      } else {
        Output(it);
      }
      items := items + [it];
      assert CodedAs(items);
    }

    method Output(it: Item)
      requires CodedAs(items) && !gather && (it.Extra? ==> 1 <= it.n <= 16)
      modifies sink, this`badCode
      ensures sink.Valid() && sink.closed == sent && sink.trace == ItemsBits(tables, items + [it])
      ensures badCode <==> !HaveCodes(tables, earlier + items + [it])
    {
      SnocBits(tables, items, it);
      SnocBits(tables, earlier + items, it);
      assert ItemSize(tables, it) <= 16;
      var ok;
      match it {
        case DcSym(tbl, sym) => ok := sink.EmitBits(tables.dc[tbl].ehufco[sym], tables.dc[tbl].ehufsi[sym]);
        case AcSym(tbl, sym) => ok := sink.EmitBits(tables.ac[tbl].ehufco[sym], tables.ac[tbl].ehufsi[sym]);
        case Extra(v, n) => ok := sink.EmitBits(v, n);
      }
      badCode := badCode || !ok;
    }

    // ---------------------------------------------------------------- values

    /** The loop that finds the number of bits of a magnitude. */
    method BitLength(w: nat) returns (nbits: nat)
      ensures nbits == BitLen(w)
    {
      nbits := 0;
      var temp: nat := w;
      while temp != 0
        invariant nbits + BitLen(temp) == BitLen(w)
        decreases temp
      {
        nbits := nbits + 1;
        temp := temp / 2;
      }
    }

    /** Section F.1.2.1: a DC difference. */
    method EncodeDcDiff(tbl: HuffNo, diff: int)
      requires Valid() && Abs(diff) <= 0x8000
      modifies sink, counts, counts.dc, counts.ac, this`badCode, this`badCoef, this`items
      ensures Valid() && badCoef == (old(badCoef) || BitLen(Abs(diff)) > MAX_COEF_BITS + 1)
      ensures !badCoef ==> items == old(items) + DcItems(tbl, diff)
    {
      ghost var before := items;
      var nbits := BitLength(Abs(diff));
      if nbits > MAX_COEF_BITS + 1 {
        badCoef := true;
        return;
      }
      Emit(DcSym(tbl, nbits));
      if nbits != 0 {
        ExtendInverts(diff);
        Emit(Extra(Complement(diff, nbits), nbits));
        ItemsAssoc(before, [DcSym(tbl, nbits)], [Extra(Complement(diff, nbits), nbits)]);
      }
    }

    /** ZRL codes, and the symbol and extra bits of a coefficient that is not zero. */
    method EncodeRun(tbl: HuffNo, r0: nat, v: int)
      requires Valid() && v != 0 && BitLen(Abs(v)) <= 15
      modifies sink, counts, counts.dc, counts.ac, this`badCode, this`badCoef, this`items
      ensures Valid() && badCoef == (old(badCoef) || BitLen(Abs(v)) > MAX_COEF_BITS)
      ensures !badCoef ==> items == old(items) + RunItems(tbl, r0, v)
    {
      ghost var before := items;
      var r := EncodeZrls(tbl, r0);
      var nbits := BitLength(Abs(v));
      if nbits > MAX_COEF_BITS {
        badCoef := true;
        return;
      }
      ExtendInverts(v);
      RunSymbol(tbl, r, nbits);
      Emit(AcSym(tbl, r * 16 + nbits));
      Emit(Extra(Complement(v, nbits), nbits));
      TwoMore(before, Zrls(tbl, r0), AcSym(tbl, r * 16 + nbits), Extra(Complement(v, nbits), nbits));
    }

    /** while (r > 15) { emit ZRL; r -= 16; } */
    method EncodeZrls(tbl: HuffNo, r0: nat) returns (r: nat)
      requires Valid()
      modifies sink, counts, counts.dc, counts.ac, this`badCode, this`items
      ensures Valid() && items == old(items) + Zrls(tbl, r0) && r == r0 % 16
    {
      ghost var goal := items + Zrls(tbl, r0);
      r := r0;
      while r > 15
        invariant Valid() && items + Zrls(tbl, r) == goal && r % 16 == r0 % 16
        decreases r
      {
        ItemsAssoc(items, [AcSym(tbl, 0xF0)], Zrls(tbl, r - 16));
        Emit(AcSym(tbl, 0xF0));
        r := r - 16;
      }
      assert items + [] == items;
    }

    // ---------------------------------------------------------------- sequential scans

    /** Section F.1.2.2: the AC coefficients of a block in a sequential scan. */
    method EncodeSequentialAc(tbl: HuffNo, scan: Scan, block: array<Coef>)
      requires Valid() && block.Length == 64
      modifies sink, counts, counts.dc, counts.ac, this`badCode, this`badCoef, this`items
      ensures Valid() && badCoef == (old(badCoef) || !InRange(ZigZag(scan, old(block[..])), 0, 1, scan.limSe))
      ensures !badCoef ==> items == old(items) + SequentialAc(tbl, ZigZag(scan, old(block[..])), scan.limSe)
    {
      ghost var z := ZigZag(scan, block[..]);
      ghost var all := FirstItems(tbl, z, 0, 1, scan.limSe, 0);
      ghost var goal := items + SequentialAc(tbl, z, scan.limSe);
      var r: nat := 0;
      var k: nat := 1;
      while k <= scan.limSe
        invariant Valid() && badCoef == old(badCoef) && 1 <= k <= scan.limSe + 1 && z == ZigZag(scan, block[..])
        invariant items + WithEob(tbl, FirstItems(tbl, z, 0, k, scan.limSe, r)) == goal
        invariant InRange(z, 0, 1, scan.limSe) == InRange(z, 0, k, scan.limSe)
      {
        var v := block[scan.order[k]];
        assert v == z[k] == Trunc(z[k], 0);
        if v == 0 {
          r := r + 1;
        } else {
          CoefLen(z[k], 0);
          WithEobBefore(tbl, items, RunItems(tbl, r, v), FirstItems(tbl, z, 0, k + 1, scan.limSe, 0));
          EncodeRun(tbl, r, v);
          if badCoef {
            return;
          }
          r := 0;
        }
        k := k + 1;
      }
      if r > 0 {
        Emit(AcSym(tbl, 0));
      }
    }

    /** encode_one_block */
    method EncodeOneBlock(dcTbl: HuffNo, tbl: HuffNo, scan: Scan, block: array<Coef>, lastDcVal: Coef)
      requires Valid() && block.Length == 64 && scan.Routine().Sequential?
      modifies sink, counts, counts.dc, counts.ac, this`badCode, this`badCoef, this`items
      ensures Valid() && badCoef == (old(badCoef) || !BlockInRange(scan, lastDcVal, ZigZag(scan, old(block[..]))))
      ensures !badCoef ==> items == old(items) + BlockItems(dcTbl, tbl, scan, lastDcVal, ZigZag(scan, old(block[..])))
    {
      ghost var before, z := items, ZigZag(scan, block[..]);
      EncodeDcDiff(dcTbl, block[0] - lastDcVal);
      if badCoef {
        return;
      }
      EncodeSequentialAc(tbl, scan, block);
      ItemsAssoc(before, DcItems(dcTbl, z[0] - lastDcVal), SequentialAc(tbl, z, scan.limSe));
    }

    /** A symbol is only counted; the bits that an output pass sends after it are passed over. */
    method CountOnly(sym: Item, ghost extra: seq<Item>)
      requires Valid() && gather && !sym.Extra? && Usable(sym) && (extra == [] || (|extra| == 1 && extra[0].Extra?))
      modifies counts, counts.dc, counts.ac, this`items
      ensures Valid() && items == old(items) + [sym] + extra
    {
      CountOne(sym);
      if extra != [] {
        PassOver(extra[0]);
        assert [extra[0]] == extra;
      }
    }

    method CountOne(sym: Item)
      requires Valid() && gather && !sym.Extra? && Usable(sym)
      modifies counts, counts.dc, counts.ac, this`items
      ensures Valid() && items == old(items) + [sym]
    {
      assert CodedAs(items);
      ItemsAssoc(earlier, items, [sym]);
      MoreUsable(earlier + items, sym);
      counts.Count(sym);
      items := items + [sym];
      assert CodedAs(items);
    }

    ghost method PassOver(it: Item)
      requires Valid() && gather && it.Extra?
      modifies counts`seen, this`items
      ensures Valid() && items == old(items) + [it]
    {
      assert CodedAs(items);
      ItemsAssoc(earlier, items, [it]);
      MoreUsable(earlier + items, it);
      counts.Pass(it);
      items := items + [it];
      assert CodedAs(items);
    }

    /** htest_one_block: counts what encode_one_block sends. */
    method HtestOneBlock(dcTbl: HuffNo, tbl: HuffNo, scan: Scan, block: array<Coef>, lastDcVal: Coef)
      requires Valid() && gather && block.Length == 64 && scan.Routine().Sequential?
      modifies counts, counts.dc, counts.ac, this`badCoef, this`items
      ensures Valid() && badCoef == (old(badCoef) || !BlockInRange(scan, lastDcVal, ZigZag(scan, old(block[..]))))
      ensures !badCoef ==> items == old(items) + BlockItems(dcTbl, tbl, scan, lastDcVal, ZigZag(scan, old(block[..])))
    {
      ghost var before, z := items, ZigZag(scan, block[..]);
      var ok := HtestDc(dcTbl, block[0] - lastDcVal);
      if ok {
        HtestAc(tbl, scan, block);
        ItemsAssoc(before, DcItems(dcTbl, z[0] - lastDcVal), SequentialAc(tbl, z, scan.limSe));
      } else {
        badCoef := true;
      }
    }

    /** The DC part; it fails if the difference is out of range. */
    method HtestDc(dcTbl: HuffNo, diff: int) returns (ok: bool)
      requires Valid() && gather && Abs(diff) <= 0x8000
      modifies counts, counts.dc, counts.ac, this`items
      ensures Valid() && (ok <==> BitLen(Abs(diff)) <= MAX_COEF_BITS + 1)
      ensures items == old(items) + if ok then DcItems(dcTbl, diff) else []
    {
      var nbits := BitLength(Abs(diff));
      ok := nbits <= MAX_COEF_BITS + 1;
      if ok {
        ExtendInverts(if diff == 0 then 1 else diff);
        ghost var before := items;
        CountOnly(DcSym(dcTbl, nbits), if nbits == 0 then [] else [Extra(Complement(diff, nbits), nbits)]);
        ItemsAssoc(before, [DcSym(dcTbl, nbits)], if nbits == 0 then [] else [Extra(Complement(diff, nbits), nbits)]);
      }
    }

    method HtestAc(tbl: HuffNo, scan: Scan, block: array<Coef>)
      requires Valid() && gather && block.Length == 64
      modifies counts, counts.dc, counts.ac, this`badCoef, this`items
      ensures Valid() && badCoef == (old(badCoef) || !InRange(ZigZag(scan, old(block[..])), 0, 1, scan.limSe))
      ensures !badCoef ==> items == old(items) + SequentialAc(tbl, ZigZag(scan, old(block[..])), scan.limSe)
    {
      ghost var z := ZigZag(scan, block[..]);
      ghost var goal := items + SequentialAc(tbl, z, scan.limSe);
      var r: nat := 0;
      var k: nat := 1;
      while k <= scan.limSe
        invariant Valid() && badCoef == old(badCoef) && 1 <= k <= scan.limSe + 1 && z == ZigZag(scan, block[..])
        invariant items + WithEob(tbl, FirstItems(tbl, z, 0, k, scan.limSe, r)) == goal
        invariant InRange(z, 0, 1, scan.limSe) == InRange(z, 0, k, scan.limSe)
      {
        var temp := block[scan.order[k]];
        assert temp == z[k] == Trunc(z[k], 0);
        if temp == 0 {
          r := r + 1;
        } else {
          CoefLen(z[k], 0);
          WithEobBefore(tbl, items, RunItems(tbl, r, temp), FirstItems(tbl, z, 0, k + 1, scan.limSe, 0));
          HtestRun(tbl, r, temp);
          if badCoef {
            return;
          }
          r := 0;
        }
        k := k + 1;
      }
      if r > 0 {
        CountOnly(AcSym(tbl, 0), []);
        assert items + [] == items;
      }
    }

    method HtestRun(tbl: HuffNo, r0: nat, v: int)
      requires Valid() && gather && v != 0 && BitLen(Abs(v)) <= 15
      modifies counts, counts.dc, counts.ac, this`badCoef, this`items
      ensures Valid() && badCoef == (old(badCoef) || BitLen(Abs(v)) > MAX_COEF_BITS)
      ensures !badCoef ==> items == old(items) + RunItems(tbl, r0, v)
    {
      ghost var before := items;
      var r := HtestZrls(tbl, r0);
      var nbits := BitLength(Abs(v));
      if nbits > MAX_COEF_BITS {
        badCoef := true;
        return;
      }
      ExtendInverts(v);
      RunSymbol(tbl, r, nbits);
      CountOnly(AcSym(tbl, r * 16 + nbits), [Extra(Complement(v, nbits), nbits)]);
      RunCounted(before, tbl, r0, v);
    }

    method HtestZrls(tbl: HuffNo, r0: nat) returns (r: nat)
      requires Valid() && gather
      modifies counts, counts.dc, counts.ac, this`items
      ensures Valid() && items == old(items) + Zrls(tbl, r0) && r == r0 % 16
    {
      ghost var goal := items + Zrls(tbl, r0);
      r := r0;
      while r > 15
        invariant Valid() && items + Zrls(tbl, r) == goal && r % 16 == r0 % 16
        decreases r
      {
        ItemsAssoc(items, [AcSym(tbl, 0xF0)], Zrls(tbl, r - 16));
        assert items + [AcSym(tbl, 0xF0)] + [] == items + [AcSym(tbl, 0xF0)];
        CountOnly(AcSym(tbl, 0xF0), []);
        r := r - 16;
      }
      assert items + [] == items;
    }

    /** The blocks hold the MCU zs. */
    ghost predicate Shows(scan: Scan, blocks: seq<array<Coef>>, zs: Mcu)
      reads blocks
    {
      && |blocks| == |scan.membership| == |zs|
      && forall j :: 0 <= j < |blocks| ==> blocks[j].Length == 64 && zs[j] == ZigZag(scan, blocks[j][..])
    }

    /** encode_mcu_huff, encode_mcu_gather, encode_mcu_DC_first or encode_mcu_DC_refine: the blocks of
        an MCU, coded or counted. */
    method EncodeBlocks(scan: HuffScan, blocks: seq<array<Coef>>, ghost zs: Mcu)
      requires Valid() && Shows(scan, blocks, zs) && !badCoef && !IsAc(scan)
      modifies sink, counts, counts.dc, counts.ac, this`badCode, this`badCoef, this`items, this`lastDcVal
      ensures Valid() && badCoef == !McuInRange(scan, old(lastDcVal), scan.membership, zs)
      ensures !badCoef ==> items == old(items) + McuItems(scan, old(lastDcVal), scan.membership, zs)
                           && lastDcVal == LastAfter(scan, old(lastDcVal), scan.membership, zs)
    {
      ghost var goal := McuGoal(items + McuItems(scan, lastDcVal, scan.membership, zs),
                                LastAfter(scan, lastDcVal, scan.membership, zs),
                                McuInRange(scan, lastDcVal, scan.membership, zs));
      LeadsFirst(scan, zs, items, lastDcVal, goal);
      var j: nat := 0;
      while j < |blocks|
        invariant Valid() && Shows(scan, blocks, zs) && j <= |blocks| && !badCoef
        invariant LeadsTo(scan, j, zs, items, lastDcVal, goal)
      {
        EncodeBlockAt(scan, j, blocks[j], zs, goal);
        if badCoef {
          return;
        }
        j := j + 1;
      }
      LeadsLast(scan, zs, items, lastDcVal, goal);
    }

    method EncodeBlockAt(scan: HuffScan, j: nat, block: array<Coef>, ghost zs: Mcu, ghost goal: McuGoal)
      requires Valid() && j < |zs| == |scan.membership| && block.Length == 64 && zs[j] == ZigZag(scan, block[..]) && !badCoef
      requires !IsAc(scan) && LeadsTo(scan, j, zs, items, lastDcVal, goal)
      modifies sink, counts, counts.dc, counts.ac, this`badCode, this`badCoef, this`items, this`lastDcVal
      ensures Valid() && (badCoef ==> !goal.inRange)
      ensures !badCoef ==> LeadsTo(scan, j + 1, zs, items, lastDcVal, goal)
    {
      var ci := scan.membership[j];
      ghost var before, last := items, lastDcVal;
      assert LeadsToNow(scan, j, zs, items, lastDcVal, goal, 0);
      assert scan.membership[j..][1..] == scan.membership[j + 1..] && zs[j..][1..] == zs[j + 1..];
      EncodeBlock(scan, ci, block, zs[j]);
      if badCoef {
        return;
      }
      ItemsAssoc(before, BlockItems(DcNo(scan, ci), AcNo(scan, ci), scan, last[ci], zs[j]),
                 McuItems(scan, lastDcVal, scan.membership[j + 1..], zs[j + 1..]));
      assert LeadsToNow(scan, j + 1, zs, items, lastDcVal, goal, 0);
    }

    /** A block of component ci. */
    method EncodeBlock(scan: HuffScan, ci: Component, block: array<Coef>, ghost z: ZBlock)
      requires Valid() && block.Length == 64 && z == ZigZag(scan, block[..]) && !badCoef && !IsAc(scan)
      modifies sink, counts, counts.dc, counts.ac, this`badCode, this`badCoef, this`items, this`lastDcVal
      ensures Valid() && badCoef == !BlockInRange(scan, old(lastDcVal[ci]), z)
      ensures !badCoef ==> items == old(items) + BlockItems(DcNo(scan, ci), AcNo(scan, ci), scan, old(lastDcVal[ci]), z)
                           && lastDcVal == NextLast(scan, old(lastDcVal), ci, z)
    {
      assert z[0] == block[0];
      match scan.Routine() {
        case Sequential =>
          if gather {
            HtestOneBlock(DcNo(scan, ci), AcNo(scan, ci), scan, block, lastDcVal[ci]);
          } else {
            EncodeOneBlock(DcNo(scan, ci), AcNo(scan, ci), scan, block, lastDcVal[ci]);
          }
          lastDcVal := lastDcVal[ci := block[0]];
        case DcFirst =>
          ShrLegal(block[0], scan.al);
          var value := Shr(block[0], scan.al);
          EncodeDcDiff(DcNo(scan, ci), value - lastDcVal[ci]);
          lastDcVal := lastDcVal[ci := value];
        case DcRefine =>
          Emit(Extra(Shr(block[0], scan.al) % 2, 1));
        case AcFirst => assert false;
        case AcRefine => assert false;
      }
    }

    // ---------------------------------------------------------------- ends of band

    /** No end of band, no correction bits; and neither the counter nor the buffer overflows while
        another band is coded. */
    ghost predicate RunOk()
      reads this
    {
      eobrun < 0x7FFF && be <= MAX_CORR_BITS - 64 + 1 && (eobrun == 0 ==> be == 0)
    }

    ghost function CorrBits(): seq<Bit>
      requires be <= bitBuffer.Length
      reads this, bitBuffer
    {
      bitBuffer[..be]
    }

    /** emit_buffered_bits: n bits of the buffer from position start on. */
    method EmitBufferedBits(start: nat, n: nat)
      requires Valid() && start + n <= bitBuffer.Length
      modifies sink, counts, counts.dc, counts.ac, this`badCode, this`items
      ensures Valid() && items == old(items) + BitItems(bitBuffer[start..start + n])
    {
      ghost var bits := bitBuffer[start..start + n];
      ghost var goal := items + BitItems(bits);
      for i := 0 to n
        invariant Valid() && items + BitItems(bits[i..]) == goal
      {
        assert bits[i..][1..] == bits[i + 1..];
        ItemsAssoc(items, [Extra(bits[i], 1)], BitItems(bits[i + 1..]));
        Emit(Extra(bitBuffer[start + i], 1));
      }
      assert items + [] == items;
    }

    /** emit_eobrun */
    method EmitEobrun()
      requires Valid() && eobrun <= 0x7FFF && be <= bitBuffer.Length && (eobrun == 0 ==> be == 0)
      modifies sink, counts, counts.dc, counts.ac, this`badCode, this`items, this`eobrun, this`be
      ensures Valid() && eobrun == be == 0
      ensures items == old(items) + EobItems(acTbl, old(eobrun), old(CorrBits()))
    {
      if eobrun > 0 {
        ghost var before, head := items, EobHead(acTbl, eobrun);
        EmitRunLength();
        eobrun := 0;
        EmitBufferedBits(0, be);
        ItemsAssoc(before, head, BitItems(bitBuffer[..be]));
        be := 0;
      } else {
        assert items + [] == items;
      }
    }

    method EmitRunLength()
      requires Valid() && 0 < eobrun <= 0x7FFF
      modifies sink, counts, counts.dc, counts.ac, this`badCode, this`items
      ensures Valid() && items == old(items) + EobHead(acTbl, eobrun)
    {
      ghost var before := items;
      var nbits := Log2Of(eobrun);
      RunLog2(eobrun);
      Emit(AcSym(acTbl, nbits * 16));
      if nbits != 0 {
        Emit(Extra(eobrun, nbits));
        ItemsAssoc(before, [AcSym(acTbl, nbits * 16)], [Extra(eobrun, nbits)]);
      } else {
        assert [AcSym(acTbl, 0)] + [] == [AcSym(acTbl, 0)];
      }
    }

    method Log2Of(x: nat) returns (nbits: nat)
      ensures nbits == Log2(x)
    {
      var temp: nat := x / 2;
      nbits := 0;
      while temp != 0
        invariant Log2(x) == if temp == 0 then nbits else nbits + 1 + Log2(temp)
        decreases temp
      {
        temp := temp / 2;
        nbits := nbits + 1;
      }
    }

    // ---------------------------------------------------------------- ends of segments

    /** flush_bits, in an output pass. */
    method Flush() returns (ghost seg: Seg)
      requires Valid()
      modifies sink
      ensures gather ==> Valid() && sink.dest == old(sink.dest)
      ensures !gather ==> bitBuffer.Length == MAX_CORR_BITS
      ensures sink.closed == sent && seg.items == items
      ensures !gather ==> sink.putBits == sink.putBuffer == 0 && sink.dest == sink.closed + Stuff(seg.data)
                          && Carries(tables, seg)
      ensures counts.Valid() && ShortCodes(tables) && AllUsable(earlier + items)
      ensures if gather then counts.seen == earlier + items && !badCode
              else badCode <==> !HaveCodes(tables, earlier + items)
    {
      assert CodedAs(items);
      seg := Seg([], items);
      if !gather {
        sink.FlushBits();
        seg := Seg(sink.data, items);
      } else {
        assert CodedAs(items);
      }
    }

    /** Flushes the bit buffer and writes a restart marker; a gathering pass does neither. */
    method EmitMarker(num: RestartNum) returns (ghost seg: Seg)
      requires Valid()
      modifies sink, this`items, this`earlier, this`sent
      ensures Valid() && items == [] && earlier == old(earlier) + old(items) && seg.items == old(items)
      ensures !gather ==> sent == old(sent) + Stuff(seg.data) + [0xFF, RST0 + num]
                          && Carries(tables, seg)
    {
      seg := Flush();
      if !gather {
        WriteMarker(num);
      } else {
        assert CodedAs(items);
      }
      Reopen();
    }

    /** Everything has been coded, and the next segment can begin. */
    ghost predicate Closed(all: seq<Item>)
      reads this`badCode, this`sent, sink, counts, counts.dc, counts.ac
    {
      && sink.Valid() && counts.Valid() && ShortCodes(tables) && AllUsable(all)
      && (if gather then counts.seen == all && !badCode else sink.trace == [] && (badCode <==> !HaveCodes(tables, all)))
    }

    /** Nothing has been coded yet behind the marker. */
    ghost method Reopen()
      requires bitBuffer.Length == MAX_CORR_BITS && Closed(earlier + items)
      modifies this`items, this`earlier, this`sent
      ensures Valid() && items == [] && earlier == old(earlier) + old(items) && sent == sink.closed
    {
      ghost var all := earlier + items;
      earlier, items, sent := all, [], sink.closed;
      assert earlier + [] == all;
      assert CodedAs([]);
    }

    method WriteMarker(num: RestartNum)
      requires sink.putBits == sink.putBuffer == 0
      modifies sink
      ensures sink.Valid() && sink.trace == [] && sink.closed == old(sink.dest) + [0xFF, RST0 + num]
    {
      sink.EmitRaw(0xFF);
      sink.EmitRaw(RST0 + num);
      sink.Open();
    }

    // ---------------------------------------------------------------- progressive AC scans

    /** What the scan will have coded, if band b and the bands bs follow. */
    ghost function Promised(b: BandItems, bs: seq<BandItems>): seq<Item>
      requires be <= bitBuffer.Length
      reads this, bitBuffer
    {
      items + Coming(acTbl, [b] + bs, eobrun, CorrBits())
    }

    /** A coefficient of a first scan: sends the run of ends of band, if any, and its own items. */
    method EncodeFirstCoef(r: nat, v: int, ghost b: BandItems, ghost bs: seq<BandItems>)
      requires Valid() && RunOk() && v != 0 && BitLen(Abs(v)) <= 15
      modifies sink, counts, counts.dc, counts.ac, this`badCode, this`badCoef, this`items, this`eobrun, this`be
      ensures Valid() && RunOk() && badCoef == (old(badCoef) || BitLen(Abs(v)) > MAX_COEF_BITS)
      ensures !badCoef ==> Promised(b, bs) == old(Promised(Before(RunItems(acTbl, r, v), b), bs))
    {
      ghost var before, eob := items, EobItems(acTbl, eobrun, CorrBits());
      EventStep(acTbl, RunItems(acTbl, r, v), b, bs, eobrun, CorrBits());
      EmitEobrun();
      EncodeRun(acTbl, r, v);
      Regroup(before, eob, RunItems(acTbl, r, v), Coming(acTbl, [b] + bs, 0, []));
      assert CorrBits() == [];
    }

    /** The end of a band: one more in the run, which is sent if it might overflow. */
    method EncodeBandEnd(some: bool, br: nat, ghost tail: Option<seq<Bit>>, ghost bs: seq<BandItems>)
      requires Valid() && RunOk() && be + br <= bitBuffer.Length
      requires tail == if some then Some(bitBuffer[be..be + br]) else None
      modifies sink, counts, counts.dc, counts.ac, this`badCode, this`items, this`eobrun, this`be
      ensures Valid() && RunOk()
      ensures items + Coming(acTbl, bs, eobrun, CorrBits()) == old(Promised(BandItems([], tail), bs))
    {
      LastStep(acTbl, tail, bs, eobrun, CorrBits());
      if some {
        CountBandEnd(br, bs);
      }
    }

    /** Count an end of band, and force the run out if the counter or the bit buffer might overflow. */
    method CountBandEnd(br: nat, ghost bs: seq<BandItems>)
      requires Valid() && RunOk() && be + br <= bitBuffer.Length
      modifies sink, counts, counts.dc, counts.ac, this`badCode, this`items, this`eobrun, this`be
      ensures Valid() && RunOk()
      ensures items + Coming(acTbl, bs, eobrun, CorrBits())
           == old(items + AfterBand(acTbl, Some(bitBuffer[be..be + br]), bs, eobrun, CorrBits()))
    {
      BandCounted(acTbl, bitBuffer[be..be + br], bs, eobrun, CorrBits());
      assert bitBuffer[..be + br] == bitBuffer[..be] + bitBuffer[be..be + br];
      eobrun := eobrun + 1;
      be := be + br;
      if eobrun == 0x7FFF || be > MAX_CORR_BITS - 64 + 1 {
        ItemsAssoc(items, EobItems(acTbl, eobrun, CorrBits()), Coming(acTbl, bs, 0, []));
        EmitEobrun();
        assert CorrBits() == [];
      }
    }

    /** One coefficient of encode_mcu_AC_first. */
    method EncodeAcFirstStep(scan: Scan, v: int, r0: nat, k: nat, ghost z: ZBlock, ghost bs: seq<BandItems>)
      returns (r: nat)
      requires Valid() && RunOk() && k <= scan.se && v == Trunc(z[k], scan.al)
      modifies sink, counts, counts.dc, counts.ac, this`badCode, this`badCoef, this`items, this`eobrun, this`be
      ensures Valid() && RunOk()
      ensures badCoef == (old(badCoef) || BitLen(Abs(v)) > MAX_COEF_BITS)
      ensures var b0, b := FirstItems(acTbl, z, scan.al, k, scan.se, r0), FirstItems(acTbl, z, scan.al, k + 1, scan.se, r);
              !badCoef ==> Promised(b, bs) == old(Promised(b0, bs))
    {
      CoefLen(z[k], scan.al);
      if v == 0 {
        r := r0 + 1;
      } else {
        EncodeFirstCoef(r0, v, FirstItems(acTbl, z, scan.al, k + 1, scan.se, 0), bs);
        r := 0;
      }
    }

    /** encode_mcu_AC_first */
    method EncodeAcFirst(scan: Scan, block: array<Coef>, ghost bs: seq<BandItems>)
      requires Valid() && RunOk() && block.Length == 64 && scan.Routine().AcFirst?
      modifies sink, counts, counts.dc, counts.ac, this`badCode, this`badCoef, this`items, this`eobrun, this`be
      ensures Valid() && RunOk()
      ensures badCoef == (old(badCoef) || !InRange(ZigZag(scan, old(block[..])), scan.al, scan.ss, scan.se))
      ensures var b := FirstItems(acTbl, ZigZag(scan, old(block[..])), scan.al, scan.ss, scan.se, 0);
              !badCoef ==> items + Coming(acTbl, bs, eobrun, CorrBits()) == old(Promised(b, bs))
    {
      ghost var z := ZigZag(scan, block[..]);
      ghost var goal := Promised(FirstItems(acTbl, z, scan.al, scan.ss, scan.se, 0), bs);
      var r: nat := 0;
      var k: nat := scan.ss;
      while k <= scan.se
        invariant Valid() && RunOk() && badCoef == old(badCoef) && scan.ss <= k <= scan.se + 1 && z == ZigZag(scan, block[..])
        invariant Promised(FirstItems(acTbl, z, scan.al, k, scan.se, r), bs) == goal
        invariant InRange(z, scan.al, scan.ss, scan.se) == InRange(z, scan.al, k, scan.se)
      {
        r := EncodeAcFirstStep(scan, Trunc(block[scan.order[k]], scan.al), r, k, z, bs);
        if badCoef {
          return;
        }
        k := k + 1;
      }
      assert bitBuffer[be..be + 0] == [];
      EncodeBandEnd(r > 0, 0, if r > 0 then Some([]) else None, bs);
    }

    /** A symbol of a refinement scan: after the run of ends of band, if any, come the symbol, the
        sign of a new coefficient, and the correction bits that go with them. */
    method EncodeRefineEvent(sym: Byte, sign: Option<Bit>, base: nat, br: nat, ghost b: BandItems, ghost bs: seq<BandItems>)
      requires Valid() && RunOk() && base == be && base + br <= bitBuffer.Length && sym % 16 <= 10
      modifies sink, counts, counts.dc, counts.ac, this`badCode, this`items, this`eobrun, this`be
      ensures Valid() && eobrun == be == 0
      ensures Promised(b, bs) == old(Promised(Before(EventItems(acTbl, sym, sign, bitBuffer[base..base + br]), b), bs))
    {
      ghost var before, eob := items, EobItems(acTbl, eobrun, CorrBits());
      ghost var bits := bitBuffer[base..base + br];
      EventStep(acTbl, EventItems(acTbl, sym, sign, bits), b, bs, eobrun, CorrBits());
      EmitEobrun();
      EmitEventHead(sym, sign);
      EmitBufferedBits(base, br);
      ItemsAssoc(before + eob, EventHead(acTbl, sym, sign), BitItems(bits));
      Regroup(before, eob, EventItems(acTbl, sym, sign, bits), Coming(acTbl, [b] + bs, 0, []));
      assert CorrBits() == [];
    }

    method EmitEventHead(sym: Byte, sign: Option<Bit>)
      requires Valid() && sym % 16 <= 10
      modifies sink, counts, counts.dc, counts.ac, this`badCode, this`items
      ensures Valid() && items == old(items) + EventHead(acTbl, sym, sign)
    {
      ghost var before := items;
      Emit(AcSym(acTbl, sym));
      match sign {
        case None => assert [AcSym(acTbl, sym)] + [] == [AcSym(acTbl, sym)];
        case Some(s) =>
          Emit(Extra(s, 1));
          ItemsAssoc(before, [AcSym(acTbl, sym)], [Extra(s, 1)]);
      }
    }

    /** Where encode_mcu_AC_refine stands before coefficient k: r zeros and br correction bits have
        been passed since the last symbol. */
    ghost predicate Refining(z: ZBlock, al: nat, k: nat, ss: nat, se: Index, r: nat, base: nat, br: nat, eob: nat,
                             bs: seq<BandItems>, goal: seq<Item>)
      reads this, sink, counts, counts.dc, counts.ac, bitBuffer
    {
      && Valid() && RunOk() && base == be && 1 <= ss <= k <= se + 1 && br <= k - ss
      && Promised(RefineItems(acTbl, z, al, k, se, r, bitBuffer[base..base + br], eob), bs) == goal
    }

    /** while (r > 15 && k <= EOB): emit a ZRL code, with the correction bits passed so far. */
    method EncodeRefineZrls(k: nat, r0: nat, base0: nat, br0: nat, eob: nat, ghost z: ZBlock, ghost al: nat, ghost ss: nat,
                            ghost se: Index, ghost bs: seq<BandItems>, ghost goal: seq<Item>)
      returns (r: nat, base: nat, br: nat)
      requires Refining(z, al, k, ss, se, r0, base0, br0, eob, bs, goal) && k <= se && Trunc(z[k], al) != 0
      modifies sink, counts, counts.dc, counts.ac, this`badCode, this`items, this`eobrun, this`be
      ensures Refining(z, al, k, ss, se, r, base, br, eob, bs, goal) && (k <= eob ==> r <= 15)
    {
      r, base, br := r0, base0, br0;
      while r > 15 && k <= eob
        invariant Refining(z, al, k, ss, se, r, base, br, eob, bs, goal)
        decreases r
      {
        ZrlUnfolds(acTbl, z, al, k, se, r, bitBuffer[base..base + br], eob);
        EncodeRefineEvent(0xF0, None, base, br, RefineItems(acTbl, z, al, k, se, r - 16, [], eob), bs);
        r, base, br := r - 16, 0, 0;
        assert bitBuffer[0..0] == [];
      }
    }

    /** BR_buffer[BR++] = bit */
    method AppendBit(base: nat, br: nat, bit: Bit)
      requires base == be && base + br < bitBuffer.Length
      modifies bitBuffer
      ensures bitBuffer[base..base + br + 1] == old(bitBuffer[base..base + br]) + [bit]
      ensures bitBuffer[..be] == old(bitBuffer[..be])
    {
      bitBuffer[base + br] := bit;
    }

    /** One coefficient of encode_mcu_AC_refine; temp is its absolute value after the point
        transform. */
    method EncodeRefineStep(temp: nat, negative: bool, k: nat, r0: nat, base0: nat, br0: nat, eob: nat,
                            ghost z: ZBlock, ghost al: nat, ghost ss: nat, ghost se: Index, ghost bs: seq<BandItems>,
                            ghost goal: seq<Item>)
      returns (r: nat, base: nat, br: nat)
      requires Refining(z, al, k, ss, se, r0, base0, br0, eob, bs, goal) && k <= se
      requires temp == Abs(Trunc(z[k], al)) && negative == (Trunc(z[k], al) < 0) && (temp == 1 ==> k <= eob)
      modifies sink, counts, counts.dc, counts.ac, bitBuffer, this`badCode, this`items, this`eobrun, this`be
      ensures Refining(z, al, k + 1, ss, se, r, base, br, eob, bs, goal)
    {
      if temp == 0 {
        r, base, br := r0 + 1, base0, br0;
      } else {
        r, base, br := EncodeRefineZrls(k, r0, base0, br0, eob, z, al, ss, se, bs, goal);
        r, base, br := EncodeRefineNonzero(temp, negative, k, r, base, br, eob, z, al, ss, se, bs, goal);
      }
    }

    /** A correction bit is buffered; a new coefficient is sent. */
    method EncodeRefineNonzero(temp: nat, negative: bool, k: nat, r0: nat, base0: nat, br0: nat, eob: nat,
                               ghost z: ZBlock, ghost al: nat, ghost ss: nat, ghost se: Index, ghost bs: seq<BandItems>,
                               ghost goal: seq<Item>)
      returns (r: nat, base: nat, br: nat)
      requires Refining(z, al, k, ss, se, r0, base0, br0, eob, bs, goal) && k <= se
      requires temp == Abs(Trunc(z[k], al)) != 0 && negative == (Trunc(z[k], al) < 0)
      requires (k <= eob ==> r0 <= 15) && (temp == 1 ==> k <= eob)
      modifies sink, counts, counts.dc, counts.ac, bitBuffer, this`badCode, this`items, this`eobrun, this`be
      ensures Refining(z, al, k + 1, ss, se, r, base, br, eob, bs, goal)
    {
      r, base, br := r0, base0, br0;
      if temp > 1 {
        CorrectionUnfolds(acTbl, z, al, k, se, r, bitBuffer[base..base + br], eob);
        AppendBit(base, br, temp % 2);
        br := br + 1;
      } else {
        NewUnfolds(acTbl, z, al, k, se, r, bitBuffer[base..base + br], eob);
        EncodeRefineEvent(r * 16 + 1, Some(if negative then 0 else 1), base, br,
                          RefineItems(acTbl, z, al, k + 1, se, 0, [], eob), bs);
        r, base, br := 0, 0, 0;
        assert bitBuffer[0..0] == [];
      }
    }

    /** The pre-pass: absolute values after the point transform, and the last newly nonzero
        coefficient. */
    method AbsValues(scan: Scan, block: array<Coef>) returns (absvalues: array<nat>, eob: nat)
      requires block.Length == 64 && 1 <= scan.ss && scan.progressive
      ensures fresh(absvalues) && absvalues.Length == 64
      ensures var z := ZigZag(scan, block[..]);
              eob == LastNew(z, scan.al, scan.ss, scan.se)
              && forall k :: scan.ss <= k <= scan.se ==> absvalues[k] == Abs(Trunc(z[k], scan.al))
    {
      ghost var z := ZigZag(scan, block[..]);
      absvalues, eob := new nat[64](_ => 0), 0;
      var k: nat := scan.ss;
      while k <= scan.se
        invariant scan.ss <= k <= scan.se + 1
        invariant forall i :: scan.ss <= i < k ==> absvalues[i] == Abs(Trunc(z[i], scan.al))
        invariant LastNew(z, scan.al, scan.ss, scan.se) == Later(LastNew(z, scan.al, k, scan.se), eob)
      {
        var temp := Abs(Trunc(block[scan.order[k]], scan.al));
        assert temp == Abs(Trunc(z[k], scan.al));
        absvalues[k] := temp;
        if temp == 1 {
          eob := k;
        }
        k := k + 1;
      }
    }

    /** encode_mcu_AC_refine */
    method EncodeAcRefine(scan: Scan, block: array<Coef>, ghost bs: seq<BandItems>)
      requires Valid() && RunOk() && block.Length == 64 && scan.Routine().AcRefine?
      modifies sink, counts, counts.dc, counts.ac, bitBuffer, this`badCode, this`items, this`eobrun, this`be
      ensures Valid() && RunOk()
      ensures var z := ZigZag(scan, old(block[..]));
              items + Coming(acTbl, bs, eobrun, CorrBits())
                == old(Promised(RefineItems(acTbl, z, scan.al, scan.ss, scan.se, 0, [],
                                            LastNew(z, scan.al, scan.ss, scan.se)), bs))
    {
      ghost var z := ZigZag(scan, block[..]);
      var absvalues, eob := AbsValues(scan, block);
      ghost var goal := Promised(RefineItems(acTbl, z, scan.al, scan.ss, scan.se, 0, [], eob), bs);
      var r, base, br := EncodeRefineBand(scan, block, absvalues, eob, z, bs, goal);
      EncodeBandEnd(r > 0 || br > 0, br, if r > 0 || br > 0 then Some(bitBuffer[base..base + br]) else None, bs);
    }

    /** Figure G.7: the loop over the coefficients. */
    method EncodeRefineBand(scan: Scan, block: array<Coef>, absvalues: array<nat>, eob: nat,
                            ghost z: ZBlock, ghost bs: seq<BandItems>, ghost goal: seq<Item>)
      returns (r: nat, base: nat, br: nat)
      requires Valid() && RunOk() && block.Length == 64 && scan.Routine().AcRefine? && z == ZigZag(scan, block[..])
      requires absvalues.Length == 64 && eob == LastNew(z, scan.al, scan.ss, scan.se)
      requires forall i :: scan.ss <= i <= scan.se ==> absvalues[i] == Abs(Trunc(z[i], scan.al))
      requires goal == Promised(RefineItems(acTbl, z, scan.al, scan.ss, scan.se, 0, [], eob), bs)
      modifies sink, counts, counts.dc, counts.ac, bitBuffer, this`badCode, this`items, this`eobrun, this`be
      ensures Refining(z, scan.al, scan.se + 1, scan.ss, scan.se, r, base, br, eob, bs, goal)
    {
      r, base, br := 0, be, 0;
      var k: nat := scan.ss;
      assert bitBuffer[base..base] == [];
      while k <= scan.se
        invariant Refining(z, scan.al, k, scan.ss, scan.se, r, base, br, eob, bs, goal)
      {
        assert z[k] == block[scan.order[k]];
        r, base, br := EncodeRefineStep(absvalues[k], Trunc(block[scan.order[k]], scan.al) < 0, k, r, base, br, eob,
                                        z, scan.al, scan.ss, scan.se, bs, goal);
        k := k + 1;
      }
    }
  }

  /** The symbol for a run of r zeros and a coefficient of n bits. */
  lemma RunSymbol(tbl: HuffNo, r: nat, n: nat)
    requires r < 16 && n <= MAX_COEF_BITS
    ensures r * 16 + n < 256 && Usable(AcSym(tbl, r * 16 + n))
  {
  }

  lemma Regroup(a: seq<Item>, b: seq<Item>, c: seq<Item>, d: seq<Item>)
    ensures a + ((b + c) + d) == ((a + b) + c) + d
  {
  }

  lemma BandCounted(tbl: HuffNo, t: seq<Bit>, bs: seq<BandItems>, e: nat, be: seq<Bit>)
    ensures AfterBand(tbl, Some(t), bs, e, be)
         == if RunFull(e + 1, be + t) then EobItems(tbl, e + 1, be + t) + Coming(tbl, bs, 0, [])
            else Coming(tbl, bs, e + 1, be + t)
  {
  }

  lemma RunLog2(e: nat)
    requires 1 <= e <= 0x7FFF
    ensures Log2(e) <= 14
  {
    Powers();
    Log2Bound(e, 15);
  }

  predicate McuInRange(sc: HuffScan, last: DcValues, ms: seq<Component>, zs: Mcu)
    requires |ms| == |zs|
    decreases |zs|
  {
    zs == [] || (BlockInRange(sc, last[ms[0]], zs[0]) && McuInRange(sc, NextLast(sc, last, ms[0], zs[0]), ms[1..], zs[1..]))
  }

  /** The DC difference and, in a sequential scan, the AC coefficients can be coded. */
  predicate BlockInRange(sc: Scan, last: Coef, z: ZBlock) {
    && (CodesDc(sc) ==> BitLen(Abs(DcValue(sc, z) - last)) <= MAX_COEF_BITS + 1)
    && (sc.Routine().Sequential? ==> InRange(z, 0, 1, sc.limSe))
  }

  /** All coefficients of k..se can be coded. */
  predicate InRange(z: ZBlock, al: nat, k: nat, se: Index)
    decreases se + 1 - k
  {
    k > se || (BitLen(Abs(Trunc(z[k], al))) <= MAX_COEF_BITS && InRange(z, al, k + 1, se))
  }

  function WithEob(tbl: HuffNo, b: BandItems): seq<Item> {
    b.body + if b.tail.Some? then [AcSym(tbl, 0)] else []
  }

  lemma WithEobBefore(tbl: HuffNo, done: seq<Item>, its: seq<Item>, b: BandItems)
    ensures done + WithEob(tbl, Before(its, b)) == (done + its) + WithEob(tbl, b)
  {
  }

  const MAX_COEF_BITS := 10

  lemma TwoMore(a: seq<Item>, b: seq<Item>, x: Item, y: Item)
    ensures ((a + b) + [x]) + [y] == a + (b + [x, y])
  {
  }

  lemma RunCounted(a: seq<Item>, tbl: HuffNo, r: nat, v: int)
    requires v != 0 && BitLen(Abs(v)) <= 15
    ensures var n := BitLen(Abs(v));
            && 1 <= n <= 15 && 0 <= Complement(v, n)
            && ((a + Zrls(tbl, r)) + [AcSym(tbl, r % 16 * 16 + n)]) + [Extra(Complement(v, n), n)] == a + RunItems(tbl, r, v)
  {
    ExtendInverts(v);
    var n := BitLen(Abs(v));
    TwoMore(a, Zrls(tbl, r), AcSym(tbl, r % 16 * 16 + n), Extra(Complement(v, n), n));
  }

  lemma SnocBits(t: Tables, its: seq<Item>, it: Item)
    ensures ItemsBits(t, its + [it]) == ItemsBits(t, its) + ItemBits(t, it)
    ensures HaveCodes(t, its + [it]) <==> HaveCodes(t, its) && HasCode(t, it)
  {
    ItemsBitsConcat(t, its, [it]);
    HaveCodesConcat(t, its, [it]);
    assert ItemsBits(t, [it]) == ItemBits(t, it) + ItemsBits(t, []);
  }
}
