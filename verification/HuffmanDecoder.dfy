/** The Huffman entropy decoder (jdhuff.c).  Its MCU routines accept any input and may be suspended
    anywhere; when the input holds what the encoder sent for some blocks, they rebuild these. */
module HuffmanDecoder {
  import opened ArithTable
  import opened ArithModel
  import opened ArithBlocks
  import opened PointTransform
  import opened HuffmanCodes
  import opened HuffmanDerived
  import opened BitStrings
  import opened BitReaderObject
  import opened HuffmanItems
  import opened HuffmanRuns
  import opened HuffmanEobRuns
  import opened Segments

  /** A decoding table that jpeg_make_d_derived_tbl has built. */
  ghost predicate Sound(d: DTable) {
    Legal(d.pub.bits) && Decodes(d, d.pub)
  }

  /** A DC table: its symbols are at most 15. */
  ghost predicate SoundDc(d: DTable) {
    Sound(d) && forall s :: s in d.pub.vals[..Total(d.pub.bits)] ==> s <= 15
  }

  /** The encoding table c has been built from the same table. */
  ghost predicate Inverts(d: DTable, c: CTable) {
    Sound(d) && Encodes(c, d.pub, Total(d.pub.bits))
  }

  /** The code of a symbol, with anything behind it, decodes to that symbol. */
  lemma CodeDecodes(d: DTable, c: CTable, s: Byte, rest: seq<Bit>)
    requires Inverts(d, c) && c.ehufsi[s] != 0
    ensures var f := Decode(d.pub.bits, CodeBits(c, s) + rest);
            f.Index? && f.p < 256 && d.pub.vals[f.p] == s && f.n == |CodeBits(c, s)|
  {
    var p :| 0 <= p < |d.pub.vals[..Total(d.pub.bits)]| && d.pub.vals[..Total(d.pub.bits)][p] == s;
    CodeFits(d.pub.bits, p);
    PrefixOfBits(Code(d.pub.bits, p), Size(d.pub.bits, p), rest);
    DecodeIff(d.pub.bits, CodeBits(c, s) + rest, p);
  }

  /** The symbol that was decoded, and the bits behind it. */
  lemma WhatCame(d: DTable, c: CTable, s: Byte, rest: seq<Bit>, ahead: seq<Bit>, sym: Byte, z: nat, now: seq<Bit>, on: bool)
    requires Sound(d) && (on ==> Inverts(d, c) && c.ehufsi[s] != 0 && ahead == CodeBits(c, s) + rest)
    requires var f := Decode(d.pub.bits, ahead);
             var n := if f.Index? then f.n else 17;
             && (f.Index? ==> f.p < 256) && sym == (if f.Index? then d.pub.vals[f.p] else 0)
             && n <= |ahead| + z && now == (ahead + Zeros(z))[n..] && (z > 0 ==> |ahead| < n)
    ensures on ==> sym == s && now == rest && z == 0
    ensures sym == 0 || sym in d.pub.vals[..Total(d.pub.bits)]
  {
    DecodeIff(d.pub.bits, ahead, 0);
    var f := Decode(d.pub.bits, ahead);
    if f.Index? {
      assert d.pub.vals[f.p] == d.pub.vals[..Total(d.pub.bits)][f.p];
    }
    if on {
      CodeDecodes(d, c, s, rest);
      assert (ahead + Zeros(0))[|CodeBits(c, s)|..] == rest;
    }
  }

  /** The bit-reading state that is kept between MCUs. */
  datatype BitState = BitState(pos: nat, getBuffer: nat, bitsLeft: nat)

  class HuffDecoder {
    const reader: BitReader
    var saved: BitState
    var eobrun: nat
    var lastDcVal: seq<int>
    const dcTbls: seq<DTable>
    const acTbls: seq<DTable>

    constructor (reader: BitReader, dcTbls: seq<DTable>, acTbls: seq<DTable>)
      requires reader.Valid() && |dcTbls| == |acTbls| == NUM_HUFF_TBLS
      requires forall i :: 0 <= i < NUM_HUFF_TBLS ==> SoundDc(dcTbls[i]) && Sound(acTbls[i])
      ensures Valid() && this.reader == reader && this.dcTbls == dcTbls && this.acTbls == acTbls
      ensures saved == BitState(reader.pos, reader.getBuffer, reader.bitsLeft) && eobrun == 0 && lastDcVal == [0, 0, 0, 0]
    {
      this.reader, this.dcTbls, this.acTbls := reader, dcTbls, acTbls;
      saved := BitState(reader.pos, reader.getBuffer, reader.bitsLeft);
      eobrun, lastDcVal := 0, [0, 0, 0, 0];
      new;
      forall i: HuffNo
        ensures BothSound(i)
      {
      }
    }

    ghost predicate BothSound(i: HuffNo)
      requires |dcTbls| == |acTbls| == NUM_HUFF_TBLS
    {
      SoundDc(dcTbls[i]) && Sound(acTbls[i])
    }

    ghost predicate Shape()
      reads this`lastDcVal
    {
      |lastDcVal| == 4 && |dcTbls| == |acTbls| == NUM_HUFF_TBLS && forall i: HuffNo :: BothSound(i)
    }

    /** The state between two MCUs. */
    ghost predicate Valid()
      reads this, reader
    {
      Shape() && saved.bitsLeft <= 32 && reader.Inside(saved.pos)
    }

    /** BITREAD_LOAD_STATE */
    method Load()
      requires Valid()
      modifies reader`pos, reader`getBuffer, reader`bitsLeft
      ensures reader.Valid() && saved == BitState(reader.pos, reader.getBuffer, reader.bitsLeft)
    {
      reader.pos, reader.getBuffer, reader.bitsLeft := saved.pos, saved.getBuffer, saved.bitsLeft;
    }

    /** BITREAD_SAVE_STATE */
    method Save()
      requires reader.Valid()
      modifies this`saved
      ensures saved == BitState(reader.pos, reader.getBuffer, reader.bitsLeft)
    {
      saved := BitState(reader.pos, reader.getBuffer, reader.bitsLeft);
    }

    /** The bits of the segment that are not used up by the completed MCUs. */
    ghost function Ahead(): seq<Bit>
      requires Valid()
      reads this, reader
    {
      BitsOf(saved.getBuffer, saved.bitsLeft)
      + if reader.unreadMarker != 0 then [] else BytesBits(DataFrom(reader.raw, saved.pos))
    }

    /** HUFF_DECODE */
    method DecodeSym(d: DTable, ghost c: CTable, ghost s: Byte, ghost rest: seq<Bit>, ghost on: bool)
      returns (ok: bool, sym: Byte)
      requires reader.Valid() && Sound(d)
      requires on ==> Inverts(d, c) && c.ehufsi[s] != 0 && reader.Ahead() == CodeBits(c, s) + rest && !reader.insufficientData
      modifies reader`pos, reader`getBuffer, reader`bitsLeft, reader`unreadMarker, reader`insufficientData
      ensures reader.Valid() && (!ok ==> reader.Starved())
      ensures !ok ==> reader.unreadMarker == old(reader.unreadMarker) == 0
      ensures reader.unreadMarker == 0 ==> reader.insufficientData == old(reader.insufficientData)
      ensures old(reader.unreadMarker) != 0 ==> reader.unreadMarker == old(reader.unreadMarker)
      ensures ok && on ==> sym == s && reader.Ahead() == rest && !reader.insufficientData
      ensures ok ==> sym == 0 || sym in d.pub.vals[..Total(d.pub.bits)]
    {
      ghost var ahead, z := reader.Ahead(), 0;
      ok, sym, z := reader.HuffDecode(d, d.pub);
      if ok {
        WhatCame(d, c, s, rest, ahead, sym, z, reader.Ahead(), on);
      }
    }

    /** CHECK_BIT_BUFFER and GET_BITS */
    method DecodeExtra(n: nat, ghost v: nat, ghost rest: seq<Bit>, ghost on: bool) returns (ok: bool, r: nat)
      requires reader.Valid() && n <= 16
      requires on ==> v < Pow2(n) && reader.Ahead() == BitsOf(v, n) + rest && !reader.insufficientData
      modifies reader`pos, reader`getBuffer, reader`bitsLeft, reader`unreadMarker, reader`insufficientData
      ensures reader.Valid() && (!ok ==> reader.Starved())
      ensures !ok ==> reader.unreadMarker == old(reader.unreadMarker) == 0
      ensures reader.unreadMarker == 0 ==> reader.insufficientData == old(reader.insufficientData)
      ensures old(reader.unreadMarker) != 0 ==> reader.unreadMarker == old(reader.unreadMarker)
      ensures ok && on ==> r == v && reader.Ahead() == rest && !reader.insufficientData
      ensures ok ==> r < Pow2(n)
    {
      ghost var ahead, z := reader.Ahead(), 0;
      if on {
        PrefixOfBits(v, n, rest);
      }
      ok, r, z := reader.GetBits(n);
      assert on ==> (ahead + Zeros(0))[n..] == rest;
    }

    // ---------------------------------------------------------------- bands of first scans

    /** The place of coefficient k; the extra entries of the order catch corrupted data. */
    function Nat(scan: Scan, k: nat): Index {
      if k <= scan.limSe then scan.order[k] else 63
    }

    /** One symbol of the AC decoding loop of decode_mcu and decode_mcu_AC_first: a coefficient, 16
        zeros, or an end of band (`eob`), in which case r is the size of its run length. */
    method DecodeAcStep(d: DTable, scan: Scan, al: nat, block: array<Jcoef>, k0: nat, ghost x: Task, ghost on: bool)
      returns (ok: bool, eob: bool, r: nat, k: nat)
      requires reader.Valid() && Sound(d) && block.Length == 64
      requires on ==> Inverts(d, x.Table()) && x.sc == scan && x.al == al && k0 <= x.se && !reader.insufficientData
                      && DecodedTo(x, k0, reader.Ahead(), block[..])
      requires on ==> x.eobSym % 16 == 0 && x.eobSym != 0xF0
      modifies reader`pos, reader`getBuffer, reader`bitsLeft, reader`unreadMarker, reader`insufficientData, block
      ensures reader.Valid() && (!ok ==> reader.Starved())
      ensures !ok ==> reader.unreadMarker == old(reader.unreadMarker) == 0
      ensures reader.unreadMarker == 0 ==> reader.insufficientData == old(reader.insufficientData)
      ensures old(reader.unreadMarker) != 0 ==> reader.unreadMarker == old(reader.unreadMarker)
      ensures ok ==> if eob then r <= 14 else k0 < k
      ensures !ok ==> block[..] == old(block[..])
      ensures ok && on ==> !reader.insufficientData && (eob <==> NextIn(x, k0).End?)
      ensures ok && on && !eob ==> DecodedTo(x, k, reader.Ahead(), block[..])
      ensures ok && on && eob ==> EndsBand(x) && r == x.eobSym / 16
                                  && reader.Ahead() == x.eobRest
                                  && block[..] == Placed(scan, x.z, al, x.was, x.a, x.se)
    {
      ghost var s: Byte, rest: seq<Bit>, value: nat, bits1: seq<Bit> := 0, [], 0, [];
      if on {
        s, rest, value, bits1 := NextSymbol(x, k0, reader.Ahead(), block[..]);
      }
      eob, r, k := false, 0, k0;
      var sym;
      ok, sym := DecodeSym(d, x.Table(), s, rest, on);
      if !ok {
        return;
      }
      r := sym / 16;
      if sym % 16 != 0 {
        ok := DecodeValue(scan, al, block, k + r, sym % 16, value, bits1, on);
        k := k + r + 1;
      } else if r != 15 {
        eob := true;
      } else {
        k := k + 16;
      }
    }

    /** The extra bits of a coefficient, which is put in its place. */
    method DecodeValue(scan: Scan, al: nat, block: array<Jcoef>, k: nat, size: nat,
                       ghost value: nat, ghost rest: seq<Bit>, ghost on: bool) returns (ok: bool)
      requires reader.Valid() && 1 <= size <= 15 && block.Length == 64
      requires on ==> value < Pow2(size) && reader.Ahead() == BitsOf(value, size) + rest && !reader.insufficientData
                      && k <= scan.limSe
      modifies reader`pos, reader`getBuffer, reader`bitsLeft, reader`unreadMarker, reader`insufficientData, block
      ensures reader.Valid() && (!ok ==> reader.Starved())
      ensures !ok ==> reader.unreadMarker == old(reader.unreadMarker) == 0
      ensures reader.unreadMarker == 0 ==> reader.insufficientData == old(reader.insufficientData)
      ensures old(reader.unreadMarker) != 0 ==> reader.unreadMarker == old(reader.unreadMarker)
      ensures ok && on ==> reader.Ahead() == rest && !reader.insufficientData
      ensures !ok ==> block[..] == old(block[..])
      ensures ok && on ==> block[..] == old(block[..])[scan.order[k] := ToJcoef(Shift(Extend(value, size), al))]
    {
      var r;
      ok, r := DecodeExtra(size, value, rest, on);
      if ok {
        block[Nat(scan, k)] := ToJcoef(Shift(Extend(r, size), al));
      }
    }

    // ---------------------------------------------------------------- sequential scans

    /** A DC difference; with `keep` false its value is dropped. */
    method DecodeDcDiff(d: DTable, ghost t: Tables, ghost tbl: HuffNo, ghost diff: int, ghost rest: seq<Bit>, ghost on: bool)
      returns (ok: bool, s: int)
      requires reader.Valid() && SoundDc(d)
      requires on ==> Abs(diff) <= 0x8000 && Inverts(d, t.dc[tbl]) && HaveCodes(t, DcItems(tbl, diff))
                      && reader.Ahead() == ItemsBits(t, DcItems(tbl, diff)) + rest && !reader.insufficientData
      modifies reader`pos, reader`getBuffer, reader`bitsLeft, reader`unreadMarker, reader`insufficientData
      ensures reader.Valid() && (!ok ==> reader.Starved())
      ensures !ok ==> reader.unreadMarker == old(reader.unreadMarker) == 0
      ensures reader.unreadMarker == 0 ==> reader.insufficientData == old(reader.insufficientData)
      ensures old(reader.unreadMarker) != 0 ==> reader.unreadMarker == old(reader.unreadMarker)
      ensures ok && on ==> s == diff && reader.Ahead() == rest && !reader.insufficientData
    {
      ghost var n, value := 0, 0;
      if on {
        DcBits(t, tbl, diff, rest);
        n := BitLen(Abs(diff));
        value := if n == 0 then 0 else Complement(diff, n);
      }
      var sym;
      ok, sym := DecodeSym(d, t.dc[tbl], n, if n == 0 then rest else BitsOf(value, n) + rest, on);
      s := 0;
      if !ok {
        return;
      }
      if sym != 0 {
        var r;
        ok, r := DecodeExtra(sym, value, rest, on);
        if !ok {
          return;
        }
        s := Extend(r, sym);
      }
    }

    /** The loop over the coefficients below the limit. */
    method DecodeKept(d: DTable, scan: Scan, limit: nat, block: array<Jcoef>, ghost x: Task, ghost on: bool)
      returns (ok: bool, eob: bool, k: nat)
      requires reader.Valid() && Sound(d) && block.Length == 64 && 1 <= limit <= scan.limSe + 1
      requires on ==> Inverts(d, x.Table()) && x.sc == scan && x.al == 0 && x.a == 1 && x.se == scan.limSe && x.eobSym == 0
      requires on ==> DecodedTo(x, 1, reader.Ahead(), block[..]) && !reader.insufficientData
      modifies reader`pos, reader`getBuffer, reader`bitsLeft, reader`unreadMarker, reader`insufficientData, block
      ensures reader.Valid() && (!ok ==> reader.Starved())
      ensures !ok ==> reader.unreadMarker == old(reader.unreadMarker) == 0
      ensures reader.unreadMarker == 0 ==> reader.insufficientData == old(reader.insufficientData)
      ensures old(reader.unreadMarker) != 0 ==> reader.unreadMarker == old(reader.unreadMarker)
      ensures ok && on ==> !reader.insufficientData
      ensures ok && on && !eob ==> limit <= k && DecodedTo(x, k, reader.Ahead(), block[..])
      ensures ok && on && eob ==> reader.Ahead() == x.eobRest && EndsBand(x)
                                  && block[..] == Placed(scan, x.z, 0, x.was, 1, scan.limSe)
      ensures !ok && on ==> Again(scan, x.z, x.was, block[..])
    {
      ok, eob, k := true, false, 1;
      while k < limit && !eob
        invariant reader.Valid()
        invariant on ==> !reader.insufficientData
        invariant on && !eob ==> DecodedTo(x, k, reader.Ahead(), block[..])
        invariant on && eob ==> reader.Ahead() == x.eobRest && EndsBand(x)
                                && block[..] == Placed(scan, x.z, 0, x.was, 1, scan.limSe)
        invariant old(reader.unreadMarker) != 0 ==> reader.unreadMarker == old(reader.unreadMarker)
        invariant reader.unreadMarker == 0 ==> reader.insufficientData == old(reader.insufficientData)
        decreases limit - k, !eob
      {
        if on {
          Interrupted(x, k, reader.Ahead(), block[..]);
        }
        var r, k1;
        ok, eob, r, k1 := DecodeAcStep(d, scan, 0, block, k, x, on);
        if !ok {
          return;
        }
        k := if eob then k else k1;
      }
    }

    /** The loop that discards the other coefficients; `content` is what the block would hold. */
    method DiscardRest(d: DTable, scan: Scan, k0: nat, ghost x: Task, ghost content0: seq<Jcoef>, ghost on: bool) returns (ok: bool)
      requires reader.Valid() && Sound(d)
      requires on ==> Inverts(d, x.Table()) && x.se == scan.limSe && x.eobSym == 0 && k0 <= scan.limSe + 1
                      && DecodedTo(x, k0, reader.Ahead(), content0) && !reader.insufficientData
      modifies reader`pos, reader`getBuffer, reader`bitsLeft, reader`unreadMarker, reader`insufficientData
      ensures reader.Valid() && (!ok ==> reader.Starved())
      ensures !ok ==> reader.unreadMarker == old(reader.unreadMarker) == 0
      ensures reader.unreadMarker == 0 ==> reader.insufficientData == old(reader.insufficientData)
      ensures old(reader.unreadMarker) != 0 ==> reader.unreadMarker == old(reader.unreadMarker)
      ensures ok && on ==> !reader.insufficientData && reader.Ahead() == x.Behind()
    {
      ghost var content := content0;
      var k: nat, eob := k0, false;
      ok := true;
      while k <= scan.limSe && !eob
        invariant reader.Valid()
        invariant on ==> !reader.insufficientData && k0 <= scan.limSe + 1
        invariant on && !eob ==> DecodedTo(x, k, reader.Ahead(), content)
        invariant on && eob ==> EndsBand(x) && reader.Ahead() == x.eobRest
        invariant old(reader.unreadMarker) != 0 ==> reader.unreadMarker == old(reader.unreadMarker)
        invariant reader.unreadMarker == 0 ==> reader.insufficientData == old(reader.insufficientData)
        decreases (scan.limSe as int) + 1 - k, !eob
      {
        var k1;
        ok, eob, k1, content := DiscardStep(d, k, x, content, on);
        if !ok {
          return;
        }
        k := if eob then k else k1;
      }
      if on && !eob {
        BandComplete(x, k, reader.Ahead(), content);
      }
    }

    method DiscardStep(d: DTable, k0: nat, ghost x: Task, ghost content0: seq<Jcoef>, ghost on: bool)
      returns (ok: bool, eob: bool, k: nat, ghost content: seq<Jcoef>)
      requires reader.Valid() && Sound(d)
      requires on ==> Inverts(d, x.Table()) && k0 <= x.se && x.eobSym == 0
                      && DecodedTo(x, k0, reader.Ahead(), content0) && !reader.insufficientData
      modifies reader`pos, reader`getBuffer, reader`bitsLeft, reader`unreadMarker, reader`insufficientData
      ensures reader.Valid() && (!ok ==> reader.Starved())
      ensures !ok ==> reader.unreadMarker == old(reader.unreadMarker) == 0
      ensures reader.unreadMarker == 0 ==> reader.insufficientData == old(reader.insufficientData)
      ensures old(reader.unreadMarker) != 0 ==> reader.unreadMarker == old(reader.unreadMarker)
      ensures ok && !eob ==> k0 < k
      ensures ok && on ==> !reader.insufficientData
      ensures ok && on && !eob ==> DecodedTo(x, k, reader.Ahead(), content)
      ensures ok && on && eob ==> EndsBand(x) && reader.Ahead() == x.eobRest
    {
      ghost var s: Byte, rest: seq<Bit>, value: nat, bits1: seq<Bit> := 0, [], 0, [];
      ghost var bits := reader.Ahead();
      if on {
        s, rest, value, bits1 := NextSymbol(x, k0, bits, content0);
      }
      var sym;
      ok, sym := DecodeSym(d, x.Table(), s, rest, on);
      eob, k, content := false, k0, content0;
      if ok {
        ok, eob, k, content := DiscardSymbol(sym, k0, x, bits, content0, rest, value, bits1, on);
      }
    }

    /** What the symbol says is passed over. */
    method DiscardSymbol(sym: Byte, k0: nat, ghost x: Task, ghost bits: seq<Bit>, ghost content0: seq<Jcoef>,
                         ghost rest: seq<Bit>, ghost value: nat, ghost bits1: seq<Bit>, ghost on: bool)
      returns (ok: bool, eob: bool, k: nat, ghost content: seq<Jcoef>)
      requires reader.Valid()
      requires on ==> k0 <= x.se && x.eobSym == 0 && Comes(x, k0, bits, content0, sym, rest, value, bits1)
                      && reader.Ahead() == rest && !reader.insufficientData
      modifies reader`pos, reader`getBuffer, reader`bitsLeft, reader`unreadMarker, reader`insufficientData
      ensures reader.Valid() && (!ok ==> reader.Starved())
      ensures !ok ==> reader.unreadMarker == old(reader.unreadMarker) == 0
      ensures reader.unreadMarker == 0 ==> reader.insufficientData == old(reader.insufficientData)
      ensures old(reader.unreadMarker) != 0 ==> reader.unreadMarker == old(reader.unreadMarker)
      ensures ok && !eob ==> k0 < k
      ensures ok && on ==> !reader.insufficientData
      ensures ok && on && !eob ==> DecodedTo(x, k, reader.Ahead(), content)
      ensures ok && on && eob ==> EndsBand(x) && reader.Ahead() == x.eobRest
    {
      ok, eob, k, content := true, false, k0, content0;
      if on && sym % 16 != 0 {
        content := content0[x.sc.order[k0 + sym / 16] := ToJcoef(Shift(Extend(value, sym % 16), x.al))];
      }
      var r := sym / 16;
      if sym % 16 != 0 {
        var dropped;
        ok, dropped := DecodeExtra(sym % 16, value, bits1, on);
        k := k + r + 1;
      } else if r != 15 {
        eob := true;
      } else {
        k := k + 16;
      }
    }

    /** The AC coefficients of a block: those below the limit are kept, the others discarded. */
    method DecodeAc(d: DTable, scan: Scan, limit: nat, block: array<Jcoef>, ghost x: Task, ghost on: bool)
      returns (ok: bool, ghost j: nat)
      requires reader.Valid() && Sound(d) && block.Length == 64 && 1 <= limit <= scan.limSe + 1
      requires on ==> Inverts(d, x.Table()) && x.sc == scan && x.al == 0 && x.a == 1 && x.se == scan.limSe && x.eobSym == 0
      requires on ==> DecodedTo(x, 1, reader.Ahead(), block[..]) && !reader.insufficientData
      modifies reader`pos, reader`getBuffer, reader`bitsLeft, reader`unreadMarker, reader`insufficientData, block
      ensures reader.Valid() && (!ok ==> reader.Starved())
      ensures !ok ==> reader.unreadMarker == old(reader.unreadMarker) == 0
      ensures reader.unreadMarker == 0 ==> reader.insufficientData == old(reader.insufficientData)
      ensures old(reader.unreadMarker) != 0 ==> reader.unreadMarker == old(reader.unreadMarker)
      ensures ok && on ==> !reader.insufficientData && reader.Ahead() == x.Behind()
      ensures ok && on ==> limit - 1 <= j <= scan.limSe && block[..] == Placed(scan, x.z, 0, x.was, 1, j)
      ensures !ok && on ==> Again(scan, x.z, x.was, block[..])
    {
      var eob, k;
      j := scan.limSe;
      ok, eob, k := DecodeKept(d, scan, limit, block, x, on);
      if ok && !eob {
        ghost var content := block[..];
        if on {
          j := k - 1;
          PlacedSoFar(x, k, reader.Ahead(), content);
          Interrupted(x, k, reader.Ahead(), content);
        }
        ok := DiscardRest(d, scan, k, x, content, on);
        assert block[..] == content;
      }
    }

    lemma PlacedSoFar(x: Task, k: nat, bits: seq<Bit>, content: seq<Jcoef>)
      requires DecodedTo(x, k, bits, content)
      ensures x.a <= k <= x.se + 1 && content == Placed(x.sc, x.z, x.al, x.was, x.a, k - 1)
    {
      assert DecodedToNow(x, k, bits, content, 64);
    }

    /** The block loop body of decode_mcu. */
    method DecodeBlock(dcd: DTable, acd: DTable, scan: Scan, limit: nat, block: array<Jcoef>, lastIn: int,
                       ghost t: Tables, ghost dcTbl: HuffNo, ghost tbl: HuffNo, ghost last: Coef, ghost z: ZBlock,
                       ghost rest: seq<Bit>, ghost on: bool)
      returns (ok: bool, value: int)
      requires reader.Valid() && SoundDc(dcd) && Sound(acd) && block.Length == 64 && limit <= scan.limSe + 1 && !scan.progressive
      requires on ==> Inverts(dcd, t.dc[dcTbl]) && Inverts(acd, t.ac[tbl]) && scan.Injective()
                      && Partly(scan, z, 0, block[..], 0, scan.limSe) && (limit != 0 ==> lastIn == last)
      requires on ==> HaveCodes(t, BlockItems(dcTbl, tbl, scan, last, z))
                      && reader.Ahead() == ItemsBits(t, BlockItems(dcTbl, tbl, scan, last, z)) + rest
                      && !reader.insufficientData
      modifies reader`pos, reader`getBuffer, reader`bitsLeft, reader`unreadMarker, reader`insufficientData, block
      ensures reader.Valid() && (!ok ==> reader.Starved())
      ensures !ok ==> reader.unreadMarker == old(reader.unreadMarker) == 0
      ensures reader.unreadMarker == 0 ==> reader.insufficientData == old(reader.insufficientData)
      ensures old(reader.unreadMarker) != 0 ==> reader.unreadMarker == old(reader.unreadMarker)
      ensures limit == 0 ==> value == lastIn && block[..] == old(block[..])
      ensures ok && on ==> reader.Ahead() == rest && !reader.insufficientData
      ensures ok && on && limit != 0 ==> value == z[0] && Kept(scan, z, old(block[..]), block[..], limit)
      ensures !ok && on ==> Redo(scan, z, old(block[..]), block[..])
    {
      ghost var rest1 := ItemsBits(t, SequentialAc(tbl, z, scan.limSe)) + rest;
      ghost var diff := z[0] - last;
      if on {
        BlockBits(t, dcTbl, tbl, scan, last, z, rest);
      }
      value := lastIn;
      var s;
      ok, s := DecodeDcDiff(dcd, t, dcTbl, diff, rest1, on);
      if !ok {
        return;
      }
      if limit != 0 {
        value := lastIn + s;
        ok := KeepBlock(acd, scan, limit, block, value, t, tbl, z, rest, on);
      } else {
        ghost var x: Task := AnyTask();
        if on {
          x := SequentialStarts(t, tbl, scan, z, block[..], rest);
        }
        ok := DiscardRest(acd, scan, 1, x, block[..], on);
      }
    }

    /** Output the DC coefficient and decode the AC coefficients. */
    method KeepBlock(acd: DTable, scan: Scan, limit: nat, block: array<Jcoef>, value: int,
                     ghost t: Tables, ghost tbl: HuffNo, ghost z: ZBlock, ghost rest: seq<Bit>, ghost on: bool)
      returns (ok: bool)
      requires reader.Valid() && Sound(acd) && block.Length == 64 && 1 <= limit <= scan.limSe + 1
      requires on ==> Inverts(acd, t.ac[tbl]) && scan.Injective() && Partly(scan, z, 0, block[..], 0, scan.limSe) && value == z[0]
      requires on ==> HaveCodes(t, SequentialAc(tbl, z, scan.limSe)) && !reader.insufficientData
                      && reader.Ahead() == ItemsBits(t, SequentialAc(tbl, z, scan.limSe)) + rest
      modifies reader`pos, reader`getBuffer, reader`bitsLeft, reader`unreadMarker, reader`insufficientData, block
      ensures reader.Valid() && (!ok ==> reader.Starved())
      ensures !ok ==> reader.unreadMarker == old(reader.unreadMarker) == 0
      ensures reader.unreadMarker == 0 ==> reader.insufficientData == old(reader.insufficientData)
      ensures old(reader.unreadMarker) != 0 ==> reader.unreadMarker == old(reader.unreadMarker)
      ensures ok && on ==> reader.Ahead() == rest && !reader.insufficientData
                           && Kept(scan, z, old(block[..]), block[..], limit)
      ensures !ok && on ==> Redo(scan, z, old(block[..]), block[..])
    {
      ghost var before := block[..];
      block[0] := ToJcoef(value);
      assert block[..] == before[0 := ToJcoef(value)];
      ghost var x: Task := AnyTask();
      if on {
        DcApart(scan, z, before, ToJcoef(value));
        assert ToJcoef(value) == z[0];
        x := SequentialStarts(t, tbl, scan, z, block[..], rest);
      }
      ghost var j: nat;
      ok, j := DecodeAc(acd, scan, limit, block, x, on);
      if !ok && on {
        AgainRedo(scan, z, before, block[..]);
      }
      assert ok && on ==> KeptAt(scan, z, before, block[..], limit, j);
    }

    ghost predicate AllInverted(t: Tables) {
      |dcTbls| == |acTbls| == NUM_HUFF_TBLS
      && forall i: HuffNo :: Inverts(dcTbls[i], t.dc[i]) && Inverts(acTbls[i], t.ac[i])
    }

    /** Block j of an MCU of a sequential scan. */
    method DecodeBlockAt(scan: HuffScan, j: nat, limit: nat, block: array<Jcoef>, lastIn: seq<int>,
                         ghost t: Tables, ghost last: DcValues, ghost zs: Mcu, ghost rest: seq<Bit>, ghost on: bool)
      returns (ok: bool, lastOut: seq<int>)
      requires Shape() && reader.Valid() && j < |scan.membership| && limit <= scan.limSe + 1 && block.Length == 64 && |lastIn| == 4
      requires !scan.progressive
      requires on ==> |zs| == |scan.membership| && AllInverted(t) && scan.Injective()
                      && Partly(scan, zs[j], 0, block[..], 0, scan.limSe)
                      && (limit != 0 ==> lastIn[scan.membership[j]] == last[scan.membership[j]])
      requires on ==> HaveCodes(t, McuItems(scan, last, scan.membership[j..], zs[j..])) && !reader.insufficientData
                      && reader.Ahead() == ItemsBits(t, McuItems(scan, last, scan.membership[j..], zs[j..])) + rest
      modifies reader`pos, reader`getBuffer, reader`bitsLeft, reader`unreadMarker, reader`insufficientData, block
      ensures reader.Valid() && (!ok ==> reader.Starved())
      ensures !ok ==> reader.unreadMarker == old(reader.unreadMarker) == 0
      ensures reader.unreadMarker == 0 ==> reader.insufficientData == old(reader.insufficientData)
      ensures old(reader.unreadMarker) != 0 ==> reader.unreadMarker == old(reader.unreadMarker)
      ensures |lastOut| == 4 && (limit == 0 ==> lastOut == lastIn && block[..] == old(block[..]))
      ensures ok && on && limit != 0 ==> lastOut == lastIn[scan.membership[j] := zs[j][0]]
                                         && Kept(scan, zs[j], old(block[..]), block[..], limit)
      ensures !ok && on ==> Redo(scan, zs[j], old(block[..]), block[..])
      ensures var last1 := if on then last[scan.membership[j] := zs[j][0]] else last;
              ok && on ==> !reader.insufficientData
                           && HaveCodes(t, McuItems(scan, last1, scan.membership[j + 1..], zs[j + 1..]))
                           && reader.Ahead()
                                == ItemsBits(t, McuItems(scan, last1, scan.membership[j + 1..], zs[j + 1..])) + rest
    {
      var ci := scan.membership[j];
      ghost var z, rest1 := seq(64, _ => 0), [];
      assert BothSound(DcNo(scan, ci)) && BothSound(AcNo(scan, ci));
      if on {
        z := zs[j];
        rest1 := BlockAhead(t, scan, last, j, zs, rest);
      }
      var value;
      ok, value := DecodeBlock(dcTbls[DcNo(scan, ci)], acTbls[AcNo(scan, ci)], scan, limit, block, lastIn[ci],
                               t, DcNo(scan, ci), AcNo(scan, ci), last[ci], z, rest1, on);
      lastOut := lastIn[ci := value];
    }

    /** The block loop of decode_mcu. */
    method DecodeBlocks(scan: HuffScan, limits: seq<nat>, blocks: seq<array<Jcoef>>, ghost p0: McuProgress, ghost on: bool)
      returns (ok: bool, lastOut: seq<int>, ghost p: McuProgress)
      requires Shape() && reader.Valid() && DistinctNow(blocks) && !scan.progressive
      requires |blocks| == |limits| == |scan.membership| && forall i :: 0 <= i < |limits| ==> limits[i] <= scan.limSe + 1
      requires Hold(blocks, p0.after)
      requires on ==> AllInverted(p0.t) && p0.sc == scan && p0.limits == limits && p0.j == 0 && p0.lastOut == lastDcVal
                      && Progress(p0, reader.Ahead()) && !reader.insufficientData
      modifies reader`pos, reader`getBuffer, reader`bitsLeft, reader`unreadMarker, reader`insufficientData, blocks
      ensures reader.Valid() && (!ok ==> reader.Starved())
      ensures !ok ==> reader.unreadMarker == old(reader.unreadMarker) == 0
      ensures reader.unreadMarker == 0 ==> reader.insufficientData == old(reader.insufficientData)
      ensures old(reader.unreadMarker) != 0 ==> reader.unreadMarker == old(reader.unreadMarker)
      ensures |lastOut| == 4 && Hold(blocks, p.after)
      ensures on ==> Follows(p0, p) && (if ok then p.j == |blocks| && p.lastOut == lastOut else Resumable(p))
      ensures ok && on ==> Progress(p, reader.Ahead()) && !reader.insufficientData
    {
      p := p0;
      ok, lastOut := true, lastDcVal;
      var j: nat := 0;
      while j < |blocks|
        invariant j <= |blocks| && Shape() && reader.Valid()
        invariant old(reader.unreadMarker) != 0 ==> reader.unreadMarker == old(reader.unreadMarker)
        invariant reader.unreadMarker == 0 ==> reader.insufficientData == old(reader.insufficientData)
        invariant |lastOut| == 4 && Hold(blocks, p.after)
        invariant on ==> Follows(p0, p) && p.j == j && p.lastOut == lastOut
        invariant on ==> Progress(p, reader.Ahead()) && !reader.insufficientData
      {
        ghost var was := p;
        ok, lastOut, p := DecodeNextBlock(scan, j, limits[j], blocks[j], lastOut, p, on);
        HoldNext(blocks, was.after, j, p.after);
        if !ok {
          return;
        }
        j := j + 1;
      }
    }

    /** One turn of the block loop, and what it means for the MCU. */
    method DecodeNextBlock(scan: HuffScan, j: nat, limit: nat, block: array<Jcoef>, lastIn: seq<int>, ghost p: McuProgress,
                           ghost on: bool)
      returns (ok: bool, lastOut: seq<int>, ghost q: McuProgress)
      requires Shape() && reader.Valid() && !scan.progressive && j < |scan.membership| && limit <= scan.limSe + 1
      requires block.Length == 64 && |lastIn| == 4 && j < |p.after| && p.after[j] == block[..]
      requires on ==> AllInverted(p.t) && p.sc == scan && j < |p.limits| && p.limits[j] == limit && p.j == j && p.lastOut == lastIn
                      && Progress(p, reader.Ahead()) && !reader.insufficientData
      modifies reader`pos, reader`getBuffer, reader`bitsLeft, reader`unreadMarker, reader`insufficientData, block
      ensures reader.Valid() && (!ok ==> reader.Starved())
      ensures !ok ==> reader.unreadMarker == old(reader.unreadMarker) == 0
      ensures reader.unreadMarker == 0 ==> reader.insufficientData == old(reader.insufficientData)
      ensures old(reader.unreadMarker) != 0 ==> reader.unreadMarker == old(reader.unreadMarker)
      ensures |lastOut| == 4 && q.after == p.after[j := block[..]]
      ensures on ==> Follows(p, q) && (if ok then q.j == j + 1 && q.lastOut == lastOut else Resumable(q))
      ensures ok && on ==> Progress(q, reader.Ahead()) && !reader.insufficientData
    {
      if on {
        ProgressFacts(p, reader.Ahead());
      }
      ghost var bits := reader.Ahead();
      ok, lastOut := DecodeBlockAt(scan, j, limit, block, lastIn, p.t, p.last, p.zs, p.rest, on);
      q := p.(after := p.after[j := block[..]]);
      if on {
        if ok {
          ProgressMore(p, bits, block[..], lastOut, reader.Ahead());
          q := NextProgress(p, block[..], lastOut);
        } else {
          ProgressBreaks(p, bits, block[..]);
        }
      }
    }

    /** decode_mcu.  If the input holds the bits of an MCU that is ready to be decoded, either the MCU
        is rebuilt, or the call is suspended: then nothing has been lost, and the MCU can be decoded
        again as soon as more bytes have arrived.  It is suspended only where too few bits are at hand.  Behind
        the end of a segment that was too short, nothing is decoded. */
    method DecodeMcu(scan: HuffScan, limits: seq<nat>, blocks: seq<array<Jcoef>>, ghost p0: McuProgress, ghost on: bool)
      returns (ok: bool, ghost p: McuProgress)
      requires Valid() && DistinctNow(blocks) && !scan.progressive
      requires |blocks| == |limits| == |scan.membership| && forall i :: 0 <= i < |limits| ==> limits[i] <= scan.limSe + 1
      requires Hold(blocks, p0.after)
      requires on ==> AllInverted(p0.t) && p0.sc == scan && p0.limits == limits && p0.j == 0 && p0.lastOut == lastDcVal
                      && Progress(p0, Ahead()) && !reader.insufficientData
      modifies reader`pos, reader`getBuffer, reader`bitsLeft, reader`unreadMarker, reader`insufficientData,
               this`saved, this`lastDcVal, blocks
      ensures Valid() && Hold(blocks, p.after) && (!ok ==> reader.Starved())
      ensures !ok ==> saved == old(saved) && lastDcVal == old(lastDcVal) && Ahead() == old(Ahead())
                      && reader.insufficientData == old(reader.insufficientData)
      ensures old(reader.insufficientData) ==> ok && p == p0 && saved == old(saved) && lastDcVal == old(lastDcVal)
      ensures on ==> Follows(p0, p) && !reader.insufficientData && if ok then
                       && Ahead() == p0.rest && |p0.zs| == |scan.membership|
                       && McuKept(scan, p0.zs, limits, p0.before, p.after, |p0.zs|)
                       && LastAgrees(lastDcVal, LastAfter(scan, p0.last0, scan.membership, p0.zs), p0.needed)
                     else Resumable(p)
    {
      p := p0;
      if reader.insufficientData {
        return true, p;
      }
      Load();
      var lastOut;
      ok, lastOut, p := DecodeBlocks(scan, limits, blocks, p0, on);
      if !ok {
        return;
      }
      if on {
        ProgressEnds(p, reader.Ahead());
      }
      Save();
      lastDcVal := lastOut;
    }

    // ---------------------------------------------------------------- progressive AC scans

    /** The loop of decode_mcu_AC_first; on an end of band, r is the size of its run length. */
    method DecodeFirstBand(d: DTable, scan: Scan, block: array<Jcoef>, ghost x: Task, ghost on: bool)
      returns (ok: bool, eob: bool, r: nat)
      requires reader.Valid() && Sound(d) && block.Length == 64 && scan.Routine().AcFirst?
      requires on ==> Inverts(d, x.Table()) && x.sc == scan && x.al == scan.al && x.a == scan.ss && x.se == scan.se
      requires on ==> x.eobSym % 16 == 0 && x.eobSym != 0xF0
      requires on ==> DecodedTo(x, scan.ss, reader.Ahead(), block[..]) && !reader.insufficientData
      modifies reader`pos, reader`getBuffer, reader`bitsLeft, reader`unreadMarker, reader`insufficientData, block
      ensures reader.Valid() && (!ok ==> reader.Starved())
      ensures !ok ==> reader.unreadMarker == old(reader.unreadMarker) == 0
      ensures reader.unreadMarker == 0 ==> reader.insufficientData == old(reader.insufficientData)
      ensures old(reader.unreadMarker) != 0 ==> reader.unreadMarker == old(reader.unreadMarker)
      ensures ok && on ==> !reader.insufficientData && block[..] == Placed(scan, x.z, scan.al, x.was, scan.ss, scan.se)
      ensures ok && eob ==> r <= 14
      ensures ok && on ==> if eob then x.hasEob && r == x.eobSym / 16 && reader.Ahead() == x.eobRest
                           else !x.hasEob && reader.Ahead() == x.rest
      ensures !ok && on ==> AgainBand(scan, x.z, x.was, block[..])
    {
      var k: nat := scan.ss;
      ok, eob, r := true, false, 0;
      while k <= scan.se && !eob
        invariant reader.Valid()
        invariant old(reader.unreadMarker) != 0 ==> reader.unreadMarker == old(reader.unreadMarker)
        invariant reader.unreadMarker == 0 ==> reader.insufficientData == old(reader.insufficientData)
        invariant (on ==> !reader.insufficientData) && (eob ==> r <= 14)
        invariant on && !eob ==> DecodedTo(x, k, reader.Ahead(), block[..])
        invariant on && eob ==> x.hasEob && r == x.eobSym / 16 && reader.Ahead() == x.eobRest
                                && block[..] == Placed(scan, x.z, scan.al, x.was, scan.ss, scan.se)
        decreases (scan.se as int) + 1 - k, !eob
      {
        if on {
          Interrupted(x, k, reader.Ahead(), block[..]);
        }
        var k1;
        ok, eob, r, k1 := DecodeAcStep(d, scan, scan.al, block, k, x, on);
        if !ok {
          return;
        }
        k := if eob then k else k1;
      }
      if on && !eob {
        BandComplete(x, k, reader.Ahead(), block[..]);
      }
    }

    /** decode_mcu_AC_first. */
    method DecodeAcFirst(d: DTable, scan: Scan, block: array<Jcoef>, ghost t: Tables, ghost tbl: HuffNo, ghost z: ZBlock,
                         ghost bs: seq<BandItems>, ghost pad: seq<Bit>, ghost on: bool)
      returns (ok: bool)
      requires Valid() && Sound(d) && block.Length == 64 && scan.Routine().AcFirst?
      requires on ==> Inverts(d, t.ac[tbl]) && scan.Injective() && Partly(scan, z, scan.al, block[..], scan.ss - 1, scan.se)
      requires on ==> bs != [] && bs[0] == FirstItems(tbl, z, scan.al, scan.ss, scan.se, 0)
                      && AwaitsBands(t, tbl, bs, eobrun, Ahead(), pad) && !reader.insufficientData
      modifies reader`pos, reader`getBuffer, reader`bitsLeft, reader`unreadMarker, reader`insufficientData,
               this`saved, this`eobrun, block
      ensures Valid() && (!ok ==> reader.Starved())
      ensures !ok ==> saved == old(saved) && eobrun == old(eobrun) && Ahead() == old(Ahead())
                      && reader.insufficientData == old(reader.insufficientData)
      ensures old(reader.insufficientData) ==> ok && block[..] == old(block[..]) && saved == old(saved) && eobrun == old(eobrun)
      ensures on && ok ==> AwaitsBands(t, tbl, bs[1..], eobrun, Ahead(), pad) && !reader.insufficientData
                           && eobrun == LeftAfter(bs, old(eobrun))
                           && block[..] == Placed(scan, z, scan.al, old(block[..]), scan.ss, scan.se)
      ensures on && !ok ==> AgainBand(scan, z, old(block[..]), block[..])
    {
      ok := true;
      if !reader.insufficientData {
        ok := DecodeInRun(d, scan, block, t, tbl, z, bs, pad, on);
      }
    }

    /** A band inside a run of ended bands, or one of its own. */
    method DecodeInRun(d: DTable, scan: Scan, block: array<Jcoef>, ghost t: Tables, ghost tbl: HuffNo, ghost z: ZBlock,
                       ghost bs: seq<BandItems>, ghost pad: seq<Bit>, ghost on: bool)
      returns (ok: bool)
      requires Valid() && Sound(d) && block.Length == 64 && scan.Routine().AcFirst?
      requires on ==> Inverts(d, t.ac[tbl]) && scan.Injective() && Partly(scan, z, scan.al, block[..], scan.ss - 1, scan.se)
      requires on ==> bs != [] && bs[0] == FirstItems(tbl, z, scan.al, scan.ss, scan.se, 0)
                      && AwaitsBands(t, tbl, bs, eobrun, Ahead(), pad) && !reader.insufficientData
      modifies reader`pos, reader`getBuffer, reader`bitsLeft, reader`unreadMarker, reader`insufficientData,
               this`saved, this`eobrun, block
      ensures Valid() && (!ok ==> reader.Starved())
      ensures !ok ==> saved == old(saved) && eobrun == old(eobrun) && Ahead() == old(Ahead())
                      && reader.insufficientData == old(reader.insufficientData)
      ensures on && ok ==> AwaitsBands(t, tbl, bs[1..], eobrun, Ahead(), pad) && !reader.insufficientData
                           && eobrun == LeftAfter(bs, old(eobrun))
                           && block[..] == Placed(scan, z, scan.al, old(block[..]), scan.ss, scan.se)
      ensures on && !ok ==> AgainBand(scan, z, old(block[..]), block[..])
    {
      ok := true;
      if eobrun != 0 {
        if on {
          ghost var bits1 := InRun(t, tbl, bs, eobrun, Ahead(), pad);
          SkipBand(scan, tbl, z, block[..]);
          assert [] + bits1 == bits1;
        }
        eobrun := eobrun - 1;
      } else {
        ok := DecodeOwnBand(d, scan, block, t, tbl, z, bs, pad, on);
      }
    }

    /** The same for a band outside a run. */
    method DecodeOwnBand(d: DTable, scan: Scan, block: array<Jcoef>, ghost t: Tables, ghost tbl: HuffNo, ghost z: ZBlock,
                         ghost bs: seq<BandItems>, ghost pad: seq<Bit>, ghost on: bool)
      returns (ok: bool)
      requires Valid() && Sound(d) && block.Length == 64 && scan.Routine().AcFirst? && eobrun == 0
      requires on ==> Inverts(d, t.ac[tbl]) && scan.Injective() && Partly(scan, z, scan.al, block[..], scan.ss - 1, scan.se)
      requires on ==> bs != [] && bs[0] == FirstItems(tbl, z, scan.al, scan.ss, scan.se, 0)
                      && AwaitsBands(t, tbl, bs, 0, Ahead(), pad) && !reader.insufficientData
      modifies reader`pos, reader`getBuffer, reader`bitsLeft, reader`unreadMarker, reader`insufficientData,
               this`saved, this`eobrun, block
      ensures Valid() && (!ok ==> reader.Starved())
      ensures !ok ==> saved == old(saved) && eobrun == old(eobrun) && Ahead() == old(Ahead())
                      && reader.insufficientData == old(reader.insufficientData)
      ensures on && ok ==> AwaitsBands(t, tbl, bs[1..], eobrun, Ahead(), pad) && !reader.insufficientData
                           && eobrun == LeftAfter(bs, old(eobrun))
                           && block[..] == Placed(scan, z, scan.al, old(block[..]), scan.ss, scan.se)
      ensures on && !ok ==> AgainBand(scan, z, old(block[..]), block[..])
    {
      ghost var x: Task, n: nat, more: seq<Bit> := AnyTask(), 0, [];
      if on {
        x, n, more := FirstStarts(t, tbl, scan, z, bs, Ahead(), pad, block[..]);
      }
      Load();
      var run;
      ok, run := DecodeBandAndRun(d, scan, block, x, n, more, on);
      if ok {
        Save();
        eobrun := run;
      }
    }

    /** The coefficients of the band, and the length of the run that begins with its end. */
    method DecodeBandAndRun(d: DTable, scan: Scan, block: array<Jcoef>, ghost x: Task, ghost n: nat, ghost more: seq<Bit>,
                            ghost on: bool)
      returns (ok: bool, run: nat)
      requires reader.Valid() && Sound(d) && block.Length == 64 && scan.Routine().AcFirst?
      requires on ==> Inverts(d, x.Table()) && x.sc == scan && x.al == scan.al && x.a == scan.ss && x.se == scan.se
      requires on ==> x.eobSym % 16 == 0 && x.eobSym != 0xF0 && scan.Injective() && |x.was| == 64
                      && Partly(scan, x.z, scan.al, x.was, scan.ss - 1, scan.se)
      requires on ==> DecodedTo(x, scan.ss, reader.Ahead(), block[..]) && !reader.insufficientData
      requires on ==> if x.hasEob then n < 0x7FFF && x.eobSym == Log2(n + 1) * 16 && x.eobRest == BitsOf(n + 1, Log2(n + 1)) + more
                      else n == 0 && more == x.rest
      modifies reader`pos, reader`getBuffer, reader`bitsLeft, reader`unreadMarker, reader`insufficientData, block
      ensures reader.Valid() && (!ok ==> reader.Starved())
      ensures !ok ==> reader.unreadMarker == old(reader.unreadMarker) == 0
      ensures reader.unreadMarker == 0 ==> reader.insufficientData == old(reader.insufficientData)
      ensures old(reader.unreadMarker) != 0 ==> reader.unreadMarker == old(reader.unreadMarker)
      ensures ok && on ==> !reader.insufficientData && block[..] == Placed(scan, x.z, scan.al, x.was, scan.ss, scan.se)
      ensures ok && on ==> run == n && reader.Ahead() == more
      ensures !ok && on ==> AgainBand(scan, x.z, x.was, block[..])
    {
      var eob, r;
      ok, eob, r := DecodeFirstBand(d, scan, block, x, on);
      run := 0;
      if ok {
        if on {
          PlacedPartly(scan, x.z, scan.al, x.was, scan.ss, scan.se, scan.se);
        }
        ok, run := DecodeRun(eob, r, n, more, x, on);
      }
    }

    /** The ends of band that follow the current one. */
    method DecodeRun(eob: bool, r: nat, ghost n: nat, ghost more: seq<Bit>, ghost x: Task, ghost on: bool)
      returns (ok: bool, run: nat)
      requires reader.Valid() && (eob ==> r <= 14)
      requires on ==> !reader.insufficientData
                      && (if eob then n < 0x7FFF && r == Log2(n + 1) && reader.Ahead() == BitsOf(n + 1, r) + more
                          else n == 0 && reader.Ahead() == more)
      modifies reader`pos, reader`getBuffer, reader`bitsLeft, reader`unreadMarker, reader`insufficientData
      ensures reader.Valid() && (!ok ==> reader.Starved())
      ensures !ok ==> reader.unreadMarker == old(reader.unreadMarker) == 0
      ensures reader.unreadMarker == 0 ==> reader.insufficientData == old(reader.insufficientData)
      ensures old(reader.unreadMarker) != 0 ==> reader.unreadMarker == old(reader.unreadMarker)
      ensures ok && on ==> run == n && reader.Ahead() == more && !reader.insufficientData
    {
      ok, run := true, 0;
      if eob {
        if r != 0 {
          ok, run := DecodeRunLength(r, n + 1, more, on);
          run := run - 1;
        } else if on {
          RunExtra(n + 1);
          assert BitsOf(1, 0) + more == more;
        }
      }
    }

    /** EOBRUN = 1 << r, and the r extra bits added. */
    method DecodeRunLength(r: nat, ghost e: nat, ghost rest: seq<Bit>, ghost on: bool) returns (ok: bool, run: nat)
      requires reader.Valid() && r <= 15
      requires on ==> e >= 1 && r == Log2(e) && reader.Ahead() == BitsOf(e, r) + rest && !reader.insufficientData
      modifies reader`pos, reader`getBuffer, reader`bitsLeft, reader`unreadMarker, reader`insufficientData
      ensures reader.Valid() && (!ok ==> reader.Starved())
      ensures !ok ==> reader.unreadMarker == old(reader.unreadMarker) == 0
      ensures reader.unreadMarker == 0 ==> reader.insufficientData == old(reader.insufficientData)
      ensures old(reader.unreadMarker) != 0 ==> reader.unreadMarker == old(reader.unreadMarker)
      ensures run >= 1
      ensures ok && on ==> run == e && reader.Ahead() == rest && !reader.insufficientData
    {
      if on {
        RunExtra(e);
      }
      var bits;
      ok, bits := DecodeExtra(r, if on then e - Pow2(r) else 0, rest, on);
      run := Pow2(r) + bits;
    }

    lemma SkipBand(scan: Scan, tbl: HuffNo, z: ZBlock, block: seq<Jcoef>)
      requires scan.Routine().AcFirst? && scan.Injective() && Partly(scan, z, scan.al, block, scan.ss - 1, scan.se)
      requires FirstItems(tbl, z, scan.al, scan.ss, scan.se, 0).body == []
      ensures FirstItems(tbl, z, scan.al, scan.ss, scan.se, 0).tail.Some? ==>
                FirstItems(tbl, z, scan.al, scan.ss, scan.se, 0).tail.value == []
      ensures Placed(scan, z, scan.al, block, scan.ss, scan.se) == block
    {
      NoBody(tbl, z, scan.al, scan.ss, scan.se);
      NoCorrections(tbl, z, scan.al, scan.ss, scan.se, 0);
      PartlyVacant(scan, z, scan.al, block, scan.ss - 1, scan.ss - 1, scan.se);
      ZeroRunEnds(z, scan.al, scan.ss - 1, scan.se);
      PlacedZeros(scan, z, scan.al, block, scan.ss, scan.ss - 1, scan.se);
    }
  }

  /** A call that was suspended has left some coefficients in the block; the next one comes to the same
      result. */
  ghost predicate Again(sc: Scan, z: ZBlock, was: seq<Jcoef>, content: seq<Jcoef>) {
    && |was| == 64 && Partly(sc, z, 0, content, 0, sc.limSe)
    && Placed(sc, z, 0, content, 1, sc.limSe) == Placed(sc, z, 0, was, 1, sc.limSe)
  }

  /** The same for a band of a first scan. */
  ghost predicate AgainBand(sc: Scan, z: ZBlock, was: seq<Jcoef>, content: seq<Jcoef>) {
    && |was| == 64 && sc.Routine().AcFirst? && Partly(sc, z, sc.al, content, sc.ss - 1, sc.se)
    && Placed(sc, z, sc.al, content, sc.ss, sc.se) == Placed(sc, z, sc.al, was, sc.ss, sc.se)
  }

  /** The same for a whole block of a sequential scan. */
  ghost predicate Redo(sc: Scan, z: ZBlock, was: seq<Jcoef>, content: seq<Jcoef>) {
    && |was| == 64 && Partly(sc, z, 0, content, 0, sc.limSe)
    && (!sc.progressive ==> Decoded(sc, z, content) == Decoded(sc, z, was))
  }

  lemma AgainRedo(sc: Scan, z: ZBlock, was: seq<Jcoef>, content: seq<Jcoef>)
    requires |was| == 64 && sc.Injective() && Again(sc, z, was[0 := z[0]], content)
    ensures Redo(sc, z, was, content)
  {
    DcPlaceApart(sc, sc.limSe);
    PlacedElsewhere(sc, z, 0, content, 1, sc.limSe, 0);
    PlacedElsewhere(sc, z, 0, was[0 := z[0]], 1, sc.limSe, 0);
    assert content[0 := z[0]] == content;
  }

  /** What is kept of a block does not change the result either. */
  lemma KeptRedo(sc: Scan, z: ZBlock, was: seq<Jcoef>, content: seq<Jcoef>, limit: nat)
    requires Kept(sc, z, was, content, limit) && sc.Injective() && Partly(sc, z, 0, content, 0, sc.limSe)
    ensures Redo(sc, z, was, content)
  {
    var j: nat :| KeptAt(sc, z, was, content, limit, j);
    DcPlaceApart(sc, sc.limSe);
    PlacedElsewhere(sc, z, 0, was[0 := z[0]], 1, j, 0);
    assert content[0 := z[0]] == content;
    PlacedTwice(sc, z, 0, was[0 := z[0]], 1, j, sc.limSe);
  }

  /** An MCU can be decoded again, with the same result. */
  ghost predicate McuRedo(sc: Scan, zs: Mcu, before: seq<seq<Jcoef>>, after: seq<seq<Jcoef>>) {
    |before| == |after| == |zs| && forall j :: 0 <= j < |zs| ==> Redo(sc, zs[j], before[j], after[j])
  }

  lemma McuBreaks(sc: Scan, zs: Mcu, limits: seq<nat>, before: seq<seq<Jcoef>>, after: seq<seq<Jcoef>>, n: nat,
                  content: seq<Jcoef>)
    requires McuKept(sc, zs, limits, before, after, n) && n < |after| && McuReady(sc, zs, after) && sc.Injective()
    requires Redo(sc, zs[n], after[n], content)
    ensures McuRedo(sc, zs, before, after[n := content])
  {
    forall j | 0 <= j < |zs|
      ensures Redo(sc, zs[j], before[j], after[n := content][j])
    {
      if j < n && limits[j] != 0 {
        KeptRedo(sc, zs[j], before[j], after[j], limits[j]);
      }
    }
  }

  ghost predicate McuReady(sc: Scan, zs: Mcu, vals: seq<seq<Jcoef>>) {
    |vals| == |zs| && forall j :: 0 <= j < |vals| ==> Partly(sc, zs[j], 0, vals[j], 0, sc.limSe)
  }

  /** The first n blocks have been decoded, as far as their limits ask. */
  ghost predicate McuKept(sc: Scan, zs: Mcu, limits: seq<nat>, before: seq<seq<Jcoef>>, after: seq<seq<Jcoef>>, n: nat) {
    && |before| == |after| == |limits| == |zs|
    && forall j :: 0 <= j < |before| ==>
         if j < n && limits[j] != 0 then Kept(sc, zs[j], before[j], after[j], limits[j]) else after[j] == before[j]
  }

  lemma McuKeptMore(sc: Scan, zs: Mcu, limits: seq<nat>, before: seq<seq<Jcoef>>, after: seq<seq<Jcoef>>, n: nat,
                    content: seq<Jcoef>)
    requires McuKept(sc, zs, limits, before, after, n) && n < |before| && McuReady(sc, zs, before) && McuReady(sc, zs, after)
    requires if limits[n] != 0 then Kept(sc, zs[n], after[n], content, limits[n]) else content == after[n]
    requires !sc.progressive && sc.Injective()
    ensures McuKept(sc, zs, limits, before, after[n := content], n + 1) && McuReady(sc, zs, after[n := content])
  {
    if limits[n] != 0 {
      var j: nat :| KeptAt(sc, zs[n], after[n], content, limits[n], j);
      DcApart(sc, zs[n], after[n], zs[n][0]);
      PlacedPartly(sc, zs[n], 0, after[n][0 := zs[n][0]], 1, sc.limSe, j);
    }
  }

  // ------------------------------------------------------------------ the progress of an MCU

  /** How far an MCU of a sequential scan has been decoded: j blocks, with the predictions lastOut of
      the decoder and last of the encoder, and the contents `after` of the blocks. */
  datatype McuProgress = McuProgress(sc: HuffScan, zs: Mcu, limits: seq<nat>, needed: seq<bool>, before: seq<seq<Jcoef>>,
                                     last0: DcValues, t: Tables, rest: seq<Bit>,
                                     j: nat, lastOut: seq<int>, last: DcValues, after: seq<seq<Jcoef>>)

  /** The predictions agree with those of the encoder, for the components that are needed. */
  ghost predicate LastAgrees(lastDc: seq<int>, last: DcValues, needed: seq<bool>) {
    |lastDc| == |needed| == 4 && forall ci: Component :: needed[ci] ==> lastDc[ci] == last[ci]
  }

  /** A block has limit 0 exactly if its component is not needed. */
  ghost predicate LimitsFit(sc: HuffScan, limits: seq<nat>, needed: seq<bool>) {
    && |limits| == |sc.membership| && |needed| == MAX_COMPS_IN_SCAN
    && forall j :: 0 <= j < |limits| ==> limits[j] <= sc.limSe + 1 && (limits[j] != 0 <==> needed[sc.membership[j]])
  }

  ghost predicate Resumable(p: McuProgress) {
    McuReady(p.sc, p.zs, p.after) && McuRedo(p.sc, p.zs, p.before, p.after)
  }

  /** q is a later state of the same MCU. */
  ghost predicate Follows(p: McuProgress, q: McuProgress) {
    q == p.(j := q.j, lastOut := q.lastOut, last := q.last, after := q.after)
  }

  ghost predicate ProgressNow(p: McuProgress, bits: seq<Bit>) {
    && LimitsFit(p.sc, p.limits, p.needed) && |p.zs| == |p.sc.membership| && p.j <= |p.zs|
    && !p.sc.progressive && p.sc.Injective()
    && McuKept(p.sc, p.zs, p.limits, p.before, p.after, p.j)
    && McuReady(p.sc, p.zs, p.before) && McuReady(p.sc, p.zs, p.after) && LastAgrees(p.lastOut, p.last, p.needed)
    && LastAfter(p.sc, p.last, p.sc.membership[p.j..], p.zs[p.j..]) == LastAfter(p.sc, p.last0, p.sc.membership, p.zs)
    && var its := McuItems(p.sc, p.last, p.sc.membership[p.j..], p.zs[p.j..]);
       HaveCodes(p.t, its) && bits == ItemsBits(p.t, its) + p.rest
  }

  /** The same, unfolded only by the lemmas below. */
  ghost predicate Progress(p: McuProgress, bits: seq<Bit>) {
    forall b {:trigger ProgressNow(p, b)} :: b == bits ==> ProgressNow(p, b)
  }

  lemma ProgressFacts(p: McuProgress, bits: seq<Bit>)
    requires Progress(p, bits) && p.j < |p.sc.membership|
    ensures |p.zs| == |p.sc.membership| == |p.after| == |p.limits| && |p.lastOut| == 4 && p.sc.Injective()
    ensures Partly(p.sc, p.zs[p.j], 0, p.after[p.j], 0, p.sc.limSe)
    ensures p.limits[p.j] != 0 ==> p.lastOut[p.sc.membership[p.j]] == p.last[p.sc.membership[p.j]]
    ensures var its := McuItems(p.sc, p.last, p.sc.membership[p.j..], p.zs[p.j..]);
            HaveCodes(p.t, its) && bits == ItemsBits(p.t, its) + p.rest
  {
    assert ProgressNow(p, bits);
  }

  function NextProgress(p: McuProgress, content: seq<Jcoef>, lastOut: seq<int>): McuProgress
    requires p.j < |p.zs| == |p.sc.membership| == |p.after|
  {
    p.(j := p.j + 1, after := p.after[p.j := content], lastOut := lastOut,
       last := p.last[p.sc.membership[p.j] := p.zs[p.j][0]])
  }

  /** The next block of an MCU has new contents. */
  lemma HoldNext(blocks: seq<array<Jcoef>>, vals: seq<seq<Jcoef>>, j: nat, now: seq<seq<Jcoef>>)
    requires j < |blocks| == |vals| && now == vals[j := blocks[j][..]]
    requires forall i :: 0 <= i < |blocks| ==> blocks[i].Length == 64
    requires forall i :: 0 <= i < |blocks| && i != j ==> blocks[i][..] == vals[i]
    ensures Hold(blocks, now)
  {
  }

  lemma ProgressMore(p: McuProgress, bits: seq<Bit>, content: seq<Jcoef>, lastOut: seq<int>, bits1: seq<Bit>)
    requires Progress(p, bits) && p.j < |p.zs| == |p.sc.membership| == |p.limits| == |p.after| && |p.lastOut| == 4
    requires if p.limits[p.j] == 0 then lastOut == p.lastOut && content == p.after[p.j]
             else lastOut == p.lastOut[p.sc.membership[p.j] := p.zs[p.j][0]]
                  && Kept(p.sc, p.zs[p.j], p.after[p.j], content, p.limits[p.j])
    requires var its := McuItems(p.sc, p.last[p.sc.membership[p.j] := p.zs[p.j][0]],
                                 p.sc.membership[p.j + 1..], p.zs[p.j + 1..]);
             HaveCodes(p.t, its) && bits1 == ItemsBits(p.t, its) + p.rest
    ensures Progress(NextProgress(p, content, lastOut), bits1)
  {
    assert ProgressNow(p, bits);
    LastMore(p.sc, p.zs, p.j, p.last);
    AgreesMore(p, lastOut);
    McuKeptMore(p.sc, p.zs, p.limits, p.before, p.after, p.j, content);
    assert ProgressNow(NextProgress(p, content, lastOut), bits1);
  }

  lemma LastMore(sc: HuffScan, zs: Mcu, j: nat, last: DcValues)
    requires j < |zs| == |sc.membership| && !sc.progressive
    ensures LastAfter(sc, last, sc.membership[j..], zs[j..])
         == LastAfter(sc, last[sc.membership[j] := zs[j][0]], sc.membership[j + 1..], zs[j + 1..])
  {
    assert sc.membership[j..][1..] == sc.membership[j + 1..] && zs[j..][1..] == zs[j + 1..];
  }

  lemma AgreesMore(p: McuProgress, lastOut: seq<int>)
    requires p.j < |p.zs| == |p.sc.membership| == |p.limits| && LimitsFit(p.sc, p.limits, p.needed)
    requires LastAgrees(p.lastOut, p.last, p.needed)
    requires lastOut == if p.limits[p.j] == 0 then p.lastOut else p.lastOut[p.sc.membership[p.j] := p.zs[p.j][0]]
    ensures LastAgrees(lastOut, p.last[p.sc.membership[p.j] := p.zs[p.j][0]], p.needed)
  {
    assert p.limits[p.j] != 0 <==> p.needed[p.sc.membership[p.j]];
  }

  lemma ProgressBreaks(p: McuProgress, bits: seq<Bit>, content: seq<Jcoef>)
    requires Progress(p, bits) && p.j < |p.zs| == |p.after| && Redo(p.sc, p.zs[p.j], p.after[p.j], content)
    ensures Resumable(p.(after := p.after[p.j := content]))
  {
    assert ProgressNow(p, bits);
    McuBreaks(p.sc, p.zs, p.limits, p.before, p.after, p.j, content);
  }

  /** An MCU is begun, or begun again after a suspension. */
  lemma ProgressStarts(p: McuProgress, bits: seq<Bit>)
    requires LimitsFit(p.sc, p.limits, p.needed) && |p.zs| == |p.sc.membership| && p.j == 0
    requires !p.sc.progressive && p.sc.Injective() && p.after == p.before && McuReady(p.sc, p.zs, p.before)
    requires LastAgrees(p.lastOut, p.last0, p.needed) && p.last == p.last0
    requires var its := McuItems(p.sc, p.last0, p.sc.membership, p.zs);
             HaveCodes(p.t, its) && bits == ItemsBits(p.t, its) + p.rest
    ensures Progress(p, bits)
  {
    assert p.sc.membership[0..] == p.sc.membership && p.zs[0..] == p.zs;
    assert ProgressNow(p, bits);
  }

  lemma ProgressEnds(p: McuProgress, bits: seq<Bit>)
    requires Progress(p, bits) && p.j == |p.sc.membership|
    ensures bits == p.rest && |p.zs| == |p.sc.membership| && McuKept(p.sc, p.zs, p.limits, p.before, p.after, |p.zs|)
    ensures LastAgrees(p.lastOut, LastAfter(p.sc, p.last0, p.sc.membership, p.zs), p.needed)
  {
    assert ProgressNow(p, bits);
    assert [] + p.rest == p.rest;
  }

  /** What comes at block j of an MCU: its items, and then those of the other blocks. */
  lemma BlockAhead(t: Tables, sc: HuffScan, last: DcValues, j: nat, zs: Mcu, rest: seq<Bit>) returns (rest1: seq<Bit>)
    requires j < |zs| == |sc.membership| && !sc.progressive
    ensures var ci := sc.membership[j];
            var b := BlockItems(DcNo(sc, ci), AcNo(sc, ci), sc, last[ci], zs[j]);
            var its := McuItems(sc, last[ci := zs[j][0]], sc.membership[j + 1..], zs[j + 1..]);
            && rest1 == ItemsBits(t, its) + rest
            && ItemsBits(t, McuItems(sc, last, sc.membership[j..], zs[j..])) + rest == ItemsBits(t, b) + rest1
            && (HaveCodes(t, McuItems(sc, last, sc.membership[j..], zs[j..])) <==> HaveCodes(t, b) && HaveCodes(t, its))
  {
    var ci := sc.membership[j];
    McuHeadBits(t, sc, last, sc.membership[j..], zs[j..], rest);
    assert sc.membership[j..][1..] == sc.membership[j + 1..] && zs[j..][1..] == zs[j + 1..];
    rest1 := ItemsBits(t, McuItems(sc, last[ci := zs[j][0]], sc.membership[j + 1..], zs[j + 1..])) + rest;
  }

  lemma McuHeadBits(t: Tables, sc: HuffScan, last: DcValues, ms: seq<Component>, zs: Mcu, rest: seq<Bit>)
    requires |ms| == |zs| != 0 && !sc.progressive
    ensures var b := BlockItems(DcNo(sc, ms[0]), AcNo(sc, ms[0]), sc, last[ms[0]], zs[0]);
            var its := McuItems(sc, last[ms[0] := zs[0][0]], ms[1..], zs[1..]);
            && ItemsBits(t, McuItems(sc, last, ms, zs)) + rest == ItemsBits(t, b) + (ItemsBits(t, its) + rest)
            && (HaveCodes(t, McuItems(sc, last, ms, zs)) <==> HaveCodes(t, b) && HaveCodes(t, its))
  {
    PairBits(t, BlockItems(DcNo(sc, ms[0]), AcNo(sc, ms[0]), sc, last[ms[0]], zs[0]),
             McuItems(sc, last[ms[0] := zs[0][0]], ms[1..], zs[1..]), rest);
  }

  /** The block holds the coefficients up to j, which reaches the limit. */
  ghost predicate KeptAt(sc: Scan, z: ZBlock, before: seq<Jcoef>, after: seq<Jcoef>, limit: nat, j: nat) {
    |before| == 64 && limit <= j + 1 && j <= sc.limSe && after == Placed(sc, z, 0, before[0 := z[0]], 1, j)
  }

  ghost predicate Kept(sc: Scan, z: ZBlock, before: seq<Jcoef>, after: seq<Jcoef>, limit: nat) {
    exists j: nat :: KeptAt(sc, z, before, after, limit, j)
  }

  /** Without a limit, everything is kept. */
  lemma AllKept(sc: Scan, z: ZBlock, before: seq<Jcoef>, after: seq<Jcoef>)
    requires Kept(sc, z, before, after, sc.limSe + 1) && !sc.progressive
    ensures |before| == 64 && after == Decoded(sc, z, before)
  {
  }

  lemma DcPlaceApart(sc: Scan, j: nat)
    requires sc.Injective() && j <= sc.limSe
    ensures forall i :: 1 <= i <= j ==> sc.order[i] != 0
  {
    forall i | 1 <= i <= j
      ensures sc.order[i] != 0
    {
      assert sc.order[0] != sc.order[i];
    }
  }

  lemma DcApart(sc: Scan, z: ZBlock, block: seq<Jcoef>, dc: Jcoef)
    requires |block| == 64 && sc.Injective() && Partly(sc, z, 0, block, 0, sc.limSe)
    ensures Partly(sc, z, 0, block[0 := dc], 0, sc.limSe)
  {
    DcPlaceApart(sc, sc.limSe);
  }

  lemma BlockBits(t: Tables, dcTbl: HuffNo, tbl: HuffNo, sc: Scan, last: Coef, z: ZBlock, rest: seq<Bit>)
    requires !sc.progressive
    ensures ItemsBits(t, BlockItems(dcTbl, tbl, sc, last, z)) + rest
         == ItemsBits(t, DcItems(dcTbl, z[0] - last)) + (ItemsBits(t, SequentialAc(tbl, z, sc.limSe)) + rest)
    ensures HaveCodes(t, BlockItems(dcTbl, tbl, sc, last, z))
       <==> HaveCodes(t, DcItems(dcTbl, z[0] - last)) && HaveCodes(t, SequentialAc(tbl, z, sc.limSe))
  {
    PairBits(t, DcItems(dcTbl, z[0] - last), SequentialAc(tbl, z, sc.limSe), rest);
  }

  lemma PairBits(t: Tables, a: seq<Item>, b: seq<Item>, rest: seq<Bit>)
    ensures ItemsBits(t, a + b) + rest == ItemsBits(t, a) + (ItemsBits(t, b) + rest)
    ensures HaveCodes(t, a + b) <==> HaveCodes(t, a) && HaveCodes(t, b)
  {
    ItemsBitsConcat(t, a, b);
    HaveCodesConcat(t, a, b);
    BitsAssoc(ItemsBits(t, a), ItemsBits(t, b), rest);
  }

  /** The decoder's task for the AC part of a sequential block. */
  lemma SequentialStarts(t: Tables, tbl: HuffNo, sc: Scan, z: ZBlock, was: seq<Jcoef>, rest: seq<Bit>) returns (x: Task)
    requires |was| == 64 && sc.Injective() && Partly(sc, z, 0, was, 0, sc.limSe)
    requires HaveCodes(t, SequentialAc(tbl, z, sc.limSe))
    ensures x.t == t && x.tbl == tbl && x.sc == sc && x.z == z && x.was == was && x.Behind() == rest
    ensures x.al == 0 && x.a == 1 && x.se == sc.limSe && x.eobSym == 0
    ensures DecodedTo(x, 1, ItemsBits(t, SequentialAc(tbl, z, sc.limSe)) + rest, was)
  {
    var ended := FirstItems(tbl, z, 0, 1, sc.limSe, 0).tail.Some?;
    x := BandTask(t, tbl, sc, z, 0, 1, sc.limSe, was, if ended then CodeBits(t.ac[tbl], 0) + rest else rest, ended, 0, rest);
    SequentialBits(t, tbl, z, sc.limSe, rest);
    BandStarts(x);
  }
}
