/** The bit input of the Huffman decoder: jpeg_fill_bit_buffer, the macros CHECK_BIT_BUFFER,
    GET_BITS and HUFF_DECODE, and jpeg_huff_decode (jdhuff.c), on a source that may refuse to
    deliver more bytes for the time being. */
module BitReaderObject {
  import opened ArithTable
  import opened PointTransform
  import opened HuffmanCodes
  import opened HuffmanDerived
  import opened BitStrings
  import opened Segments

  const MIN_GET_BITS := 25

  ghost predicate MarkerIsNow(raw: seq<Byte>, p: nat, q: nat) {
    p <= |raw| && MarkerFrom(raw, p) == q
  }

  /** The next marker from p on has its code at q (unfolded only on demand). */
  ghost predicate MarkerIs(raw: seq<Byte>, p: nat, q: nat) {
    forall r {:trigger MarkerIsNow(raw, p, r)} :: r == q ==> MarkerIsNow(raw, p, r)
  }

  class BitReader {
    const raw: seq<Byte>        // the whole input
    var avail: nat              // how much of it has arrived
    var pos: nat                // how much has been read
    var getBuffer: nat          // the bits that have been read but not used
    var bitsLeft: nat           // how many they are
    var unreadMarker: Byte      // the marker that ends the segment, once it has been reached, or 0
    var insufficientData: bool  // zeros had to be supplied
    ghost var end: nat          // where the code of the marker that ends the segment stands

    constructor (raw: seq<Byte>, pos: nat, avail: nat)
      requires pos <= avail <= |raw|
      ensures this.raw == raw && this.pos == pos && this.avail == avail && Valid()
      ensures bitsLeft == 0 && unreadMarker == 0 && !insufficientData && end == MarkerFrom(raw, pos)
    {
      this.raw, this.pos, this.avail, this.end := raw, pos, avail, MarkerFrom(raw, pos);
      getBuffer, bitsLeft, unreadMarker, insufficientData := 0, 0, 0, false;
    }

    ghost predicate Valid()
      reads this
    {
      bitsLeft <= 32 && Inside(pos)
    }

    /** Position p belongs to the open segment or, once its marker has been reached, lies behind that. */
    ghost predicate Inside(p: nat)
      reads this`avail, this`unreadMarker, this`end
    {
      && p <= avail <= |raw|
      && if unreadMarker == 0 then MarkerIs(raw, p, end)
         else end < avail && p == end + 1 && unreadMarker == raw[end]
    }

    /** All bits of the segment that have not been used, those that have not arrived included. */
    ghost function Ahead(): seq<Bit>
      requires Valid()
      reads this
    {
      BitsOf(getBuffer, bitsLeft) + if unreadMarker != 0 then [] else BytesBits(DataFrom(raw, pos))
    }

    /** z zeros have been supplied, and that is on record. */
    ghost predicate Zeroed(was: bool, z: nat)
      reads this`insufficientData, this`unreadMarker
    {
      (insufficientData <==> was || z > 0) && (z > 0 ==> unreadMarker != 0)
    }

    /** The rest of the segment, with its marker, has arrived. */
    ghost predicate Complete()
      reads this`end, this`avail
    {
      end < avail
    }

    /** The data bytes from p on that have arrived. */
    ghost function AtHand(p: nat): seq<Byte>
      requires p <= avail <= |raw|
      reads this`avail
    {
      DataFrom(raw[..avail], p)
    }

    /** With n bits in the buffer and position p, neither the marker has arrived nor enough bytes to fill the buffer. */
    ghost predicate Short(p: nat, n: nat)
      reads this`avail, this`end, this`unreadMarker
    {
      p <= avail <= |raw| && unreadMarker == 0 && !Complete() && n + 8 * |AtHand(p)| < MIN_GET_BITS
    }

    /** That is so where the reader stands (unfolded only by StarvedIs). */
    ghost predicate Starved()
      reads this
    {
      forall p {:trigger Short(p, bitsLeft)} :: p == pos ==> Short(p, bitsLeft)
    }

    /** The reader is starved only as long as bytes are missing: less than 25 bits are at hand, and no marker. */
    lemma StarvedIs()
      requires Starved()
      ensures pos <= avail <= |raw| && !Complete() && bitsLeft + 8 * |AtHand(pos)| < MIN_GET_BITS
    {
      assert Short(pos, bitsLeft);
    }

    lemma StarvedHere()
      requires Short(pos, bitsLeft)
      ensures Starved()
    {
    }

    /** A byte that has been loaded is in the buffer instead. */
    lemma ByteTaken(p0: nat, p: nat, left: nat, c: Byte)
      requires p0 <= avail <= |raw| && p <= avail && AtHand(p0) == [c] + AtHand(p)
      ensures Short(p, left + 8) <==> Short(p0, left)
    {
    }

    /** jpeg_fill_bit_buffer: at least nbits bits, with zeros behind the end of the segment; it
        fails, and changes nothing, exactly if the marker has not arrived, nor enough bytes to fill the buffer. */
    method Fill(nbits: nat) returns (ok: bool, ghost z: nat)
      requires Valid() && nbits <= MIN_GET_BITS
      modifies this`pos, this`getBuffer, this`bitsLeft, this`unreadMarker, this`insufficientData
      ensures Valid() && (ok <==> !old(Starved())) && (!ok ==> Starved())
      ensures ok ==> bitsLeft >= nbits && Ahead() == old(Ahead()) + Zeros(z)
      ensures ok ==> (z > 0 ==> |old(Ahead())| < nbits) && (bitsLeft >= MIN_GET_BITS || unreadMarker != 0)
      ensures !ok ==> pos == old(pos) && getBuffer == old(getBuffer) && bitsLeft == old(bitsLeft)
                      && unreadMarker == old(unreadMarker) == 0 && insufficientData == old(insufficientData)
      ensures old(unreadMarker) != 0 ==> unreadMarker == old(unreadMarker)
      ensures Zeroed(old(insufficientData), z)
    {
      ok, z := true, 0;
      assert Ahead() + Zeros(0) == Ahead();
      if unreadMarker == 0 {
        var more;
        ok, more := Load();
        if !ok || more {
          return;
        }
      } else {
        assert !Short(pos, bitsLeft);
      }
      z := Pad(nbits);
    }

    /** No more bytes: the request must be met from the buffer, or with zeros. */
    method Pad(nbits: nat) returns (ghost z: nat)
      requires Valid() && nbits <= MIN_GET_BITS && unreadMarker != 0
      modifies this`getBuffer, this`bitsLeft, this`insufficientData
      ensures Valid() && bitsLeft >= nbits && Ahead() == old(Ahead()) + Zeros(z)
      ensures z > 0 ==> |old(Ahead())| < nbits
      ensures Zeroed(old(insufficientData), z)
    {
      z := 0;
      assert Ahead() == BitsOf(getBuffer, bitsLeft);
      if nbits > bitsLeft {
        insufficientData := true;
        z := MIN_GET_BITS - bitsLeft;
        PadBuffer(getBuffer, bitsLeft, MIN_GET_BITS - bitsLeft);
        getBuffer := Shift(getBuffer, MIN_GET_BITS - bitsLeft) % 0x1_0000_0000;
        bitsLeft := MIN_GET_BITS;
      }
    }

    /** The loop that loads bytes; `more` is false if it has reached a marker. */
    method Load() returns (ok: bool, more: bool)
      requires Valid() && unreadMarker == 0
      modifies this`pos, this`getBuffer, this`bitsLeft, this`unreadMarker
      ensures Valid() && (ok <==> !old(Starved())) && (!ok ==> Starved())
      ensures ok ==> Ahead() == old(Ahead()) && (if more then bitsLeft >= MIN_GET_BITS else unreadMarker != 0)
      ensures !ok ==> pos == old(pos) && getBuffer == old(getBuffer) && bitsLeft == old(bitsLeft) && unreadMarker == 0
    {
      ghost var all, short := Ahead(), Short(pos, bitsLeft);
      assert LoadingNow(all, getBuffer, bitsLeft, pos);
      var g, left, p;
      ok, more, g, left, p := LoadBytes(all, short);
      if ok {
        assert LoadingNow(all, g, left, p);
        pos, getBuffer, bitsLeft := p, g, left;
      } else {
        StarvedHere();
      }
    }

    /** The bytes are loaded into local variables first. */
    method LoadBytes(ghost all: seq<Bit>, ghost short: bool) returns (ok: bool, more: bool, g: nat, left: nat, p: nat)
      requires unreadMarker == 0 && bitsLeft <= 32 && Loading(all, getBuffer, bitsLeft, pos) && (short <==> Short(pos, bitsLeft))
      modifies this`unreadMarker
      ensures (ok <==> !short) && (!ok ==> unreadMarker == 0)
      ensures ok ==> left <= 32 && more == (unreadMarker == 0) && Loading(all, g, left, p) && (more ==> left >= MIN_GET_BITS)
    {
      ok, more, g, left, p := true, true, getBuffer, bitsLeft, pos;
      while left < MIN_GET_BITS && more && ok
        invariant more == (unreadMarker == 0) && (ok ==> left <= 32 && Loading(all, g, left, p))
        invariant if !ok then short && more else if more then Short(p, left) <==> short else !short
        decreases ok, more, (avail as int) - p
      {
        ok, more, g, left, p := LoadOne(all, g, left, p, short);
      }
    }

    /** All bits are those in the buffer g and, if no marker has been reached, those from p on. */
    ghost predicate Loading(all: seq<Bit>, g: nat, left: nat, p: nat)
      reads this`avail, this`unreadMarker, this`end
    {
      forall a {:trigger LoadingNow(a, g, left, p)} :: a == all ==> LoadingNow(a, g, left, p)
    }

    ghost predicate LoadingNow(all: seq<Bit>, g: nat, left: nat, p: nat)
      reads this`avail, this`unreadMarker, this`end
    {
      Inside(p) && all == BitsOf(g, left) + (if unreadMarker == 0 then BytesBits(DataFrom(raw, p)) else [])
    }

    method LoadOne(ghost all: seq<Bit>, g0: nat, left0: nat, p0: nat, ghost short: bool)
      returns (ok: bool, more: bool, g: nat, left: nat, p: nat)
      requires left0 < MIN_GET_BITS && unreadMarker == 0 && Loading(all, g0, left0, p0)
      requires short <==> Short(p0, left0)
      modifies this`unreadMarker
      ensures !ok ==> more && unreadMarker == 0 && short
      ensures ok ==> left <= 32 && more == (unreadMarker == 0) && Loading(all, g, left, p)
      ensures ok && more ==> p0 < p <= avail && (Short(p, left) <==> short)
      ensures ok && !more ==> !short
    {
      var c, marker;
      g, left, more := g0, left0, true;
      assert LoadingNow(all, g0, left0, p0);
      ok, c, marker, p := NextData(p0);
      if !ok {
        return;
      }
      if marker != 0 {
        unreadMarker := marker;
        more := false;
        assert LoadingNow(all, g, left, p);
      } else {
        ByteTaken(p0, p, left, c);
        BufferByte(g, left, c);
        LoadByte(BitsOf(g, left), c, DataFrom(raw, p));
        g := (g * 256 + c) % 0x1_0000_0000;
        left := left + 8;
        assert LoadingNow(all, g, left, p);
      }
    }

    /** One data byte, with stuffed zero bytes and padding taken care of, or a marker. */
    method NextData(p0: nat) returns (ok: bool, c: Byte, marker: Byte, p: nat)
      requires p0 <= avail <= |raw| && MarkerIs(raw, p0, end)
      ensures p0 <= p <= avail
      ensures !ok ==> end >= avail && AtHand(p0) == []
      ensures ok && marker == 0 ==> p0 < p && DataFrom(raw, p0) == [c] + DataFrom(raw, p) && MarkerIs(raw, p, end)
      ensures ok && marker == 0 ==> AtHand(p0) == [c] + AtHand(p)
      ensures ok && marker != 0 ==> DataFrom(raw, p0) == [] && end < avail && marker == raw[end] && p == end + 1
    {
      assert MarkerIsNow(raw, p0, end);
      ok, c, marker, p := true, 0, 0, p0;
      if p == avail {
        return false, 0, 0, p;
      }
      c := raw[p];
      p := p + 1;
      if c == 0xFF {
        ghost var q, h := SkipFF(raw, p), SkipFF(raw[..avail], p);
        while c == 0xFF
          invariant p0 < p <= avail && if c == 0xFF then q == SkipFF(raw, p) else p == q + 1 && c == raw[q]
          invariant if c == 0xFF then h == SkipFF(raw[..avail], p) else h == q
          decreases c == 0xFF, avail - p
        {
          if p == avail {
            MarkerBehind(p0, avail, q);
            return false, 0, 0, p;
          }
          c := raw[p];
          p := p + 1;
        }
        if c == 0 {
          c := 0xFF;
        } else {
          marker := c;
        }
      }
    }

    /** The FF bytes reach to the end of what has arrived. */
    lemma MarkerBehind(p0: nat, end: nat, q: nat)
      requires p0 < end <= q <= |raw| && raw[p0] == 0xFF && q == SkipFF(raw, p0 + 1)
      ensures MarkerFrom(raw, p0) >= end
    {
    }

    /** next_marker of jdmarker.c: skips to the next marker. */
    method NextMarker() returns (ok: bool)
      requires Valid() && unreadMarker == 0 && bitsLeft == 0
      modifies this`pos, this`unreadMarker
      ensures Valid() && (ok <==> unreadMarker != 0) && (!ok ==> Starved())
    {
      ok := true;
      while unreadMarker == 0 && ok
        invariant Valid() && (!ok ==> unreadMarker == 0 && Short(pos, 0))
        decreases ok, unreadMarker == 0, (avail as int) - pos
      {
        SkipData();
        if pos == avail {
          ok := false;
        } else {
          ok := SkipFill();
        }
      }
    }

    /** Discards bytes up to the next FF. */
    method SkipData()
      requires Valid() && unreadMarker == 0
      modifies this`pos
      ensures Valid() && old(pos) <= pos && (pos < avail ==> raw[pos] == 0xFF) && (pos == avail ==> Short(pos, 0))
    {
      assert MarkerIsNow(raw, pos, end);
      while pos < avail && raw[pos] != 0xFF
        invariant old(pos) <= pos <= avail && MarkerFrom(raw, pos) == end
      {
        pos := pos + 1;
      }
    }

    /** Swallows FF bytes, and the code behind them: of a marker, or of a stuffed FF. */
    method SkipFill() returns (ok: bool)
      requires Valid() && unreadMarker == 0 && pos < avail && raw[pos] == 0xFF
      modifies this`pos, this`unreadMarker
      ensures Valid() && (ok ==> old(pos) < pos) && (!ok ==> unreadMarker == 0 && Short(pos, 0))
    {
      assert MarkerIsNow(raw, pos, end);
      ghost var q := SkipFF(raw, pos + 1);
      var p := pos + 1;
      while p < avail && raw[p] == 0xFF
        invariant pos < p <= avail && SkipFF(raw, p) == q && SkipFF(raw[..avail], p) == SkipFF(raw[..avail], pos + 1)
      {
        p := p + 1;
      }
      ok := p < avail;
      if ok {
        unreadMarker := raw[p];
        pos := p + 1;
      } else {
        MarkerBehind(pos, avail, q);
      }
    }

    /** The marker has been dealt with, and the next segment begins. */
    method PassMarker()
      requires Valid() && unreadMarker != 0
      modifies this`unreadMarker, this`end, this`bitsLeft
      ensures Valid() && unreadMarker == bitsLeft == 0 && pos == old(end) + 1
    {
      unreadMarker, end, bitsLeft := 0, MarkerFrom(raw, pos), 0;
      assert MarkerIsNow(raw, pos, end);
    }

    /** CHECK_BIT_BUFFER and GET_BITS. */
    method GetBits(n: nat) returns (ok: bool, r: nat, ghost z: nat)
      requires Valid() && n <= 16
      modifies this`pos, this`getBuffer, this`bitsLeft, this`unreadMarker, this`insufficientData
      ensures Valid() && (!ok ==> Starved()) && (ok <==> old(bitsLeft) >= n || !old(Starved()))
      ensures ok ==> n <= |old(Ahead())| + z && Ahead() == (old(Ahead()) + Zeros(z))[n..]
      ensures ok ==> r == Prefix(old(Ahead()), n) < Pow2(n) && (z > 0 ==> |old(Ahead())| < n)
      ensures !ok ==> unreadMarker == old(unreadMarker) == 0
      ensures old(unreadMarker) != 0 ==> unreadMarker == old(unreadMarker)
      ensures Zeroed(old(insufficientData), z)
    {
      ghost var ahead := Ahead();
      ok, r, z := true, 0, 0;
      assert ahead + Zeros(0) == ahead;
      if bitsLeft < n {
        ok, z := Fill(n);
        if !ok {
          return;
        }
      }
      r := TakeBits(n);
      PrefixPadded(ahead, z, n);
      PrefixBound(ahead, n);
    }

    method TakeBits(n: nat) returns (r: nat)
      requires Valid() && n <= bitsLeft
      modifies this`bitsLeft
      ensures Valid() && r == Prefix(old(Ahead()), n) && bitsLeft == old(bitsLeft) - n
      ensures n <= |old(Ahead())| && Ahead() == old(Ahead())[n..]
    {
      ghost var rest := if unreadMarker != 0 then [] else BytesBits(DataFrom(raw, pos));
      PrefixOfBuffer(getBuffer, bitsLeft, n, rest);
      bitsLeft := bitsLeft - n;
      assert Ahead() == BitsOf(getBuffer, bitsLeft) + rest;
      r := ShrNat(getBuffer, bitsLeft) % Pow2(n);
    }

    /** PEEK_BITS */
    method PeekBits(n: nat) returns (r: nat)
      requires Valid() && n <= bitsLeft
      ensures r == Prefix(Ahead(), n) < Pow2(n)
    {
      PrefixOfBuffer(getBuffer, bitsLeft, n, if unreadMarker != 0 then [] else BytesBits(DataFrom(raw, pos)));
      r := ShrNat(getBuffer, bitsLeft - n) % Pow2(n);
    }

    /** What HUFF_DECODE makes of the bits `ahead`: the symbol, and the state of the buffer. */
    ghost predicate Decoded(t: HuffTbl, ahead: seq<Bit>, sym: Byte, z: nat)
      requires Valid() && Legal(t.bits)
      reads this
    {
      var f := Decode(t.bits, ahead);
      var n := if f.Index? then f.n else 17;
      && (f.Index? ==> f.p < 256)
      && sym == (if f.Index? then t.vals[f.p] else 0)
      && n <= |ahead| + z && Ahead() == (ahead + Zeros(z))[n..] && (z > 0 ==> |ahead| < n)
    }

    /** HUFF_DECODE: the symbol whose code comes next; symbol 0 stands for bits that begin no code.
        It is the symbol that bit-serial decoding of the same bits finds. */
    method HuffDecode(d: DTable, ghost t: HuffTbl) returns (ok: bool, sym: Byte, ghost z: nat)
      requires Valid() && Legal(t.bits) && Decodes(d, t)
      modifies this`pos, this`getBuffer, this`bitsLeft, this`unreadMarker, this`insufficientData
      ensures Valid() && (!ok ==> Starved()) && (old(bitsLeft) < HUFF_LOOKAHEAD && old(Starved()) ==> !ok)
      ensures ok ==> Decoded(t, old(Ahead()), sym, z)
      ensures !ok ==> unreadMarker == old(unreadMarker) == 0
      ensures old(unreadMarker) != 0 ==> unreadMarker == old(unreadMarker)
      ensures Zeroed(old(insufficientData), z)
    {
      ok, sym, z := true, 0, 0;
      if bitsLeft < HUFF_LOOKAHEAD {
        ghost var none;
        ok, none := Fill(0);
        if !ok {
          return;
        }
        assert Ahead() == old(Ahead()) by {
          assert old(Ahead()) + Zeros(0) == old(Ahead());
        }
        if bitsLeft < HUFF_LOOKAHEAD {
          ok, sym, z := HuffDecodeSlow(d, t, 1);
          return;
        }
      }
      ok, sym, z := HuffDecodeFast(d, t, HUFF_LOOKAHEAD);
    }

    /** With w bits in the buffer, the lookahead tables are tried first. */
    method HuffDecodeFast(d: DTable, ghost t: HuffTbl, w: nat) returns (ok: bool, sym: Byte, ghost z: nat)
      requires Valid() && Legal(t.bits) && Decodes(d, t) && w == HUFF_LOOKAHEAD <= bitsLeft
      modifies this`pos, this`getBuffer, this`bitsLeft, this`unreadMarker, this`insufficientData
      ensures Valid() && (!ok ==> Starved())
      ensures ok ==> Decoded(t, old(Ahead()), sym, z)
      ensures !ok ==> unreadMarker == old(unreadMarker) == 0
      ensures old(unreadMarker) != 0 ==> unreadMarker == old(unreadMarker)
      ensures Zeroed(old(insufficientData), z)
    {
      ghost var ahead := Ahead();
      var look := PeekBits(w);
      LookAgrees(t.bits, ahead, look, w);
      LookBound(look, w);
      assert LookOk(t, look, w, d.lookNbits[look], d.lookSym[look]);
      var nb := d.lookNbits[look];
      DecodeIff(t.bits, BitsOf(look, w), 0);
      if nb != 0 {
        ghost var r := TakeBits(nb);
        ok, sym, z := true, d.lookSym[look], 0;
        assert ahead + Zeros(0) == ahead;
      } else {
        ok, sym, z := HuffDecodeSlow(d, t, w + 1);
      }
    }

    lemma LookBound(look: nat, w: nat)
      requires look < Pow2(w) && w == 8
      ensures look < 256
    {
      Pow2Of32();
    }

    /** jpeg_huff_decode: the code is at least min bits long. */
    method HuffDecodeSlow(d: DTable, ghost t: HuffTbl, min: nat) returns (ok: bool, sym: Byte, ghost z: nat)
      requires Valid() && Legal(t.bits) && d.pub == t && LengthsOk(d, t) && 1 <= min <= 16
      requires Prefix(Ahead(), min) >= MinCode(t.bits, min) && Decode(t.bits, Ahead()) == Search(t.bits, Ahead(), min)
      modifies this`pos, this`getBuffer, this`bitsLeft, this`unreadMarker, this`insufficientData
      ensures Valid() && (!ok ==> Starved())
      ensures ok ==> Decoded(t, old(Ahead()), sym, z)
      ensures !ok ==> unreadMarker == old(unreadMarker) == 0
      ensures old(unreadMarker) != 0 ==> unreadMarker == old(unreadMarker)
      ensures Zeroed(old(insufficientData), z)
    {
      ghost var ahead := Ahead();
      var l, code := min, 0;
      sym := 0;
      ok, code, z := GetBits(l);
      while ok && code > d.maxcode[l]
        invariant Valid() && min <= l <= 17 && (!ok ==> Starved())
        invariant ok ==> Taken(t, ahead, l, z) && code == Prefix(ahead, l)
        invariant !ok ==> unreadMarker == old(unreadMarker) == 0
        invariant old(unreadMarker) != 0 ==> unreadMarker == old(unreadMarker)
        invariant Zeroed(old(insufficientData), z)
        decreases ok, 17 - l
      {
        ok, code, z := NextCodeBit(d, t, ahead, l, code, z, old(insufficientData));
        l := if ok then l + 1 else l;
      }
      if ok {
        sym := SymbolOf(d, t, ahead, l, code, z);
      }
    }

    /** The symbol of a code that is no greater than the greatest of its length. */
    method SymbolOf(d: DTable, ghost t: HuffTbl, ghost ahead: seq<Bit>, l: nat, code: nat, ghost z: nat) returns (sym: Byte)
      requires Valid() && Legal(t.bits) && d.pub == t && LengthsOk(d, t)
      requires Taken(t, ahead, l, z) && code == Prefix(ahead, l) <= d.maxcode[l]
      ensures Decoded(t, ahead, sym, z)
    {
      if l > 16 {
        return 0;
      }
      assert LengthOk(t.bits, d.maxcode[l], d.valoffset[l], l);
      SearchSound(t.bits, ahead, l);
      sym := d.pub.vals[code + d.valoffset[l]];
    }

    /** l bits have been taken, which are greater than all shorter codes. */
    ghost predicate Taken(t: HuffTbl, ahead: seq<Bit>, l: nat, z: nat)
      requires Valid()
      reads this
    {
      && l <= |ahead| + z && Ahead() == (ahead + Zeros(z))[l..] && (z > 0 ==> |ahead| < l)
      && 1 <= l <= 17 && Prefix(ahead, l) >= MinCode(t.bits, l) && Decode(t.bits, ahead) == Search(t.bits, ahead, l)
    }

    /** code <<= 1; code |= GET_BITS(1) */
    method NextCodeBit(d: DTable, ghost t: HuffTbl, ghost ahead: seq<Bit>, l: nat, code0: nat, ghost z0: nat, ghost was: bool)
      returns (ok: bool, code: nat, ghost z: nat)
      requires Valid() && Legal(t.bits) && d.pub == t && LengthsOk(d, t)
      requires Taken(t, ahead, l, z0) && code0 == Prefix(ahead, l) > d.maxcode[l] && Zeroed(was, z0)
      modifies this`pos, this`getBuffer, this`bitsLeft, this`unreadMarker, this`insufficientData
      ensures Valid() && (!ok ==> Starved())
      ensures ok ==> l <= 16 && Taken(t, ahead, l + 1, z) && code == Prefix(ahead, l + 1)
      ensures !ok ==> unreadMarker == old(unreadMarker) == 0
      ensures old(unreadMarker) != 0 ==> unreadMarker == old(unreadMarker)
      ensures Zeroed(was, z)
    {
      var bit;
      LongerCode(d, t, ahead, l);
      NextBit(ahead, z0, l);
      ok, bit, z := GetBits(1);
      code := 2 * code0 + bit;
      if ok {
        MoreZeros(ahead, z0, z, l);
      }
      z := z0 + z;
    }

    /** A code greater than all those of its length needs another bit; at length 17 the sentinel
        stops the search. */
    lemma LongerCode(d: DTable, t: HuffTbl, s: seq<Bit>, l: nat)
      requires Legal(t.bits) && d.pub == t && LengthsOk(d, t) && 1 <= l <= 17 && Prefix(s, l) >= MinCode(t.bits, l)
      requires Prefix(s, l) > d.maxcode[l]
      ensures l <= 16 && Prefix(s, l + 1) >= MinCode(t.bits, l + 1)
      ensures Search(t.bits, s, l) == Search(t.bits, s, l + 1)
    {
      PrefixBound(s, l);
      if l == 17 {
        Sentinel(l);
      } else {
        assert LengthOk(t.bits, d.maxcode[l], d.valoffset[l], l);
      }
    }
  }

  lemma Sentinel(l: nat)
    requires l == 17
    ensures Pow2(l) <= 0xFFFFF
  {
    Pow2Of32();
    assert Pow2(17) == 2 * Pow2(16);
  }

  /** The next bit, or 0 behind the end. */
  lemma NextBit(s: seq<Bit>, z: nat, l: nat)
    requires l <= |s| + z
    ensures Prefix(s, l + 1) == 2 * Prefix(s, l) + Prefix((s + Zeros(z))[l..], 1)
  {
    assert Prefix((s + Zeros(z))[l..], 1) == 2 * Prefix((s + Zeros(z))[l..], 0)
        + (if l < |s| then s[l] else 0);
  }

  lemma MoreZeros(s: seq<Bit>, z: nat, more: nat, l: nat)
    requires l <= |s| + z && 1 <= |s| + z - l + more
    ensures ((s + Zeros(z))[l..] + Zeros(more))[1..] == (s + Zeros(z + more))[l + 1..]
  {
  }

  lemma LoadByte(a: seq<Bit>, c: Byte, rest: seq<Byte>)
    ensures a + BytesBits([c] + rest) == (a + ByteBits(c, 8)) + BytesBits(rest)
  {
    assert ([c] + rest)[1..] == rest;
  }
}