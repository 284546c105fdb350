/** The bit output of the Huffman encoder (emit_bits and flush_bits of jchuff.c). */
module BitSinkObject {
  import opened ArithTable
  import opened PointTransform
  import opened HuffmanCodes
  import opened BitStrings
  import opened Segments

  lemma BitsAssoc(a: seq<Bit>, b: seq<Bit>, c: seq<Bit>)
    ensures (a + b) + c == a + (b + c)
  {
  }

  /** The bits are complete up to a whole byte: at most 7 bits follow them, all of them ones. */
  ghost predicate Padded(bits: seq<Bit>, all: seq<Bit>) {
    && bits <= all && |all| <= |bits| + 7
    && forall i :: |bits| <= i < |all| ==> all[i] == 1
  }

  lemma {:induction false} AllOnes(x: nat, n: nat)
    requires x + 1 == Pow2(n)
    ensures forall i :: 0 <= i < n ==> BitsOf(x, n)[i] == 1
    decreases n
  {
    if n != 0 {
      assert Pow2(n) == 2 * Pow2(n - 1);
      AllOnes(x / 2, n - 1);
    }
  }

  lemma SevenOnes()
    ensures forall i :: 0 <= i < 7 ==> BitsOf(0x7F, 7)[i] == 1
  {
    assert Pow2(7) == 2 * Pow2(6) == 4 * Pow2(5) == 8 * Pow2(4) == 16 * Pow2(3) == 32 * Pow2(2) == 64 * Pow2(1) == 128;
    AllOnes(0x7F, 7);
  }

  class BitSink {
    var putBuffer: nat          // the waiting bits, left-justified in the low 24 bits
    var putBits: nat            // how many they are
    var dest: seq<Byte>         // what has been sent
    ghost var closed: seq<Byte> // what had been sent before the open segment
    ghost var data: seq<Byte>   // the bytes of the open segment, before stuffing
    ghost var waiting: nat      // the waiting bits as a number
    ghost var trace: seq<Bit>   // all bits of the open segment

    constructor (sent: seq<Byte>)
      ensures Valid() && closed == dest == sent && trace == []
    {
      putBuffer, putBits, dest := 0, 0, sent;
      closed, data, waiting, trace := sent, [], 0, [];
      new;
      ShiftFacts(0, 24);
    }

    /** Never more than 7 bits wait between two calls. */
    ghost predicate Valid()
      reads this
    {
      && putBits <= 7 && putBuffer == Shift(waiting, 24 - putBits)
      && dest == closed + Stuff(data) && trace == BytesBits(data) + BitsOf(waiting, putBits)
    }

    /** emit_byte, with the stuffed zero byte. */
    method EmitByte(c: Byte)
      requires dest == closed + Stuff(data)
      modifies this`dest, this`data
      ensures dest == closed + Stuff(data) && data == old(data) + [c]
    {
      StuffByte(data, c);
      dest := dest + [c];
      if c == 0xFF {
        dest := dest + [0];
      }
      data := data + [c];
    }

    /** emit_bits; an empty code means that the symbol has none. */
    method EmitBits(code: nat, size: nat) returns (ok: bool)
      requires Valid() && size <= 16
      modifies this
      ensures Valid() && closed == old(closed) && (ok <==> size != 0)
      ensures trace == old(trace) + if ok then BitsOf(code, size) else []
    {
      if size == 0 {
        return false;
      }
      var masked := code % Pow2(size);
      BitsOfMod(code, size, size);
      AddBits(waiting, putBits, masked, size);
      BitsAssoc(BytesBits(data), BitsOf(waiting, putBits), BitsOf(masked, size));
      var bits := size + putBits;
      ShiftFacts(masked, 24 - bits);
      var buffer := Shift(masked, 24 - bits) + putBuffer;
      waiting := Shift(waiting, size) + masked;
      trace := trace + BitsOf(masked, size);
      SendBytes(buffer, bits);
      ok := true;
    }

    /** n bits wait in the given buffer. */
    ghost predicate Waits(buffer: nat, n: nat)
      reads this
    {
      && n <= 23 && buffer == Shift(waiting, 24 - n)
      && dest == closed + Stuff(data) && trace == BytesBits(data) + BitsOf(waiting, n)
    }

    /** while (put_bits >= 8) ... */
    method SendBytes(buffer0: nat, bits0: nat)
      requires Waits(buffer0, bits0)
      modifies this
      ensures Valid() && closed == old(closed) && trace == old(trace)
    {
      var buffer, bits := buffer0, bits0;
      while bits >= 8
        invariant Waits(buffer, bits) && closed == old(closed) && trace == old(trace)
        decreases bits
      {
        SendByte(buffer, bits);
        buffer := buffer * 256 % 0x1_0000_0000;
        bits := bits - 8;
      }
      putBuffer, putBits := buffer, bits;
    }

    method SendByte(buffer: nat, bits: nat)
      requires Waits(buffer, bits) && bits >= 8
      modifies this`dest, this`data, this`waiting
      ensures Waits(buffer * 256 % 0x1_0000_0000, bits - 8)
    {
      var c := buffer / 0x10000 % 256;
      TakeByte(waiting, bits, buffer);
      BitsAssoc(BytesBits(data), ByteBits(c, 8), BitsOf(waiting % Pow2(bits), bits - 8));
      BytesBitsSnoc(data, c);
      EmitByte(c);
      waiting := waiting % Pow2(bits);
    }

    /** flush_bits: fills up the last byte with ones, up to 7 of them. */
    method FlushBits()
      requires Valid()
      modifies this
      ensures putBits == putBuffer == 0 && closed == old(closed) && dest == closed + Stuff(data)
      ensures Padded(old(trace), BytesBits(data))
    {
      ghost var t := trace;
      var ok := EmitBits(0x7F, 7);
      SevenOnes();
      assert BytesBits(data) == trace[..|BytesBits(data)|];
      assert t == trace[..|t|];
      putBuffer, putBits := 0, 0;
    }

    /** emit_byte for a byte of a marker, which is not stuffed. */
    method EmitRaw(c: Byte)
      modifies this`dest
      ensures dest == old(dest) + [c]
    {
      dest := dest + [c];
    }

    /** A new segment starts here. */
    ghost method Open()
      requires putBits == putBuffer == 0
      modifies this`closed, this`data, this`waiting, this`trace
      ensures Valid() && closed == dest && trace == []
    {
      closed, data, waiting, trace := dest, [], 0, [];
      ShiftFacts(0, 24);
    }
  }
}
