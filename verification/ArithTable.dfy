/** The probability estimation table of the arithmetic coder (jaricom.c; Table D.3 of
    ITU-T T.81), its packed form, and the facts the coder relies on. */
module ArithTable {

  type Byte = x: int | 0 <= x < 256

  type Bit = x: int | 0 <= x < 2

  /** The content of a statistics bin: an index into the table, and the sense of the MPS in
      the top bit. */
  type State = x: Byte | x % 128 <= 113 witness 0

  /** The size of an LPS sub-interval. */
  type Qe = x: nat | 1 <= x <= 0x5B12 witness 1

  /** One line of the table: Qe_Value, Next_Index_LPS, Next_Index_MPS, Switch_MPS. */
  datatype Entry = E(qe: Qe, nextLps: nat, nextMps: nat, switchMps: nat)

  /** One estimation state as the coder sees it: the size of the LPS sub-interval and the two
      successor bytes (`lps` carries Switch_MPS in its top bit). */
  datatype Row = Row(qe: Qe, lps: State, mps: State)

  type Table = t: seq<Row> | |t| == 114 witness seq(114, _ => Row(1, 0, 0))

  predicate ValidEntry(e: Entry) {
    e.nextLps <= 113 && e.nextMps <= 113 && e.switchMps < 2
  }

  function EntriesFrom0(index: nat): (e: Entry)
    ensures ValidEntry(e)
  {
    if index == 0 then E(0x5a1d, 1, 1, 1) else
    if index == 1 then E(0x2586, 14, 2, 0) else
    if index == 2 then E(0x1114, 16, 3, 0) else
    if index == 3 then E(0x080b, 18, 4, 0) else
    if index == 4 then E(0x03d8, 20, 5, 0) else
    if index == 5 then E(0x01da, 23, 6, 0) else
    if index == 6 then E(0x00e5, 25, 7, 0) else
    if index == 7 then E(0x006f, 28, 8, 0) else
    if index == 8 then E(0x0036, 30, 9, 0) else
    if index == 9 then E(0x001a, 33, 10, 0) else
    if index == 10 then E(0x000d, 35, 11, 0) else
    if index == 11 then E(0x0006, 9, 12, 0) else
    if index == 12 then E(0x0003, 10, 13, 0) else
    if index == 13 then E(0x0001, 12, 13, 0) else
    if index == 14 then E(0x5a7f, 15, 15, 1) else
    if index == 15 then E(0x3f25, 36, 16, 0) else
    if index == 16 then E(0x2cf2, 38, 17, 0) else
    if index == 17 then E(0x207c, 39, 18, 0) else
    E(0x17b9, 40, 19, 0)
  }

  function EntriesFrom19(index: nat): (e: Entry)
    ensures ValidEntry(e)
  {
    if index == 19 then E(0x1182, 42, 20, 0) else
    if index == 20 then E(0x0cef, 43, 21, 0) else
    if index == 21 then E(0x09a1, 45, 22, 0) else
    if index == 22 then E(0x072f, 46, 23, 0) else
    if index == 23 then E(0x055c, 48, 24, 0) else
    if index == 24 then E(0x0406, 49, 25, 0) else
    if index == 25 then E(0x0303, 51, 26, 0) else
    if index == 26 then E(0x0240, 52, 27, 0) else
    if index == 27 then E(0x01b1, 54, 28, 0) else
    if index == 28 then E(0x0144, 56, 29, 0) else
    if index == 29 then E(0x00f5, 57, 30, 0) else
    if index == 30 then E(0x00b7, 59, 31, 0) else
    if index == 31 then E(0x008a, 60, 32, 0) else
    if index == 32 then E(0x0068, 62, 33, 0) else
    if index == 33 then E(0x004e, 63, 34, 0) else
    if index == 34 then E(0x003b, 32, 35, 0) else
    if index == 35 then E(0x002c, 33, 9, 0) else
    if index == 36 then E(0x5ae1, 37, 37, 1) else
    E(0x484c, 64, 38, 0)
  }

  function EntriesFrom38(index: nat): (e: Entry)
    ensures ValidEntry(e)
  {
    if index == 38 then E(0x3a0d, 65, 39, 0) else
    if index == 39 then E(0x2ef1, 67, 40, 0) else
    if index == 40 then E(0x261f, 68, 41, 0) else
    if index == 41 then E(0x1f33, 69, 42, 0) else
    if index == 42 then E(0x19a8, 70, 43, 0) else
    if index == 43 then E(0x1518, 72, 44, 0) else
    if index == 44 then E(0x1177, 73, 45, 0) else
    if index == 45 then E(0x0e74, 74, 46, 0) else
    if index == 46 then E(0x0bfb, 75, 47, 0) else
    if index == 47 then E(0x09f8, 77, 48, 0) else
    if index == 48 then E(0x0861, 78, 49, 0) else
    if index == 49 then E(0x0706, 79, 50, 0) else
    if index == 50 then E(0x05cd, 48, 51, 0) else
    if index == 51 then E(0x04de, 50, 52, 0) else
    if index == 52 then E(0x040f, 50, 53, 0) else
    if index == 53 then E(0x0363, 51, 54, 0) else
    if index == 54 then E(0x02d4, 52, 55, 0) else
    if index == 55 then E(0x025c, 53, 56, 0) else
    E(0x01f8, 54, 57, 0)
  }

  function EntriesFrom57(index: nat): (e: Entry)
    ensures ValidEntry(e)
  {
    if index == 57 then E(0x01a4, 55, 58, 0) else
    if index == 58 then E(0x0160, 56, 59, 0) else
    if index == 59 then E(0x0125, 57, 60, 0) else
    if index == 60 then E(0x00f6, 58, 61, 0) else
    if index == 61 then E(0x00cb, 59, 62, 0) else
    if index == 62 then E(0x00ab, 61, 63, 0) else
    if index == 63 then E(0x008f, 61, 32, 0) else
    if index == 64 then E(0x5b12, 65, 65, 1) else
    if index == 65 then E(0x4d04, 80, 66, 0) else
    if index == 66 then E(0x412c, 81, 67, 0) else
    if index == 67 then E(0x37d8, 82, 68, 0) else
    if index == 68 then E(0x2fe8, 83, 69, 0) else
    if index == 69 then E(0x293c, 84, 70, 0) else
    if index == 70 then E(0x2379, 86, 71, 0) else
    if index == 71 then E(0x1edf, 87, 72, 0) else
    if index == 72 then E(0x1aa9, 87, 73, 0) else
    if index == 73 then E(0x174e, 72, 74, 0) else
    if index == 74 then E(0x1424, 72, 75, 0) else
    E(0x119c, 74, 76, 0)
  }

  function EntriesFrom76(index: nat): (e: Entry)
    ensures ValidEntry(e)
  {
    if index == 76 then E(0x0f6b, 74, 77, 0) else
    if index == 77 then E(0x0d51, 75, 78, 0) else
    if index == 78 then E(0x0bb6, 77, 79, 0) else
    if index == 79 then E(0x0a40, 77, 48, 0) else
    if index == 80 then E(0x5832, 80, 81, 1) else
    if index == 81 then E(0x4d1c, 88, 82, 0) else
    if index == 82 then E(0x438e, 89, 83, 0) else
    if index == 83 then E(0x3bdd, 90, 84, 0) else
    if index == 84 then E(0x34ee, 91, 85, 0) else
    if index == 85 then E(0x2eae, 92, 86, 0) else
    if index == 86 then E(0x299a, 93, 87, 0) else
    if index == 87 then E(0x2516, 86, 71, 0) else
    if index == 88 then E(0x5570, 88, 89, 1) else
    if index == 89 then E(0x4ca9, 95, 90, 0) else
    if index == 90 then E(0x44d9, 96, 91, 0) else
    if index == 91 then E(0x3e22, 97, 92, 0) else
    if index == 92 then E(0x3824, 99, 93, 0) else
    if index == 93 then E(0x32b4, 99, 94, 0) else
    E(0x2e17, 93, 86, 0)
  }

  function EntriesFrom95(index: nat): (e: Entry)
    ensures ValidEntry(e)
  {
    if index == 95 then E(0x56a8, 95, 96, 1) else
    if index == 96 then E(0x4f46, 101, 97, 0) else
    if index == 97 then E(0x47e5, 102, 98, 0) else
    if index == 98 then E(0x41cf, 103, 99, 0) else
    if index == 99 then E(0x3c3d, 104, 100, 0) else
    if index == 100 then E(0x375e, 99, 93, 0) else
    if index == 101 then E(0x5231, 105, 102, 0) else
    if index == 102 then E(0x4c0f, 106, 103, 0) else
    if index == 103 then E(0x4639, 107, 104, 0) else
    if index == 104 then E(0x415e, 103, 99, 0) else
    if index == 105 then E(0x5627, 105, 106, 1) else
    if index == 106 then E(0x50e7, 108, 107, 0) else
    if index == 107 then E(0x4b85, 109, 103, 0) else
    if index == 108 then E(0x5597, 110, 109, 0) else
    if index == 109 then E(0x504f, 111, 107, 0) else
    if index == 110 then E(0x5a10, 110, 111, 1) else
    if index == 111 then E(0x5522, 112, 109, 0) else
    if index == 112 then E(0x59eb, 112, 111, 1) else
    E(0x5a1d, 113, 113, 0)
  }

  function Entries(index: nat): (e: Entry)
    requires index <= 113
    ensures ValidEntry(e)
  {
    if index < 19 then EntriesFrom0(index) else
    if index < 38 then EntriesFrom19(index) else
    if index < 57 then EntriesFrom38(index) else
    if index < 76 then EntriesFrom57(index) else
    if index < 95 then EntriesFrom76(index) else
    EntriesFrom95(index)
  }

  /** The packing macro: Qe in bits 16 and up, the MPS successor in bits 8-15, the switch
      flag in bit 7 and the LPS successor in bits 0-6. */
  function Pack(e: Entry): nat {
    e.qe * 0x10000 + e.nextMps * 0x100 + e.switchMps * 0x80 + e.nextLps
  }

  lemma UnpackPack(e: Entry)
    requires ValidEntry(e)
    ensures Pack(e) / 0x10000 == e.qe
    ensures Pack(e) % 0x100 == e.switchMps * 0x80 + e.nextLps
    ensures Pack(e) / 0x100 % 0x100 == e.nextMps
    ensures (e.switchMps * 0x80 + e.nextLps) % 128 == e.nextLps
  {
    var low := e.switchMps * 0x80 + e.nextLps;
    assert Pack(e) == (e.qe * 0x100 + e.nextMps) * 0x100 + low;
    assert Pack(e) / 0x100 == e.qe * 0x100 + e.nextMps;
    assert Pack(e) / 0x10000 == e.qe;
  }

  /** The unpacking at the head of arith_encode and arith_decode yields a legal sub-interval
      size and legal successor states. */
  function Unpack(e: Entry): Row
    requires ValidEntry(e)
  {
    UnpackPack(e);
    Row(Pack(e) / 0x10000, Pack(e) % 0x100, Pack(e) / 0x100 % 0x100)
  }

  /** jpeg_aritab as the coder reads it. */
  function JpegAritab(): Table {
    seq(114, i requires 0 <= i < 114 => Unpack(Entries(i)))
  }
}
