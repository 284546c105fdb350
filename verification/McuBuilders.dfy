/** The coefficient controllers of the compressor: MCUs built from the samples (compress_data of
    jccoefct.c), from arrays that a first pass has filled and padded (compress_first_pass and
    compress_output), and from presupplied arrays with dummy blocks made on the fly (jctrans.c). */
module McuBuilders {
  import opened SizeArithmetic
  import opened ArithModel
  import opened ArithWholeScan
  import opened BlockLayout

  // ------------------------------------------------------------------ the padded image

  /** All zeros except for the DC entry. */
  function Dummy(dc: Coef): (b: Block)
    ensures b[0] == dc && forall i :: 1 <= i < 64 ==> b[i] == 0
  {
    seq(64, i => if i == 0 then dc else 0)
  }

  /** The last column of the MCU that holds this one. */
  function LastOfMcu(h: nat, col: nat): nat
    requires h >= 1
  {
    Product(col / h, h);
    col / h * h + (h - 1)
  }

  lemma LastOfMcuIs(h: nat, m: nat, x: nat)
    requires x < h
    ensures LastOfMcu(h, m * h + x) == m * h + h - 1
  {
    var col := m * h + x;
    Product(m, h);
    assert col == col / h * h + col % h;
    assert (m - col / h) * h == col % h - x;
    Gap(m - col / h, h, col % h - x);
  }

  /** A block in a real row: to the right of the real blocks, the DC entry of the last one is repeated. */
  function RowPadded(f: Frame, dct: Place -> Block, p: Place): Block
    requires p.c < |f.planes|
  {
    var c := f.planes[p.c];
    assert f.Fits(c);
    Product(f.across - 1, c.h);
    if p.col < c.width then dct(p) else Dummy(dct(Place(p.c, p.row, c.width - 1))[0])
  }

  /** The padded image: below the real blocks, the DC entry of the last block of the same MCU is repeated. */
  function Padded(f: Frame, dct: Place -> Block, p: Place): Block {
    if p.c >= |f.planes| then Dummy(0)
    else
      var c := f.planes[p.c];
      assert f.Fits(c);
      Product(f.total - 1, c.v);
      if p.row < c.height then RowPadded(f, dct, p)
      else Dummy(RowPadded(f, dct, Place(p.c, c.height - 1, LastOfMcu(c.h, p.col)))[0])
  }

  function Blocks(f: Frame, dct: Place -> Block, ps: seq<Place>): (r: seq<Block>)
    ensures |r| == |ps|
  {
    seq(|ps|, i requires 0 <= i < |ps| => Padded(f, dct, ps[i]))
  }

  lemma BlocksConcat(f: Frame, dct: Place -> Block, a: seq<Place>, b: seq<Place>)
    ensures Blocks(f, dct, a + b) == Blocks(f, dct, a) + Blocks(f, dct, b)
  {
  }

  /** An MCU as every controller is to build it. */
  function McuAt(s: BlockScan, dct: Place -> Block, r: nat, y: nat, m: nat): seq<Block> {
    Blocks(s.f, dct, McuPlaces(s, r, y, m))
  }

  /** The MCUs before column m of MCU row y of iMCU row r. */
  function McusBefore(s: BlockScan, dct: Place -> Block, r: nat, y: nat, m: nat): seq<seq<Block>>
    requires r <= s.f.total && (r < s.f.total || y == m == 0)
    decreases r, y, m
  {
    if m > 0 then McusBefore(s, dct, r, y, m - 1) + [McuAt(s, dct, r, y, m - 1)]
    else if y > 0 then McusBefore(s, dct, r, y - 1, McusPerRow(s))
    else if r > 0 then McusBefore(s, dct, r - 1, RowsIn(s, r - 1), 0)
    else []
  }

  function AllMcus(s: BlockScan, dct: Place -> Block): seq<seq<Block>> {
    McusBefore(s, dct, s.f.total, 0, 0)
  }

  // ------------------------------------------------------------------ rows of an MCU

  lemma RowSnoc(f: Frame, dct: Place -> Block, c: nat, row: nat, col: nat, n: nat)
    ensures Blocks(f, dct, RowPlaces(c, row, col, n + 1))
         == Blocks(f, dct, RowPlaces(c, row, col, n)) + [Padded(f, dct, Place(c, row, col + n))]
  {
    assert RowPlaces(c, row, col, n + 1) == RowPlaces(c, row, col, n) + [Place(c, row, col + n)];
    BlocksConcat(f, dct, RowPlaces(c, row, col, n), [Place(c, row, col + n)]);
  }

  /** To the right of the real blocks each block repeats the DC entry of the one before. */
  lemma RightRepeats(f: Frame, dct: Place -> Block, c: nat, row: nat, col: nat)
    requires c < |f.planes| && row < f.planes[c].height && col >= f.planes[c].width && col >= 1
    ensures Padded(f, dct, Place(c, row, col)) == Dummy(Padded(f, dct, Place(c, row, col - 1))[0])
  {
  }

  lemma LastOfRow(f: Frame, dct: Place -> Block, before: seq<Block>, c: nat, row: nat, col: nat, n: nat)
    requires n >= 1
    ensures var r := before + Blocks(f, dct, RowPlaces(c, row, col, n));
            r != [] && r[|r| - 1] == Padded(f, dct, Place(c, row, col + n - 1))
  {
    assert RowPlaces(c, row, col, n)[n - 1] == Place(c, row, col + n - 1);
  }

  lemma DummyNext(f: Frame, dct: Place -> Block, before: seq<Block>, c: nat, row: nat, col: nat, n: nat, last: Place)
    requires Padded(f, dct, Place(c, row, col + n)) == Dummy(Padded(f, dct, last)[0])
    ensures before + Blocks(f, dct, RowPlaces(c, row, col, n)) + [Dummy(Padded(f, dct, last)[0])]
         == before + Blocks(f, dct, RowPlaces(c, row, col, n + 1))
  {
    RowSnoc(f, dct, c, row, col, n);
  }

  /** Below the real blocks each block repeats the DC entry of the one before in its MCU. */
  lemma BelowRepeats(f: Frame, dct: Place -> Block, c: nat, row: nat, m: nat, col: nat, x: nat)
    requires c < |f.planes| && x < f.planes[c].h && row >= f.planes[c].height && row >= 1 && col == m * f.planes[c].h
    ensures Padded(f, dct, Place(c, row, col + x))
         == Dummy(Padded(f, dct, if x > 0 then Place(c, row, col + x - 1) else Place(c, row - 1, col + f.planes[c].h - 1))[0])
  {
    var h := f.planes[c].h;
    LastOfMcuIs(h, m, x);
    LastOfMcuIs(h, m, h - 1);
    if x > 0 {
      LastOfMcuIs(h, m, x - 1);
    }
  }

  // ------------------------------------------------------------------ the arrays

  /** The block belongs to iMCU row r of its component's padded array. */
  predicate InBand(f: Frame, r: nat, p: Place) {
    && p.c < |f.planes| && p.col < f.across * f.planes[p.c].h
    && 0 <= p.row - r * f.planes[p.c].v < f.planes[p.c].v
  }

  /** n blocks of a block row belong to the iMCU row. */
  predicate RowInBand(f: Frame, r: nat, c: nat, row: nat, col: nat, n: nat) {
    c < |f.planes| && col + n <= f.across * f.planes[c].h && 0 <= row - r * f.planes[c].v < f.planes[c].v
  }

  ghost predicate RowFilled(f: Frame, dct: Place -> Block, image: map<Place, Block>, c: nat, row: nat, n: nat) {
    forall col: nat :: col < n ==> Place(c, row, col) in image && image[Place(c, row, col)] == Padded(f, dct, Place(c, row, col))
  }

  ghost predicate BandFilled(f: Frame, dct: Place -> Block, image: map<Place, Block>, r: nat) {
    forall p: Place :: InBand(f, r, p) ==> p in image && image[p] == Padded(f, dct, p)
  }

  /** Only blocks of this row, before column n, have changed. */
  ghost predicate OnlyRow(was: map<Place, Block>, now: map<Place, Block>, c: nat, row: nat, n: nat) {
    forall p: Place :: !(p.c == c && p.row == row && p.col < n) ==> (p in now <==> p in was) && (p in was ==> now[p] == was[p])
  }

  ghost predicate OnlyBand(f: Frame, was: map<Place, Block>, now: map<Place, Block>, r: nat) {
    forall p: Place :: !InBand(f, r, p) ==> (p in now <==> p in was) && (p in was ==> now[p] == was[p])
  }

  /** Some rows of the band have been filled: those of the components before c, and of c those before row i. */
  ghost predicate PartFilled(f: Frame, dct: Place -> Block, image: map<Place, Block>, r: nat, c: nat, i: nat) {
    forall p: Place :: InBand(f, r, p) && (p.c < c || (p.c == c && p.row < r * f.planes[c].v + i)) ==>
      p in image && image[p] == Padded(f, dct, p)
  }

  lemma OneRowMore(f: Frame, dct: Place -> Block, was: map<Place, Block>, now: map<Place, Block>, r: nat, c: nat, i: nat)
    requires c < |f.planes| && i < f.planes[c].v && PartFilled(f, dct, was, r, c, i)
    requires var row, n := r * f.planes[c].v + i, f.across * f.planes[c].h;
             row >= 0 && RowFilled(f, dct, now, c, row, n) && OnlyRow(was, now, c, row, n)
    ensures PartFilled(f, dct, now, r, c, i + 1) && OnlyBand(f, was, now, r)
  {
    var row := r * f.planes[c].v + i;
    forall p: Place | InBand(f, r, p) && (p.c < c || (p.c == c && p.row < row + 1))
      ensures p in now && now[p] == Padded(f, dct, p)
    {
      if p.c == c && p.row == row {
        assert p == Place(c, row, p.col);
      }
    }
  }

  /** The dummy columns complete the last MCU. */
  lemma DummyColumns(width: nat, h: nat, across: nat)
    requires h >= 1 && across >= 1 && (across - 1) * h < width <= across * h
    ensures var ndummy := if width % h == 0 then 0 else h - width % h;
            width + ndummy == across * h && (width + ndummy) / h == across
  {
    LastPartIs(width, h, across);
    assert across * h == (across - 1) * h + h;
    var n := across * h;
    Product(across, h);
    assert n == n / h * h + n % h;
    assert (across - n / h) * h == n % h;
    Gap(across - n / h, h, n % h);
  }

  lemma PutBlock(f: Frame, dct: Place -> Block, was: map<Place, Block>, image: map<Place, Block>, c: nat, row: nat, n: nat,
                 b: Block)
    requires RowFilled(f, dct, image, c, row, n) && OnlyRow(was, image, c, row, n) && b == Padded(f, dct, Place(c, row, n))
    ensures RowFilled(f, dct, image[Place(c, row, n) := b], c, row, n + 1)
    ensures OnlyRow(was, image[Place(c, row, n) := b], c, row, n + 1)
  {
  }

  lemma OtherRow(f: Frame, dct: Place -> Block, was: map<Place, Block>, image: map<Place, Block>, c: nat, row: nat, n: nat,
                 row1: nat, n1: nat)
    requires RowFilled(f, dct, was, c, row1, n1) && OnlyRow(was, image, c, row, n) && row != row1
    ensures RowFilled(f, dct, image, c, row1, n1)
  {
  }

  lemma PutDummy(f: Frame, dct: Place -> Block, was: map<Place, Block>, image: map<Place, Block>, c: nat, row: nat, m: nat,
                 col: nat, x: nat, lastDc: Coef)
    requires c < |f.planes| && x < f.planes[c].h && row >= f.planes[c].height && row >= 1 && col == m * f.planes[c].h
    requires RowFilled(f, dct, image, c, row, col + x) && OnlyRow(was, image, c, row, col + x)
    requires lastDc == Padded(f, dct, Place(c, row - 1, col + f.planes[c].h - 1))[0]
    ensures var now := image[Place(c, row, col + x) := Dummy(lastDc)];
            RowFilled(f, dct, now, c, row, col + x + 1) && OnlyRow(was, now, c, row, col + x + 1)
  {
    BelowIs(f, dct, c, row, m, col, x);
    PutBlock(f, dct, was, image, c, row, col + x, Dummy(lastDc));
  }

  /** All dummy blocks of an MCU's row repeat the DC entry of the last block of the row above. */
  lemma {:induction false} BelowIs(f: Frame, dct: Place -> Block, c: nat, row: nat, m: nat, col: nat, x: nat)
    requires c < |f.planes| && x < f.planes[c].h && row >= f.planes[c].height && row >= 1 && col == m * f.planes[c].h
    ensures Padded(f, dct, Place(c, row, col + x)) == Dummy(Padded(f, dct, Place(c, row - 1, col + f.planes[c].h - 1))[0])
  {
    BelowRepeats(f, dct, c, row, m, col, x);
    if x > 0 {
      BelowIs(f, dct, c, row, m, col, x - 1);
    }
  }

  // ------------------------------------------------------------------ the controller

  /** Where the blocks of an MCU come from. */
  datatype Source = FromSamples | FromArrays | FromCoefficients

  /** One more dummy block below: its DC entry is that of the block before it. */
  lemma NextBelow(f: Frame, dct: Place -> Block, mcu: seq<Block>, c: nat, row: nat, m: nat, col: nat, bi: nat)
    requires c < |f.planes| && bi < f.planes[c].h && row >= f.planes[c].height && row >= 1 && col == m * f.planes[c].h
    requires mcu != [] && mcu[|mcu| - 1] == Padded(f, dct, Place(c, row - 1, col + f.planes[c].h - 1))
    ensures var r := mcu + Blocks(f, dct, RowPlaces(c, row, col, bi));
            mcu + Blocks(f, dct, RowPlaces(c, row, col, bi + 1)) == r + [Dummy(r[|r| - 1][0])]
  {
    var r := mcu + Blocks(f, dct, RowPlaces(c, row, col, bi));
    RowSnoc(f, dct, c, row, col, bi);
    BelowRepeats(f, dct, c, row, m, col, bi);
    if bi > 0 {
      assert r[|r| - 1] == Padded(f, dct, RowPlaces(c, row, col, bi)[bi - 1]);
    }
  }

  class CoefController {
    const f: Frame
    const dct: Place -> Block               // what the forward DCT makes of the samples, or the given coefficients
    var s: BlockScan                        // the current scan
    var imcuRowNum: nat
    var mcuCtr: nat
    var mcuVertOffset: nat
    var mcuRowsPerImcuRow: nat
    var wholeImage: map<Place, Block>       // the padded arrays of all components
    var sent: seq<seq<Block>>               // the MCUs that the entropy coder has accepted in this pass

    constructor (f: Frame, dct: Place -> Block, s: BlockScan)
      requires s.f == f
      ensures this.f == f && this.dct == dct && this.s == s && sent == [] && AtStart()
    {
      this.f, this.dct, this.s := f, dct, s;
      wholeImage, sent := map[], [];
      imcuRowNum, mcuCtr, mcuVertOffset, mcuRowsPerImcuRow := 0, 0, 0, 0;
      new;
      StartPass(s);
    }

    // ---------------------------------------------------------------- positions

    predicate Valid()
      reads this
    {
      && s.f == f && imcuRowNum <= f.total
      && (imcuRowNum < f.total ==> mcuRowsPerImcuRow == RowsIn(s, imcuRowNum) && mcuVertOffset < mcuRowsPerImcuRow
                                   && mcuCtr < McusPerRow(s))
      && (imcuRowNum == f.total ==> mcuVertOffset == mcuCtr == 0)
      && sent == McusBefore(s, dct, imcuRowNum, mcuVertOffset, mcuCtr)
    }

    predicate AtStart()
      reads this
    {
      Valid() && imcuRowNum == mcuVertOffset == mcuCtr == 0
    }

    /** start_iMCU_row */
    method StartImcuRow()
      requires s.f == f && imcuRowNum <= f.total
      modifies this`mcuRowsPerImcuRow, this`mcuCtr, this`mcuVertOffset
      ensures mcuCtr == mcuVertOffset == 0 && (imcuRowNum < f.total ==> mcuRowsPerImcuRow == RowsIn(s, imcuRowNum))
    {
      mcuRowsPerImcuRow := McuRowsPerImcuRow(s, imcuRowNum);
      mcuCtr, mcuVertOffset := 0, 0;
    }

    /** start_pass_coef for a pass over this scan. */
    method StartPass(s: BlockScan)
      requires s.f == f
      modifies this
      ensures this.s == s && AtStart() && sent == [] && wholeImage == old(wholeImage)
    {
      this.s, imcuRowNum, sent := s, 0, [];
      StartImcuRow();
      RowsAreSome(s, 0);
    }

    // ---------------------------------------------------------------- MCUs

    /** Real blocks of a row of an MCU. */
    method AddReal(mcu: seq<Block>, c: nat, row: nat, col: nat, n: nat) returns (r: seq<Block>)
      requires c < |f.planes| && row < f.planes[c].height && col + n <= f.planes[c].width
      ensures r == mcu + Blocks(f, dct, RowPlaces(c, row, col, n))
    {
      r := mcu;
      for bi := 0 to n
        invariant r == mcu + Blocks(f, dct, RowPlaces(c, row, col, bi))
      {
        RowSnoc(f, dct, c, row, col, bi);
        r := r + [dct(Place(c, row, col + bi))];
      }
    }

    /** Dummy blocks at the right edge, behind `from` real blocks. */
    method AddRight(mcu: seq<Block>, ghost before: seq<Block>, c: nat, row: nat, col: nat, from: nat, n: nat)
      returns (r: seq<Block>)
      requires c < |f.planes| && row < f.planes[c].height && 1 <= from <= n && col + from == f.planes[c].width
      requires mcu == before + Blocks(f, dct, RowPlaces(c, row, col, from))
      ensures r == before + Blocks(f, dct, RowPlaces(c, row, col, n))
    {
      r := mcu;
      for bi := from to n
        invariant r == before + Blocks(f, dct, RowPlaces(c, row, col, bi))
      {
        RowSnoc(f, dct, c, row, col, bi);
        RightRepeats(f, dct, c, row, col + bi);
        assert r[|r| - 1] == Padded(f, dct, RowPlaces(c, row, col, bi)[bi - 1]);
        r := r + [Dummy(r[|r| - 1][0])];
      }
    }

    /** A row of dummy blocks at the bottom of the image. */
    method AddBelow(mcu: seq<Block>, c: nat, row: nat, ghost m: nat, ghost col: nat) returns (r: seq<Block>)
      requires c < |f.planes| && row >= f.planes[c].height && row >= 1 && mcu != [] && col == m * f.planes[c].h
      requires f.planes[c].h >= 1 && mcu[|mcu| - 1] == Padded(f, dct, Place(c, row - 1, col + f.planes[c].h - 1))
      ensures r == mcu + Blocks(f, dct, RowPlaces(c, row, col, f.planes[c].h))
    {
      r := mcu;
      for bi := 0 to f.planes[c].h
        invariant r == mcu + Blocks(f, dct, RowPlaces(c, row, col, bi))
      {
        NextBelow(f, dct, mcu, c, row, m, col, bi);
        r := r + [Dummy(r[|r| - 1][0])];
      }
    }

    /** One row of component j's part of the MCU, in compress_data. */
    method AddRow(mcu: seq<Block>, j: nat, y: nat, yindex: nat, m: nat) returns (r: seq<Block>)
      requires RowDue(mcu, j, y, yindex, m)
      ensures r == mcu + Blocks(f, dct, RowPlaces(s.sel[j], RowNumber(j, y, yindex), m * McuWidth(s, j), McuWidth(s, j)))
    {
      var c, row, col, w := s.sel[j], RowNumber(j, y, yindex), m * McuWidth(s, j), McuWidth(s, j);
      var blockcnt := RealWidth(s, m, j);
      RealWidthIs(s, m, j);
      RealRowIs(s, imcuRowNum, y, yindex, j);
      if RealRow(s, imcuRowNum, y, yindex, j) {
        r := AddReal(mcu, c, row, col, blockcnt);
        if blockcnt < w {
          r := AddRight(r, mcu, c, row, col, blockcnt, w);
        }
      } else {
        r := AddBelow(mcu, c, row, m, col);
      }
    }

    /** The same in the compress_output of jctrans.c, where one loop makes all dummy blocks. */
    method AddRowTrans(mcu: seq<Block>, j: nat, y: nat, yindex: nat, m: nat) returns (r: seq<Block>)
      requires RowDue(mcu, j, y, yindex, m)
      ensures r == mcu + Blocks(f, dct, RowPlaces(s.sel[j], RowNumber(j, y, yindex), m * McuWidth(s, j), McuWidth(s, j)))
    {
      var c, row, col, w := s.sel[j], RowNumber(j, y, yindex), m * McuWidth(s, j), McuWidth(s, j);
      RealWidthIs(s, m, j);
      RealRowIs(s, imcuRowNum, y, yindex, j);
      if RealRow(s, imcuRowNum, y, yindex, j) {
        r := AddReal(mcu, c, row, col, RealWidth(s, m, j));
        r := AddDummies(r, mcu, c, row, col, RealWidth(s, m, j), w, m);
      } else {
        r := AddDummies(mcu, mcu, c, row, col, 0, w, m);
      }
    }

    method AddDummies(mcu: seq<Block>, ghost before: seq<Block>, c: nat, row: nat, col: nat, from: nat, n: nat, ghost m: nat)
      returns (r: seq<Block>)
      requires c < |f.planes| && from <= n && mcu == before + Blocks(f, dct, RowPlaces(c, row, col, from))
      requires row < f.planes[c].height ==> from >= 1 && (from < n ==> col + from >= f.planes[c].width)
      requires row >= f.planes[c].height ==>
                 && 1 <= row && n == f.planes[c].h && col == m * n && mcu != []
                 && (from == 0 ==> n >= 1 && mcu[|mcu| - 1] == Padded(f, dct, Place(c, row - 1, col + n - 1)))
      ensures r == before + Blocks(f, dct, RowPlaces(c, row, col, n))
    {
      r := mcu;
      for xindex := from to n
        invariant r == before + Blocks(f, dct, RowPlaces(c, row, col, xindex)) && (xindex == from ==> r == mcu)
      {
        ghost var last := if xindex > 0 then Place(c, row, col + xindex - 1) else Place(c, row - 1, col + n - 1);
        if xindex > 0 {
          LastOfRow(f, dct, before, c, row, col, xindex);
        }
        if row < f.planes[c].height {
          RightRepeats(f, dct, c, row, col + xindex);
        } else {
          BelowRepeats(f, dct, c, row, m, col, xindex);
        }
        DummyNext(f, dct, before, c, row, col, xindex, last);
        r := r + [Dummy(r[|r| - 1][0])];
      }
    }

    /** The block row of component j in row yindex of its part of the MCU. */
    function RowNumber(j: nat, y: nat, yindex: nat): nat
      requires j < |s.sel|
      reads this
    {
      Product(imcuRowNum, PlaneAt(s, j).v);
      imcuRowNum * PlaneAt(s, j).v + y + yindex
    }

    /** The rows before have been added. */
    ghost predicate RowDue(mcu: seq<Block>, j: nat, y: nat, yindex: nat, m: nat)
      reads this
    {
      && s.f == f && imcuRowNum < f.total && y < RowsIn(s, imcuRowNum) && m < McusPerRow(s) && j < |s.sel| && yindex < McuHeight(s, j)
      && (yindex > 0 ==>
            && mcu != [] && m * McuWidth(s, j) + McuWidth(s, j) >= 1
            && mcu[|mcu| - 1]
                 == Padded(f, dct, Place(s.sel[j], RowNumber(j, y, yindex) - 1, m * McuWidth(s, j) + McuWidth(s, j) - 1)))
    }

    /** The rows of component j's part of the MCU; `trans` tells the two controllers apart. */
    method AddComponent(trans: bool, before: seq<Block>, j: nat, y: nat, m: nat) returns (mcu: seq<Block>)
      requires s.f == f && IsMcu(s, imcuRowNum, y, m) && j < |s.sel|
      ensures mcu == before + Blocks(f, dct, BoxPlaces(s.sel[j], RowNumber(j, y, 0), McuHeight(s, j), m * McuWidth(s, j),
                                                       McuWidth(s, j)))
    {
      var c, row, col, w := s.sel[j], RowNumber(j, y, 0), m * McuWidth(s, j), McuWidth(s, j);
      assert f.Fits(PlaneAt(s, j));
      mcu := before;
      for yindex := 0 to McuHeight(s, j)
        invariant mcu == before + Blocks(f, dct, BoxPlaces(c, row, yindex, col, w))
      {
        LastOfBox(f, dct, before, c, row, yindex, col, w);
        BoxGrows(f, dct, before, c, row, yindex, col, w);
        mcu := AddOneRow(trans, mcu, j, y, yindex, m);
      }
    }

    method AddOneRow(trans: bool, mcu: seq<Block>, j: nat, y: nat, yindex: nat, m: nat) returns (r: seq<Block>)
      requires RowDue(mcu, j, y, yindex, m)
      ensures r == mcu + Blocks(f, dct, RowPlaces(s.sel[j], RowNumber(j, y, yindex), m * McuWidth(s, j), McuWidth(s, j)))
    {
      if trans {
        r := AddRowTrans(mcu, j, y, yindex, m);
      } else {
        r := AddRow(mcu, j, y, yindex, m);
      }
    }

    /** The MCU of compress_data, or of the compress_output of jctrans.c. */
    method BuildMcu(trans: bool, y: nat, m: nat) returns (mcu: seq<Block>)
      requires s.f == f && IsMcu(s, imcuRowNum, y, m)
      ensures mcu == McuAt(s, dct, imcuRowNum, y, m)
    {
      mcu := [];
      for j := 0 to |s.sel|
        invariant mcu == Blocks(f, dct, SomePlaces(s, imcuRowNum, y, m, j))
      {
        BlocksConcat(f, dct, SomePlaces(s, imcuRowNum, y, m, j),
                     BoxPlaces(s.sel[j], RowNumber(j, y, 0), McuHeight(s, j), m * McuWidth(s, j), McuWidth(s, j)));
        mcu := AddComponent(trans, mcu, j, y, m);
      }
    }

    // ---------------------------------------------------------------- the arrays

    /** compress_first_pass: a row with real blocks. */
    method FillRealRow(c: nat, row: nat)
      requires c < |f.planes| && row < f.planes[c].height
      modifies this`wholeImage
      ensures var n := f.across * f.planes[c].h;
              n >= 0 && RowFilled(f, dct, wholeImage, c, row, n) && OnlyRow(old(wholeImage), wholeImage, c, row, n)
    {
      var plane := f.planes[c];
      assert f.Fits(plane);
      DummyColumns(plane.width, plane.h, f.across);
      Product(f.across - 1, plane.h);
      ghost var was := wholeImage;
      for col := 0 to plane.width
        invariant RowFilled(f, dct, wholeImage, c, row, col) && OnlyRow(was, wholeImage, c, row, col)
      {
        PutBlock(f, dct, was, wholeImage, c, row, col, dct(Place(c, row, col)));
        wholeImage := wholeImage[Place(c, row, col) := dct(Place(c, row, col))];
      }
      var ndummy := if plane.width % plane.h == 0 then 0 else plane.h - plane.width % plane.h;
      FillRight(was, c, row, plane.width, ndummy);
    }

    /** The dummy blocks at the right edge. */
    method FillRight(ghost was: map<Place, Block>, c: nat, row: nat, width: nat, ndummy: nat)
      requires c < |f.planes| && row < f.planes[c].height && width == f.planes[c].width && width >= 1
      requires RowFilled(f, dct, wholeImage, c, row, width) && OnlyRow(was, wholeImage, c, row, width)
      modifies this`wholeImage
      ensures RowFilled(f, dct, wholeImage, c, row, width + ndummy) && OnlyRow(was, wholeImage, c, row, width + ndummy)
    {
      assert Place(c, row, width - 1) in wholeImage;
      var lastDc := wholeImage[Place(c, row, width - 1)][0];
      assert lastDc == dct(Place(c, row, width - 1))[0];
      for bi := 0 to ndummy
        invariant RowFilled(f, dct, wholeImage, c, row, width + bi) && OnlyRow(was, wholeImage, c, row, width + bi)
      {
        PutBlock(f, dct, was, wholeImage, c, row, width + bi, Dummy(lastDc));
        wholeImage := wholeImage[Place(c, row, width + bi) := Dummy(lastDc)];
      }
    }

    /** compress_first_pass: a row of dummy blocks below them. */
    method FillDummyRow(c: nat, row: nat)
      requires c < |f.planes| && row >= f.planes[c].height && row >= 1
      requires f.across * f.planes[c].h >= 0 && RowFilled(f, dct, wholeImage, c, row - 1, f.across * f.planes[c].h)
      modifies this`wholeImage
      ensures var n := f.across * f.planes[c].h;
              RowFilled(f, dct, wholeImage, c, row, n) && OnlyRow(old(wholeImage), wholeImage, c, row, n)
    {
      var plane := f.planes[c];
      assert f.Fits(plane);
      DummyColumns(plane.width, plane.h, f.across);
      var ndummy := if plane.width % plane.h == 0 then 0 else plane.h - plane.width % plane.h;
      var mcusAcross := (plane.width + ndummy) / plane.h;
      ghost var was := wholeImage;
      var col := 0;
      for m := 0 to mcusAcross
        invariant col == m * plane.h
        invariant RowFilled(f, dct, wholeImage, c, row, col) && OnlyRow(was, wholeImage, c, row, col)
      {
        Scale(m + 1, f.across, plane.h);
        assert (m + 1) * plane.h == m * plane.h + plane.h;
        OtherRow(f, dct, was, wholeImage, c, row, col, row - 1, f.across * plane.h);
        FillDummyMcu(was, c, row, m, col);
        col := col + plane.h;
      }
    }

    method FillDummyMcu(ghost was: map<Place, Block>, c: nat, row: nat, ghost m: nat, col: nat)
      requires c < |f.planes| && row >= f.planes[c].height && row >= 1 && col == m * f.planes[c].h && f.planes[c].h >= 1
      requires RowFilled(f, dct, wholeImage, c, row, col) && RowFilled(f, dct, wholeImage, c, row - 1, col + f.planes[c].h)
      requires OnlyRow(was, wholeImage, c, row, col)
      modifies this`wholeImage
      ensures RowFilled(f, dct, wholeImage, c, row, col + f.planes[c].h)
      ensures OnlyRow(was, wholeImage, c, row, col + f.planes[c].h)
    {
      var h := f.planes[c].h;
      assert Place(c, row - 1, col + h - 1) in wholeImage;
      var lastDc := wholeImage[Place(c, row - 1, col + h - 1)][0];
      ghost var above := Padded(f, dct, Place(c, row - 1, col + h - 1));
      assert lastDc == above[0];
      FillDummies(was, c, row, m, col, h, lastDc);
    }

    method FillDummies(ghost was: map<Place, Block>, c: nat, row: nat, ghost m: nat, col: nat, h: nat, lastDc: Coef)
      requires c < |f.planes| && row >= f.planes[c].height && row >= 1 && col == m * h && 1 <= h == f.planes[c].h
      requires RowFilled(f, dct, wholeImage, c, row, col) && OnlyRow(was, wholeImage, c, row, col)
      requires lastDc == Padded(f, dct, Place(c, row - 1, col + h - 1))[0]
      modifies this`wholeImage
      ensures RowFilled(f, dct, wholeImage, c, row, col + h) && OnlyRow(was, wholeImage, c, row, col + h)
    {
      for bi := 0 to h
        invariant RowFilled(f, dct, wholeImage, c, row, col + bi) && OnlyRow(was, wholeImage, c, row, col + bi)
      {
        PutDummy(f, dct, was, wholeImage, c, row, m, col, bi, lastDc);
        wholeImage := wholeImage[Place(c, row, col + bi) := Dummy(lastDc)];
      }
    }

    /** compress_first_pass before it calls compress_output: one iMCU row of all components. */
    method FirstPassRow()
      requires imcuRowNum < f.total
      modifies this`wholeImage
      ensures BandFilled(f, dct, wholeImage, imcuRowNum) && OnlyBand(f, old(wholeImage), wholeImage, imcuRowNum)
    {
      for c := 0 to |f.planes|
        invariant PartFilled(f, dct, wholeImage, imcuRowNum, c, 0) && OnlyBand(f, old(wholeImage), wholeImage, imcuRowNum)
      {
        FillBand(c);
      }
    }

    method FillBand(c: nat)
      requires imcuRowNum < f.total && c < |f.planes| && PartFilled(f, dct, wholeImage, imcuRowNum, c, 0)
      modifies this`wholeImage
      ensures PartFilled(f, dct, wholeImage, imcuRowNum, c + 1, 0) && OnlyBand(f, old(wholeImage), wholeImage, imcuRowNum)
    {
      var plane := f.planes[c];
      assert f.Fits(plane);
      var blockRows := if imcuRowNum < f.total - 1 then plane.v else LastPart(plane.height, plane.v);
      BlockRowsReal(f, c, imcuRowNum);
      for i := 0 to plane.v
        invariant PartFilled(f, dct, wholeImage, imcuRowNum, c, i) && OnlyBand(f, old(wholeImage), wholeImage, imcuRowNum)
      {
        FillBandRow(c, imcuRowNum * plane.v + i, i, i < blockRows);
      }
      BandDone(f, dct, wholeImage, imcuRowNum, c);
    }

    method FillBandRow(c: nat, row: nat, i: nat, isReal: bool)
      requires imcuRowNum < f.total && c < |f.planes| && PartFilled(f, dct, wholeImage, imcuRowNum, c, i) && i < f.planes[c].v
      requires row == imcuRowNum * f.planes[c].v + i && isReal == (row < f.planes[c].height) && (!isReal ==> i > 0)
      modifies this`wholeImage
      ensures PartFilled(f, dct, wholeImage, imcuRowNum, c, i + 1) && OnlyBand(f, old(wholeImage), wholeImage, imcuRowNum)
    {
      Product(f.across, f.planes[c].h);
      Product(imcuRowNum, f.planes[c].v);
      if isReal {
        FillRealRow(c, row);
      } else {
        RowAbove(f, dct, wholeImage, imcuRowNum, c, i, row - 1);
        FillDummyRow(c, row);
      }
      OneRowMore(f, dct, old(wholeImage), wholeImage, imcuRowNum, c, i);
    }

    // ---------------------------------------------------------------- passes

    /** The MCU of compress_output of jccoefct.c. */
    method McuFromArrays(y: nat, m: nat) returns (mcu: seq<Block>)
      requires s.f == f && IsMcu(s, imcuRowNum, y, m) && BandFilled(f, dct, wholeImage, imcuRowNum)
      ensures mcu == McuAt(s, dct, imcuRowNum, y, m)
    {
      mcu := [];
      for j := 0 to |s.sel|
        invariant mcu == Blocks(f, dct, SomePlaces(s, imcuRowNum, y, m, j))
      {
        BlocksConcat(f, dct, SomePlaces(s, imcuRowNum, y, m, j),
                     BoxPlaces(s.sel[j], RowNumber(j, y, 0), McuHeight(s, j), m * McuWidth(s, j), McuWidth(s, j)));
        mcu := ComponentFromArrays(mcu, j, y, m);
      }
    }

    method ComponentFromArrays(before: seq<Block>, j: nat, y: nat, m: nat) returns (mcu: seq<Block>)
      requires s.f == f && IsMcu(s, imcuRowNum, y, m) && j < |s.sel| && BandFilled(f, dct, wholeImage, imcuRowNum)
      ensures mcu == before + Blocks(f, dct, BoxPlaces(s.sel[j], RowNumber(j, y, 0), McuHeight(s, j), m * McuWidth(s, j),
                                                       McuWidth(s, j)))
    {
      var c, row, col, w := s.sel[j], RowNumber(j, y, 0), m * McuWidth(s, j), McuWidth(s, j);
      mcu := before;
      for yindex := 0 to McuHeight(s, j)
        invariant mcu == before + Blocks(f, dct, BoxPlaces(c, row, yindex, col, w))
      {
        BlocksConcat(f, dct, BoxPlaces(c, row, yindex, col, w), RowPlaces(c, row + yindex, col, w));
        PartInBand(s, imcuRowNum, y, m, j, yindex);
        mcu := AddFromArray(mcu, c, row + yindex, col, w);
      }
    }

    method AddFromArray(mcu: seq<Block>, c: nat, row: nat, col: nat, n: nat) returns (r: seq<Block>)
      requires c < |f.planes| && BandFilled(f, dct, wholeImage, imcuRowNum)
      requires RowInBand(f, imcuRowNum, c, row, col, n)
      ensures r == mcu + Blocks(f, dct, RowPlaces(c, row, col, n))
    {
      r := mcu;
      for xindex := 0 to n
        invariant r == mcu + Blocks(f, dct, RowPlaces(c, row, col, xindex))
      {
        RowSnoc(f, dct, c, row, col, xindex);
        assert InBand(f, imcuRowNum, Place(c, row, col + xindex));
        r := r + [wholeImage[Place(c, row, col + xindex)]];
      }
    }

    /** The arrays hold the current iMCU row, if that is where the MCUs come from. */
    ghost predicate Supplied(source: Source)
      reads this
    {
      source.FromArrays? && imcuRowNum < f.total ==> BandFilled(f, dct, wholeImage, imcuRowNum)
    }

    method Build(source: Source, y: nat, m: nat) returns (mcu: seq<Block>)
      requires s.f == f && IsMcu(s, imcuRowNum, y, m) && Supplied(source)
      ensures mcu == McuAt(s, dct, imcuRowNum, y, m)
    {
      match source {
        case FromSamples => mcu := BuildMcu(false, y, m);
        case FromCoefficients => mcu := BuildMcu(true, y, m);
        case FromArrays => mcu := McuFromArrays(y, m);
      }
    }

    /** The position within the iMCU row, and what has been sent. */
    predicate InRow(yoffset: nat, col: nat)
      reads this
    {
      && s.f == f && imcuRowNum < f.total && mcuRowsPerImcuRow == RowsIn(s, imcuRowNum) && yoffset <= mcuRowsPerImcuRow
      && col <= McusPerRow(s) && sent == McusBefore(s, dct, imcuRowNum, yoffset, col)
    }

    /** compress_data or compress_output: the MCUs of one iMCU row, of which the entropy coder accepts
        `room` before it suspends; the MCU that it refuses will be built again. */
    method SendImcuRow(source: Source, room: nat) returns (done: bool)
      requires Valid() && imcuRowNum < f.total && Supplied(source)
      modifies this`imcuRowNum, this`mcuCtr, this`mcuVertOffset, this`mcuRowsPerImcuRow, this`sent
      ensures Valid() && imcuRowNum == old(imcuRowNum) + (if done then 1 else 0)
      ensures |sent| >= |old(sent)| && (!done ==> |sent| == |old(sent)| + room)
    {
      var yoffset: nat, left: nat := mcuVertOffset, room;
      done := true;
      while done && yoffset < mcuRowsPerImcuRow
        invariant imcuRowNum == old(imcuRowNum) && InRow(yoffset, mcuCtr) && |sent| + left == |old(sent)| + room && left <= room
        invariant mcuCtr < McusPerRow(s) && (yoffset == mcuRowsPerImcuRow ==> mcuCtr == 0)
        invariant !done ==> left == 0 && yoffset < mcuRowsPerImcuRow && mcuVertOffset == yoffset
        decreases done, mcuRowsPerImcuRow - yoffset
      {
        done, left := SendMcuRow(source, yoffset, left);
        if done {
          mcuCtr, yoffset := 0, yoffset + 1;
        } else {
          mcuVertOffset := yoffset;
        }
      }
      if done {
        NextImcuRow();
      }
    }

    /** Completed the iMCU row, advance counters for the next one. */
    method NextImcuRow()
      requires InRow(mcuRowsPerImcuRow, 0)
      modifies this`imcuRowNum, this`mcuCtr, this`mcuVertOffset, this`mcuRowsPerImcuRow
      ensures Valid() && imcuRowNum == old(imcuRowNum) + 1
    {
      imcuRowNum := imcuRowNum + 1;
      StartImcuRow();
      if imcuRowNum < f.total {
        RowsAreSome(s, imcuRowNum);
      }
    }

    /** One MCU row, from mcu_ctr on. */
    method SendMcuRow(source: Source, yoffset: nat, room: nat) returns (done: bool, left: nat)
      requires InRow(yoffset, mcuCtr) && yoffset < mcuRowsPerImcuRow && mcuCtr < McusPerRow(s) && Supplied(source)
      modifies this`mcuCtr, this`sent
      ensures |sent| + left == |old(sent)| + room && left <= room
      ensures if done then InRow(yoffset + 1, 0)
              else left == 0 && mcuCtr < McusPerRow(s) && InRow(yoffset, mcuCtr)
    {
      var col := mcuCtr;
      left := room;
      while col < McusPerRow(s)
        invariant InRow(yoffset, col) && |sent| + left == |old(sent)| + room && left <= room
      {
        var mcu := Build(source, yoffset, col);
        if left == 0 {
          mcuCtr := col;
          return false, 0;
        }
        sent, left, col := sent + [mcu], left - 1, col + 1;
      }
      done := true;
    }

    /** The arrays hold all iMCU rows before this one. */
    ghost predicate FilledTo(n: nat)
      reads this
    {
      forall r :: 0 <= r < n ==> BandFilled(f, dct, wholeImage, r)
    }

    /** A pass over the scan: `rooms` says how many MCUs the entropy coder accepts in each call.  In the
        first pass of a multi-pass mode the arrays are filled on the way.  Main result: wherever the MCUs
        come from, and wherever the coder suspends, it is given the same MCUs. */
    method RunPass(source: Source, first: bool, rooms: seq<nat>)
      requires AtStart() && (first ==> source.FromArrays?) && (source.FromArrays? && !first ==> FilledTo(f.total))
      modifies this
      ensures Valid() && s == old(s)
      ensures imcuRowNum == f.total ==> sent == AllMcus(s, dct)
      ensures source.FromArrays? ==> FilledTo(imcuRowNum)
      ensures (forall i :: 0 <= i < |rooms| ==> rooms[i] > 0) ==> imcuRowNum == f.total || imcuRowNum + |sent| >= |rooms|
    {
      for i := 0 to |rooms|
        invariant Valid() && s == old(s)
        invariant source.FromArrays? ==> FilledTo(if first then imcuRowNum else f.total)
        invariant (forall k :: 0 <= k < |rooms| ==> rooms[k] > 0) ==> imcuRowNum == f.total || imcuRowNum + |sent| >= i
      {
        if imcuRowNum < f.total {
          var done := Step(source, first, rooms[i]);
        }
      }
    }

    method Step(source: Source, first: bool, room: nat) returns (done: bool)
      requires Valid() && imcuRowNum < f.total && (first ==> source.FromArrays?)
      requires source.FromArrays? ==> FilledTo(if first then imcuRowNum else f.total)
      modifies this`wholeImage, this`imcuRowNum, this`mcuCtr, this`mcuVertOffset, this`mcuRowsPerImcuRow, this`sent
      ensures Valid() && (source.FromArrays? ==> FilledTo(if first then imcuRowNum else f.total))
      ensures imcuRowNum == old(imcuRowNum) + (if done then 1 else 0)
      ensures |sent| >= |old(sent)| && (!done ==> |sent| == |old(sent)| + room)
    {
      ghost var r := imcuRowNum;
      if first {
        ghost var was := wholeImage;
        FirstPassRow();
        OtherBandsKept(f, dct, was, wholeImage, r);
      }
      done := SendImcuRow(source, room);
    }
  }

  /** The iMCU rows before this one keep their blocks. */
  lemma OtherBandsKept(f: Frame, dct: Place -> Block, was: map<Place, Block>, now: map<Place, Block>, r: nat)
    requires OnlyBand(f, was, now, r)
    ensures forall r0 :: 0 <= r0 < r && BandFilled(f, dct, was, r0) ==> BandFilled(f, dct, now, r0)
  {
    forall r0, p: Place | 0 <= r0 < r && InBand(f, r0, p)
      ensures !InBand(f, r, p)
    {
      Scale(r0 + 1, r, f.planes[p.c].v);
      assert (r0 + 1) * f.planes[p.c].v == r0 * f.planes[p.c].v + f.planes[p.c].v;
    }
  }

  /** Which rows of an iMCU row are real. */
  lemma BlockRowsReal(f: Frame, c: nat, r: nat)
    requires c < |f.planes| && r < f.total
    ensures var plane := f.planes[c];
            var blockRows := if r < f.total - 1 then plane.v else LastPart(plane.height, plane.v);
            && 1 <= blockRows <= plane.v && r * plane.v >= 0
            && (r < f.total - 1 ==> r * plane.v + plane.v <= plane.height)
            && (r == f.total - 1 ==> r * plane.v + blockRows == plane.height)
  {
    var plane := f.planes[c];
    assert f.Fits(plane);
    LastPartIs(plane.height, plane.v, f.total);
    Product(r, plane.v);
    if r < f.total - 1 {
      Scale(r + 1, f.total - 1, plane.v);
      assert (r + 1) * plane.v == r * plane.v + plane.v;
    }
  }

  lemma BandDone(f: Frame, dct: Place -> Block, image: map<Place, Block>, r: nat, c: nat)
    requires c < |f.planes| && PartFilled(f, dct, image, r, c, f.planes[c].v)
    ensures PartFilled(f, dct, image, r, c + 1, 0)
  {
  }

  lemma RowAbove(f: Frame, dct: Place -> Block, image: map<Place, Block>, r: nat, c: nat, i: nat, row: nat)
    requires c < |f.planes| && 1 <= i < f.planes[c].v && PartFilled(f, dct, image, r, c, i) && row + 1 == r * f.planes[c].v + i
    requires f.across * f.planes[c].h >= 0
    ensures RowFilled(f, dct, image, c, row, f.across * f.planes[c].h)
  {
    forall col: nat | col < f.across * f.planes[c].h
      ensures Place(c, row, col) in image && image[Place(c, row, col)] == Padded(f, dct, Place(c, row, col))
    {
      assert InBand(f, r, Place(c, row, col));
    }
  }

  /** The blocks of an MCU belong to its iMCU row. */
  lemma PartInBand(s: BlockScan, r: nat, y: nat, m: nat, j: nat, yindex: nat)
    requires IsMcu(s, r, y, m) && j < |s.sel| && yindex < McuHeight(s, j)
    ensures r * PlaneAt(s, j).v >= 0 && m * McuWidth(s, j) >= 0
    ensures RowInBand(s.f, r, s.sel[j], r * PlaneAt(s, j).v + y + yindex, m * McuWidth(s, j), McuWidth(s, j))
  {
    var c := PlaneAt(s, j);
    assert s.f.Fits(c);
    Product(r, c.v);
    Product(m, McuWidth(s, j));
    RowInside(s, r, y, j);
    if s.Single() {
      RowsAreSome(s, r);
      BlockRowsReal(s.f, s.sel[0], r);
    } else {
      ColumnInside(s, m, j);
    }
  }

  lemma BoxGrows(f: Frame, dct: Place -> Block, before: seq<Block>, c: nat, row: nat, rows: nat, col: nat, n: nat)
    ensures before + Blocks(f, dct, BoxPlaces(c, row, rows + 1, col, n))
         == (before + Blocks(f, dct, BoxPlaces(c, row, rows, col, n))) + Blocks(f, dct, RowPlaces(c, row + rows, col, n))
  {
    BlocksConcat(f, dct, BoxPlaces(c, row, rows, col, n), RowPlaces(c, row + rows, col, n));
  }

  lemma LastOfBox(f: Frame, dct: Place -> Block, before: seq<Block>, c: nat, row: nat, rows: nat, col: nat, n: nat)
    requires n >= 1
    ensures var mcu := before + Blocks(f, dct, BoxPlaces(c, row, rows, col, n));
            rows > 0 ==> mcu != [] && mcu[|mcu| - 1] == Padded(f, dct, Place(c, row + rows - 1, col + n - 1))
  {
    if rows > 0 {
      BoxLast(c, row, rows, col, n);
      var box := BoxPlaces(c, row, rows, col, n);
      assert Blocks(f, dct, box)[|box| - 1] == Padded(f, dct, box[|box| - 1]);
    }
  }

  lemma BoxLast(c: nat, row: nat, rows: nat, col: nat, n: nat)
    requires rows >= 1 && n >= 1
    ensures var box := BoxPlaces(c, row, rows, col, n); box != [] && box[|box| - 1] == Place(c, row + rows - 1, col + n - 1)
  {
  }
}
