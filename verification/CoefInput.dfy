/** The coefficient controller of the decompressor (jdcoefct.c): consume_data stores the MCUs of a scan in
    the arrays of its components, decompress_onepass hands them to the inverse DCT at once, and
    decompress_data later takes them from the arrays. */
module CoefInput {
  import opened SizeArithmetic
  import opened ArithWholeScan
  import opened BlockLayout
  import opened McuBuilders

  /** What decoding an MCU makes of a block: its coefficients as they were coded, and the contents before. */
  type Decoding = (Block, JBlock) -> JBlock

  /** The arrays after the MCUs before this position (unfolded only by the lemmas below). */
  ghost predicate DecodedBefore(s: BlockScan, dct: Place -> Block, decode: Decoding, start: map<Place, JBlock>,
                                now: map<Place, JBlock>, r: nat, y: nat, m: nat)
  {
    forall k {:trigger DecodedNow(s, dct, decode, start, now, r, y, k)} :: k == m ==>
      DecodedNow(s, dct, decode, start, now, r, y, k)
  }

  /** Exactly the blocks visited have been decoded, each from what it held at the start. */
  ghost predicate DecodedNow(s: BlockScan, dct: Place -> Block, decode: Decoding, start: map<Place, JBlock>,
                             now: map<Place, JBlock>, r: nat, y: nat, m: nat)
  {
    && now.Keys == start.Keys
    && forall p: Place :: p in start ==>
         now[p] == if Visited(s, r, y, m, p) then decode(Padded(s.f, dct, p), start[p]) else start[p]
  }

  /** The arrays have room for all blocks of the scan. */
  ghost predicate HasRoom(s: BlockScan, image: map<Place, JBlock>) {
    forall p: Place :: Covered(s, p) ==> p in image
  }

  lemma McuCovered(s: BlockScan, r: nat, y: nat, m: nat, p: Place)
    requires IsMcu(s, r, y, m) && InMcu(s, r, y, m, p)
    ensures Covered(s, p)
  {
    StepMcu(s, r, y, m, p);
    var j :| 0 <= j < |s.sel| && VisitedIn(s, r, y, m + 1, j, p);
    assert CoveredIn(s, j, p);
  }

  /** Part of the MCU has been stored: its first n blocks. */
  ghost predicate McuStored(ps: seq<Place>, mcu: seq<Block>, decode: Decoding, was: map<Place, JBlock>, now: map<Place, JBlock>,
                            n: nat)
    requires n <= |ps| == |mcu|
  {
    && now.Keys == was.Keys
    && (forall i :: 0 <= i < n ==> ps[i] in was && now[ps[i]] == decode(mcu[i], was[ps[i]]))
    && forall p :: p in was && p !in ps[..n] ==> now[p] == was[p]
  }

  lemma StoreOne(ps: seq<Place>, mcu: seq<Block>, decode: Decoding, was: map<Place, JBlock>, now: map<Place, JBlock>, n: nat)
    requires n < |ps| == |mcu| && Distinct(ps) && ps[n] in was && McuStored(ps, mcu, decode, was, now, n)
    ensures ps[n] in now && McuStored(ps, mcu, decode, was, now[ps[n] := decode(mcu[n], now[ps[n]])], n + 1)
  {
    assert ps[n] !in ps[..n];
    var next := now[ps[n] := decode(mcu[n], now[ps[n]])];
    assert ps[..n + 1] == ps[..n] + [ps[n]];
    assert next.Keys == was.Keys;
  }

  /** Storing the next MCU. */
  lemma McuDone(s: BlockScan, dct: Place -> Block, decode: Decoding, start: map<Place, JBlock>, was: map<Place, JBlock>,
                now: map<Place, JBlock>, r: nat, y: nat, m: nat)
    requires IsMcu(s, r, y, m) && DecodedBefore(s, dct, decode, start, was, r, y, m)
    requires McuStored(McuPlaces(s, r, y, m), McuAt(s, dct, r, y, m), decode, was, now, |McuPlaces(s, r, y, m)|)
    ensures DecodedBefore(s, dct, decode, start, now, r, y, m + 1)
  {
    var ps := McuPlaces(s, r, y, m);
    assert DecodedNow(s, dct, decode, start, was, r, y, m);
    assert ps[..|ps|] == ps;
    forall p | p in start
      ensures now[p] == if Visited(s, r, y, m + 1, p) then decode(Padded(s.f, dct, p), start[p]) else start[p]
    {
      StepMcu(s, r, y, m, p);
      McuHas(s, r, y, m, p);
      if p in ps {
        var i :| 0 <= i < |ps| && ps[i] == p;
        assert now[ps[i]] == decode(McuAt(s, dct, r, y, m)[i], was[ps[i]]);
      }
    }
    assert DecodedNow(s, dct, decode, start, now, r, y, m + 1);
  }

  lemma NothingDone(s: BlockScan, dct: Place -> Block, decode: Decoding, start: map<Place, JBlock>)
    ensures DecodedBefore(s, dct, decode, start, start, 0, 0, 0)
  {
    forall p: Place
      ensures !Visited(s, 0, 0, 0, p)
    {
      VisitsEnd(s, p);
    }
    assert DecodedNow(s, dct, decode, start, start, 0, 0, 0);
  }

  lemma RowDone(s: BlockScan, dct: Place -> Block, decode: Decoding, start: map<Place, JBlock>, now: map<Place, JBlock>,
                r: nat, y: nat)
    requires r < s.f.total && y < RowsIn(s, r) && DecodedBefore(s, dct, decode, start, now, r, y, McusPerRow(s))
    ensures DecodedBefore(s, dct, decode, start, now, r, y + 1, 0)
  {
    assert DecodedNow(s, dct, decode, start, now, r, y, McusPerRow(s));
    forall p: Place
      ensures Visited(s, r, y, McusPerRow(s), p) <==> Visited(s, r, y + 1, 0, p)
    {
      StepRow(s, r, y, p);
    }
    assert DecodedNow(s, dct, decode, start, now, r, y + 1, 0);
  }

  lemma ImcuRowDone(s: BlockScan, dct: Place -> Block, decode: Decoding, start: map<Place, JBlock>, now: map<Place, JBlock>,
                    r: nat)
    requires r < s.f.total && DecodedBefore(s, dct, decode, start, now, r, RowsIn(s, r), 0)
    ensures DecodedBefore(s, dct, decode, start, now, r + 1, 0, 0)
  {
    assert DecodedNow(s, dct, decode, start, now, r, RowsIn(s, r), 0);
    forall p: Place
      ensures Visited(s, r, RowsIn(s, r), 0, p) <==> Visited(s, r + 1, 0, 0, p)
    {
      StepImcuRow(s, r, p);
    }
    assert DecodedNow(s, dct, decode, start, now, r + 1, 0, 0);
  }

  lemma ScanDone(s: BlockScan, dct: Place -> Block, decode: Decoding, start: map<Place, JBlock>, now: map<Place, JBlock>)
    requires DecodedBefore(s, dct, decode, start, now, s.f.total, 0, 0)
    ensures now.Keys == start.Keys
    ensures forall p: Place :: p in start ==> now[p] == if Covered(s, p) then decode(Padded(s.f, dct, p), start[p]) else start[p]
  {
    assert DecodedNow(s, dct, decode, start, now, s.f.total, 0, 0);
    forall p: Place
      ensures Visited(s, s.f.total, 0, 0, p) <==> Covered(s, p)
    {
      VisitsEnd(s, p);
    }
  }

  lemma KeysKept(s: BlockScan, dct: Place -> Block, decode: Decoding, start: map<Place, JBlock>, now: map<Place, JBlock>,
                 r: nat, y: nat, m: nat)
    requires DecodedBefore(s, dct, decode, start, now, r, y, m)
    ensures now.Keys == start.Keys
  {
    assert DecodedNow(s, dct, decode, start, now, r, y, m);
  }

  /** Each call finds an MCU to decode. */
  predicate AllSome(rooms: seq<nat>) {
    forall i :: 0 <= i < |rooms| ==> rooms[i] > 0
  }

  class InputController {
    const f: Frame
    var s: BlockScan                        // the current scan
    var decode: Decoding
    var inputImcuRow: nat
    var mcuCtr: nat
    var mcuVertOffset: nat
    var mcuRowsPerImcuRow: nat
    var wholeImage: map<Place, JBlock>      // the arrays of all components
    var input: seq<seq<Block>>              // the MCUs that the entropy decoder has yet to deliver
    ghost var dct: Place -> Block           // what was coded
    ghost var start: map<Place, JBlock>     // the arrays when the scan began

    /** The arrays, and the first scan, of which all MCUs are to come. */
    constructor (s: BlockScan, decode: Decoding, image: map<Place, JBlock>, input: seq<seq<Block>>, ghost dct: Place -> Block)
      requires HasRoom(s, image) && input == AllMcus(s, dct)
      ensures f == s.f && fresh(this) && AtStart(s, decode, input, dct) && start == wholeImage == image
    {
      f, this.s, this.decode := s.f, s, decode;
      inputImcuRow, mcuCtr, mcuVertOffset, mcuRowsPerImcuRow := 0, 0, 0, 0;
      wholeImage, this.input := image, input;
      this.dct, start := dct, image;
      new;
      StartInputPass(s, decode, input, dct);
    }

    /** The scan is about to be read. */
    ghost predicate AtStart(s: BlockScan, decode: Decoding, input: seq<seq<Block>>, dct: Place -> Block)
      reads this
    {
      && this.s == s && this.decode == decode && this.input == input && this.dct == dct
      && Valid() && inputImcuRow == mcuVertOffset == mcuCtr == 0
    }

    /** start_input_pass for a scan of which all MCUs are to come. */
    method StartInputPass(s: BlockScan, decode: Decoding, input: seq<seq<Block>>, ghost dct: Place -> Block)
      requires s.f == f && HasRoom(s, wholeImage) && input == AllMcus(s, dct)
      modifies this
      ensures AtStart(s, decode, input, dct) && start == wholeImage == old(wholeImage)
    {
      this.s, this.decode, this.input, inputImcuRow := s, decode, input, 0;
      this.dct, start := dct, wholeImage;
      StartImcuRow();
      RowsAreSome(s, 0);
      NothingDone(s, dct, decode, wholeImage);
    }

    /** start_iMCU_row */
    method StartImcuRow()
      requires s.f == f && inputImcuRow < f.total
      modifies this`mcuRowsPerImcuRow, this`mcuCtr, this`mcuVertOffset
      ensures mcuCtr == mcuVertOffset == 0 && mcuRowsPerImcuRow == RowsIn(s, inputImcuRow)
    {
      mcuRowsPerImcuRow := McuRowsPerImcuRow(s, inputImcuRow);
      mcuCtr, mcuVertOffset := 0, 0;
    }

    /** The MCUs before this position have been stored, and the others are to come. */
    ghost predicate InRow(y: nat, m: nat)
      reads this
    {
      && s.f == f && inputImcuRow < f.total && mcuRowsPerImcuRow == RowsIn(s, inputImcuRow)
      && y <= mcuRowsPerImcuRow && m <= McusPerRow(s) && HasRoom(s, start)
      && DecodedBefore(s, dct, decode, start, wholeImage, inputImcuRow, y, m)
      && AllMcus(s, dct) == McusBefore(s, dct, inputImcuRow, y, m) + input
    }

    ghost predicate Valid()
      reads this
    {
      if inputImcuRow < f.total then InRow(mcuVertOffset, mcuCtr) && mcuVertOffset < mcuRowsPerImcuRow && mcuCtr < McusPerRow(s)
      else Completed()
    }

    /** The scan has been completed. */
    ghost predicate Completed()
      reads this
    {
      && inputImcuRow == f.total && s.f == f && input == [] && wholeImage.Keys == start.Keys
      && forall p: Place :: p in start ==>
           wholeImage[p] == if Covered(s, p) then decode(Padded(f, dct, p), start[p]) else start[p]
    }

    /** decode_mcu on the blocks of an MCU in the arrays. */
    method DecodeMcu(places: seq<Place>)
      requires input != [] && |input[0]| == |places| && Distinct(places)
      requires forall i :: 0 <= i < |places| ==> places[i] in wholeImage
      modifies this`wholeImage, this`input
      ensures input == old(input)[1..]
      ensures McuStored(places, old(input)[0], decode, old(wholeImage), wholeImage, |places|)
    {
      ghost var was := wholeImage;
      for i := 0 to |places|
        invariant input == old(input) && McuStored(places, input[0], decode, was, wholeImage, i)
      {
        StoreOne(places, input[0], decode, was, wholeImage, i);
        wholeImage := wholeImage[places[i] := decode(input[0][i], wholeImage[places[i]])];
      }
      input := input[1..];
    }

    /** The blocks of an MCU, in the loops of consume_data. */
    method CollectPlaces(yoffset: nat, col: nat) returns (places: seq<Place>)
      requires s.f == f && IsMcu(s, inputImcuRow, yoffset, col)
      ensures places == McuPlaces(s, inputImcuRow, yoffset, col)
    {
      places := [];
      for j := 0 to |s.sel|
        invariant places == SomePlaces(s, inputImcuRow, yoffset, col, j)
      {
        Product(inputImcuRow, PlaneAt(s, j).v);
        Product(col, McuWidth(s, j));
        var row, startCol, w := inputImcuRow * PlaneAt(s, j).v + yoffset, col * McuWidth(s, j), McuWidth(s, j);
        ghost var before := places;
        for yindex := 0 to McuHeight(s, j)
          invariant places == before + BoxPlaces(s.sel[j], row, yindex, startCol, w)
        {
          for xindex := 0 to w
            invariant places == before + BoxPlaces(s.sel[j], row, yindex, startCol, w)
                                + RowPlaces(s.sel[j], row + yindex, startCol, xindex)
          {
            places := places + [Place(s.sel[j], row + yindex, startCol + xindex)];
          }
        }
      }
    }

    method ConsumeMcu(yoffset: nat, col: nat)
      requires InRow(yoffset, col) && yoffset < mcuRowsPerImcuRow && col < McusPerRow(s)
      modifies this`wholeImage, this`input
      ensures InRow(yoffset, col + 1) && |input| == |old(input)| - 1
    {
      var places := CollectPlaces(yoffset, col);
      NextMcu(s, dct, inputImcuRow, yoffset, col, input);
      KeysKept(s, dct, decode, start, wholeImage, inputImcuRow, yoffset, col);
      forall i | 0 <= i < |places|
        ensures places[i] in wholeImage
      {
        McuHas(s, inputImcuRow, yoffset, col, places[i]);
        McuCovered(s, inputImcuRow, yoffset, col, places[i]);
      }
      McuHas(s, inputImcuRow, yoffset, col, Place(0, 0, 0));
      ghost var was := wholeImage;
      DecodeMcu(places);
      McuDone(s, dct, decode, start, was, wholeImage, inputImcuRow, yoffset, col);
    }

    /** One MCU row of consume_data; `room` MCUs can be decoded before the input is exhausted. */
    method ConsumeMcuRow(yoffset: nat, room: nat) returns (done: bool, left: nat)
      requires InRow(yoffset, mcuCtr) && yoffset < mcuRowsPerImcuRow && mcuCtr < McusPerRow(s)
      modifies this`wholeImage, this`input, this`mcuCtr
      ensures |input| + room == |old(input)| + left && left <= room && (done ==> left < room)
      ensures if done then InRow(yoffset + 1, 0) else left == 0 && mcuCtr < McusPerRow(s) && InRow(yoffset, mcuCtr)
    {
      var col := mcuCtr;
      left := room;
      while col < McusPerRow(s)
        invariant InRow(yoffset, col) && |input| + room == |old(input)| + left && left <= room
        invariant mcuCtr == old(mcuCtr) && (col > mcuCtr ==> left < room)
      {
        if left == 0 {
          mcuCtr := col;
          return false, 0;
        }
        ConsumeMcu(yoffset, col);
        left, col := left - 1, col + 1;
      }
      RowDone(s, dct, decode, start, wholeImage, inputImcuRow, yoffset);
      done := true;
    }

    /** consume_data: one iMCU row, unless the input is suspended, which happens only when all of the `room` MCUs
        at hand have been decoded; what is left of them is for the next call. */
    method ConsumeData(room: nat) returns (done: bool, left: nat)
      requires Valid() && inputImcuRow < f.total
      modifies this`wholeImage, this`input, this`mcuCtr, this`mcuVertOffset, this`inputImcuRow, this`mcuRowsPerImcuRow
      ensures Valid() && inputImcuRow == old(inputImcuRow) + (if done then 1 else 0)
      ensures |input| + room == |old(input)| + left && left <= room && (if done then left < room else left == 0)
    {
      var yoffset: nat := mcuVertOffset;
      done, left := true, room;
      while done && yoffset < mcuRowsPerImcuRow
        invariant inputImcuRow == old(inputImcuRow) && InRow(yoffset, mcuCtr)
        invariant |input| + room == |old(input)| + left && left <= room && (yoffset > old(mcuVertOffset) ==> left < room)
        invariant mcuCtr < McusPerRow(s) && (yoffset == mcuRowsPerImcuRow ==> mcuCtr == 0)
        invariant !done ==> left == 0 && yoffset < mcuRowsPerImcuRow && mcuVertOffset == yoffset
        decreases done, mcuRowsPerImcuRow - yoffset
      {
        done, left := ConsumeMcuRow(yoffset, left);
        if done {
          mcuCtr, yoffset := 0, yoffset + 1;
        } else {
          mcuVertOffset := yoffset;
        }
      }
      if done {
        NextImcuRow();
      }
    }

    /** A scan: `rooms` says how many MCUs come to hand before each call.  Main result: the scan is completed
        once enough calls find something to decode, and then each block of it has been decoded once. */
    method RunScan(rooms: seq<nat>)
      requires Valid()
      modifies this`wholeImage, this`input, this`mcuCtr, this`mcuVertOffset, this`inputImcuRow, this`mcuRowsPerImcuRow
      ensures Valid() && |input| <= |old(input)|
      ensures AllSome(rooms) ==> Completed() || inputImcuRow + |old(input)| >= old(inputImcuRow) + |rooms| + |input|
      ensures AllSome(rooms) && |rooms| >= f.total + |old(input)| ==> Completed()
    {
      for i := 0 to |rooms|
        invariant Valid() && |input| <= |old(input)|
        invariant AllSome(rooms) ==> inputImcuRow == f.total || inputImcuRow + |old(input)| >= old(inputImcuRow) + i + |input|
      {
        if inputImcuRow < f.total {
          var done, left := ConsumeData(rooms[i]);
        }
      }
    }

    /** Completed the iMCU row, and perhaps the scan. */
    method NextImcuRow()
      requires InRow(mcuRowsPerImcuRow, 0)
      modifies this`mcuCtr, this`mcuVertOffset, this`inputImcuRow, this`mcuRowsPerImcuRow
      ensures Valid() && inputImcuRow == old(inputImcuRow) + 1
    {
      ImcuRowDone(s, dct, decode, start, wholeImage, inputImcuRow);
      inputImcuRow := inputImcuRow + 1;
      if inputImcuRow < f.total {
        StartImcuRow();
        RowsAreSome(s, inputImcuRow);
      } else {
        ScanDone(s, dct, decode, start, wholeImage);
      }
    }
  }

  /** The next MCU that the decoder delivers is the one at this position. */
  lemma NextMcu(s: BlockScan, dct: Place -> Block, r: nat, y: nat, m: nat, input: seq<seq<Block>>)
    requires IsMcu(s, r, y, m) && AllMcus(s, dct) == McusBefore(s, dct, r, y, m) + input
    ensures input != [] && input[0] == McuAt(s, dct, r, y, m)
    ensures AllMcus(s, dct) == McusBefore(s, dct, r, y, m + 1) + input[1..]
  {
    McusGrow(s, dct, r, y, m + 1);
    var before, next := McusBefore(s, dct, r, y, m), McusBefore(s, dct, r, y, m + 1);
    assert next == before + [McuAt(s, dct, r, y, m)];
    assert next <= AllMcus(s, dct);
    assert AllMcus(s, dct)[|before|] == next[|before|];
    assert AllMcus(s, dct) == next + AllMcus(s, dct)[|next|..];
  }

  /** What is sent before a position is the beginning of all that is sent. */
  lemma {:induction false} McusGrow(s: BlockScan, dct: Place -> Block, r: nat, y: nat, m: nat)
    requires r < s.f.total && y <= RowsIn(s, r) && m <= McusPerRow(s) && (y == RowsIn(s, r) ==> m == 0)
    ensures McusBefore(s, dct, r, y, m) <= AllMcus(s, dct)
    decreases s.f.total - r, RowsIn(s, r) - y, McusPerRow(s) - m
  {
    if y == RowsIn(s, r) {
      if r + 1 < s.f.total {
        RowsAreSome(s, r + 1);
        McusGrow(s, dct, r + 1, 0, 0);
      }
      assert McusBefore(s, dct, r + 1, 0, 0) == McusBefore(s, dct, r, y, 0);
    } else if m == McusPerRow(s) {
      McusGrow(s, dct, r, y + 1, 0);
      assert McusBefore(s, dct, r, y + 1, 0) == McusBefore(s, dct, r, y, m);
    } else {
      McusGrow(s, dct, r, y, m + 1);
      assert McusBefore(s, dct, r, y, m) <= McusBefore(s, dct, r, y, m + 1);
    }
  }
}
