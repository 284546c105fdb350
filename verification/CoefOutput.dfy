/** The two ways in which the decompressor gives blocks to the inverse DCT (jdcoefct.c): directly from the
    MCUs of a single scan (decompress_onepass), or from the arrays of all components (decompress_data). */
module CoefOutput {
  import opened SizeArithmetic
  import opened ArithWholeScan
  import opened BlockLayout
  import opened McuBuilders
  import opened CoefInput

  const ZERO_BLOCK: JBlock := seq(64, _ => 0)

  /** A real block of iMCU row r of its component. */
  predicate RealIn(f: Frame, r: nat, p: Place) {
    && p.c < |f.planes| && p.row < f.planes[p.c].height && p.col < f.planes[p.c].width
    && 0 <= p.row - r * f.planes[p.c].v < f.planes[p.c].v
  }

  // ------------------------------------------------------------------ blocks from the arrays

  /** The blocks of iMCU row r that come before row i of component c, and before column n of that row. */
  predicate RealBefore(f: Frame, r: nat, c: nat, i: nat, n: nat, p: Place) {
    && RealIn(f, r, p)
    && (p.c < c || (p.c == c && (p.row - r * f.planes[p.c].v < i || (p.row - r * f.planes[p.c].v == i && p.col < n))))
  }

  ghost predicate Given(f: Frame, image: map<Place, JBlock>, shown: map<Place, JBlock>, r: nat, c: nat, i: nat, n: nat) {
    forall p: Place :: (p in shown <==> RealBefore(f, r, c, i, n, p)) && (p in shown ==> p in image && shown[p] == image[p])
  }

  /** The output half of decompress_data: exactly the real blocks of iMCU row r, each given once at its place. */
  method OutputFromArrays(f: Frame, image: map<Place, JBlock>, r: nat) returns (shown: map<Place, JBlock>)
    requires r < f.total && forall p: Place :: RealIn(f, r, p) ==> p in image
    ensures forall p: Place :: p in shown <==> RealIn(f, r, p)
    ensures forall p: Place :: p in shown ==> shown[p] == image[p]
  {
    shown := map[];
    for c := 0 to |f.planes|
      invariant Given(f, image, shown, r, c, 0, 0)
    {
      var plane := f.planes[c];
      assert f.Fits(plane);
      var blockRows := if r < f.total - 1 then plane.v else LastPart(plane.height, plane.v);
      BlockRowsReal(f, c, r);
      for i := 0 to blockRows
        invariant Given(f, image, shown, r, c, i, 0)
      {
        shown := GiveRow(f, image, shown, r, c, i);
      }
      ComponentGiven(f, image, shown, r, c, blockRows);
    }
  }

  lemma ComponentGiven(f: Frame, image: map<Place, JBlock>, shown: map<Place, JBlock>, r: nat, c: nat, blockRows: nat)
    requires c < |f.planes| && r < f.total && Given(f, image, shown, r, c, blockRows, 0)
    requires blockRows == if r < f.total - 1 then f.planes[c].v
                          else (assert f.Fits(f.planes[c]); LastPart(f.planes[c].height, f.planes[c].v))
    ensures Given(f, image, shown, r, c + 1, 0, 0)
  {
    BlockRowsReal(f, c, r);
  }

  method GiveRow(f: Frame, image: map<Place, JBlock>, given: map<Place, JBlock>, r: nat, c: nat, i: nat)
    returns (shown: map<Place, JBlock>)
    requires r < f.total && c < |f.planes| && Given(f, image, given, r, c, i, 0) && i < f.planes[c].v
    requires 0 <= r * f.planes[c].v + i < f.planes[c].height && forall p: Place :: RealIn(f, r, p) ==> p in image
    ensures Given(f, image, shown, r, c, i + 1, 0)
  {
    shown := given;
    var row := r * f.planes[c].v + i;
    for blockNum := 0 to f.planes[c].width
      invariant Given(f, image, shown, r, c, i, blockNum)
    {
      GiveOne(f, image, shown, r, c, i, row, blockNum);
      shown := shown[Place(c, row, blockNum) := image[Place(c, row, blockNum)]];
    }
    RowGiven(f, image, shown, r, c, i);
  }

  lemma GiveOne(f: Frame, image: map<Place, JBlock>, shown: map<Place, JBlock>, r: nat, c: nat, i: nat, row: nat, n: nat)
    requires c < |f.planes| && Given(f, image, shown, r, c, i, n) && i < f.planes[c].v && n < f.planes[c].width
    requires row == r * f.planes[c].v + i && row < f.planes[c].height && forall p: Place :: RealIn(f, r, p) ==> p in image
    ensures Place(c, row, n) in image
    ensures Given(f, image, shown[Place(c, row, n) := image[Place(c, row, n)]], r, c, i, n + 1)
  {
    assert RealIn(f, r, Place(c, row, n));
    forall p: Place
      ensures RealBefore(f, r, c, i, n + 1, p) <==> RealBefore(f, r, c, i, n, p) || p == Place(c, row, n)
    {
    }
  }

  lemma RowGiven(f: Frame, image: map<Place, JBlock>, shown: map<Place, JBlock>, r: nat, c: nat, i: nat)
    requires c < |f.planes| && Given(f, image, shown, r, c, i, f.planes[c].width)
    ensures Given(f, image, shown, r, c, i + 1, 0)
  {
    forall p: Place
      ensures RealBefore(f, r, c, i + 1, 0, p) <==> RealBefore(f, r, c, i, f.planes[c].width, p)
    {
    }
  }

  // ------------------------------------------------------------------ decompress_onepass

  /** Of iMCU row r, the real blocks of the MCUs before this position have been given (unfolded on demand). */
  ghost predicate ShownBefore(s: BlockScan, dct: Place -> Block, decode: Decoding, shown: map<Place, JBlock>,
                              r: nat, y: nat, m: nat)
  {
    forall k {:trigger ShownNow(s, dct, decode, shown, r, y, k)} :: k == m ==> ShownNow(s, dct, decode, shown, r, y, k)
  }

  ghost predicate ShownNow(s: BlockScan, dct: Place -> Block, decode: Decoding, shown: map<Place, JBlock>,
                           r: nat, y: nat, m: nat)
  {
    forall p: Place :: (p in shown <==> RealIn(s.f, r, p) && Visited(s, r, y, m, p))
                       && (p in shown ==> shown[p] == decode(Padded(s.f, dct, p), ZERO_BLOCK))
  }

  /** Of the next MCU, the first n blocks have been looked at: the real ones have been given. */
  ghost predicate McuShown(s: BlockScan, was: map<Place, JBlock>, now: map<Place, JBlock>, r: nat, ps: seq<Place>,
                           buffer: seq<JBlock>, n: nat)
    requires n <= |ps| == |buffer|
  {
    && (forall i :: 0 <= i < n && RealIn(s.f, r, ps[i]) ==> ps[i] in now && now[ps[i]] == buffer[i])
    && forall p: Place :: !(p in ps[..n] && RealIn(s.f, r, p)) ==> (p in now <==> p in was) && (p in was ==> now[p] == was[p])
  }

  lemma ShowOne(s: BlockScan, was: map<Place, JBlock>, now: map<Place, JBlock>, r: nat, ps: seq<Place>, buffer: seq<JBlock>,
                n: nat)
    requires n < |ps| == |buffer| && Distinct(ps) && McuShown(s, was, now, r, ps, buffer, n)
    ensures McuShown(s, was, if RealIn(s.f, r, ps[n]) then now[ps[n] := buffer[n]] else now, r, ps, buffer, n + 1)
  {
    assert ps[..n + 1] == ps[..n] + [ps[n]];
  }

  lemma McuGiven(s: BlockScan, dct: Place -> Block, decode: Decoding, was: map<Place, JBlock>, now: map<Place, JBlock>,
                 buffer: seq<JBlock>, r: nat, y: nat, m: nat)
    requires IsMcu(s, r, y, m) && ShownBefore(s, dct, decode, was, r, y, m) && |buffer| == |McuPlaces(s, r, y, m)|
    requires forall i :: 0 <= i < |buffer| ==> buffer[i] == decode(McuAt(s, dct, r, y, m)[i], ZERO_BLOCK)
    requires McuShown(s, was, now, r, McuPlaces(s, r, y, m), buffer, |buffer|)
    ensures ShownBefore(s, dct, decode, now, r, y, m + 1)
  {
    var ps := McuPlaces(s, r, y, m);
    assert ShownNow(s, dct, decode, was, r, y, m);
    assert ps[..|ps|] == ps;
    forall p: Place
      ensures p in now <==> RealIn(s.f, r, p) && Visited(s, r, y, m + 1, p)
      ensures p in now ==> now[p] == decode(Padded(s.f, dct, p), ZERO_BLOCK)
    {
      StepMcu(s, r, y, m, p);
      McuHas(s, r, y, m, p);
      if p in ps {
        var i :| 0 <= i < |ps| && ps[i] == p;
        assert RealIn(s.f, r, ps[i]) ==> now[ps[i]] == buffer[i];
      }
    }
    assert ShownNow(s, dct, decode, now, r, y, m + 1);
  }

  lemma NothingShown(s: BlockScan, dct: Place -> Block, decode: Decoding, r: nat)
    ensures ShownBefore(s, dct, decode, map[], r, 0, 0)
  {
    forall p: Place | RealIn(s.f, r, p)
      ensures !Visited(s, r, 0, 0, p)
    {
    }
    assert ShownNow(s, dct, decode, map[], r, 0, 0);
  }

  lemma RowShown(s: BlockScan, dct: Place -> Block, decode: Decoding, shown: map<Place, JBlock>, r: nat, y: nat)
    requires r < s.f.total && y < RowsIn(s, r) && ShownBefore(s, dct, decode, shown, r, y, McusPerRow(s))
    ensures ShownBefore(s, dct, decode, shown, r, y + 1, 0)
  {
    assert ShownNow(s, dct, decode, shown, r, y, McusPerRow(s));
    forall p: Place
      ensures Visited(s, r, y, McusPerRow(s), p) <==> Visited(s, r, y + 1, 0, p)
    {
      StepRow(s, r, y, p);
    }
    assert ShownNow(s, dct, decode, shown, r, y + 1, 0);
  }

  /** All real blocks of the iMCU row have been given. */
  ghost predicate ImcuRowShown(s: BlockScan, dct: Place -> Block, decode: Decoding, shown: map<Place, JBlock>, r: nat) {
    && (forall p: Place :: p in shown <==> RealIn(s.f, r, p) && p.c in s.sel)
    && forall p: Place :: p in shown ==> shown[p] == decode(Padded(s.f, dct, p), ZERO_BLOCK)
  }

  lemma AllShown(s: BlockScan, dct: Place -> Block, decode: Decoding, shown: map<Place, JBlock>, r: nat)
    requires r < s.f.total && ShownBefore(s, dct, decode, shown, r, RowsIn(s, r), 0)
    ensures ImcuRowShown(s, dct, decode, shown, r)
  {
    assert ShownNow(s, dct, decode, shown, r, RowsIn(s, r), 0);
    forall p: Place | RealIn(s.f, r, p)
      ensures Visited(s, r, RowsIn(s, r), 0, p) <==> p.c in s.sel
    {
      if j: nat :| j < |s.sel| && s.sel[j] == p.c {
        OnlyComponent(s, r, RowsIn(s, r), 0, j, p);
        AllVisited(s, r, j, p);
      }
    }
  }

  lemma AllVisited(s: BlockScan, r: nat, j: nat, p: Place)
    requires r < s.f.total && j < |s.sel| && s.sel[j] == p.c && RealIn(s.f, r, p)
    ensures VisitedIn(s, r, RowsIn(s, r), 0, j, p)
  {
    assert s.f.Fits(PlaneAt(s, j));
    RowsAreSome(s, r);
    assert (r + 1) * PlaneAt(s, j).v == r * PlaneAt(s, j).v + PlaneAt(s, j).v;
  }

  lemma ShowNext(s: BlockScan, was: map<Place, JBlock>, now: map<Place, JBlock>, r: nat, y: nat, m: nat, j: nat, yindex: nat,
                 ps: seq<Place>, buffer: seq<JBlock>, k: nat, x: nat)
    requires IsMcu(s, r, y, m) && j < |s.sel| && yindex < McuHeight(s, j) && x < McuWidth(s, j)
    requires k + McuWidth(s, j) <= |ps| == |buffer| && Distinct(ps) && RowAt(s, r, y, m, j, yindex, ps, k)
    requires McuShown(s, was, now, r, ps, buffer, k + x)
    ensures r * PlaneAt(s, j).v >= 0 && m * McuWidth(s, j) >= 0
    ensures var p := Place(s.sel[j], r * PlaneAt(s, j).v + y + yindex, m * McuWidth(s, j) + x);
            McuShown(s, was, if RealRow(s, r, y, yindex, j) && x < RealWidth(s, m, j) then now[p := buffer[k + x]] else now,
                     r, ps, buffer, k + x + 1)
  {
    ShowOne(s, was, now, r, ps, buffer, k + x);
    RealPlace(s, r, y, m, j, yindex, x);
    assert ps[k + x] == ps[k..k + McuWidth(s, j)][x];
  }

  class OnePassController {
    const s: BlockScan                      // the only scan
    const decode: Decoding
    var inputImcuRow: nat
    var outputImcuRow: nat
    var mcuCtr: nat
    var mcuVertOffset: nat
    var mcuRowsPerImcuRow: nat
    var input: seq<seq<Block>>
    var shown: map<Place, JBlock>           // what has been given to the inverse DCT for this iMCU row
    ghost var dct: Place -> Block

    constructor (s: BlockScan, decode: Decoding, input: seq<seq<Block>>, ghost dct: Place -> Block)
      requires input == AllMcus(s, dct)
      ensures this.s == s && this.decode == decode && this.dct == dct && Valid() && inputImcuRow == 0
    {
      this.s, this.decode, this.input, this.dct := s, decode, input, dct;
      inputImcuRow, outputImcuRow, mcuCtr, mcuVertOffset, mcuRowsPerImcuRow, shown := 0, 0, 0, 0, 0, map[];
      new;
      StartImcuRow();
      RowsAreSome(s, 0);
      NothingShown(s, dct, decode, 0);
    }

    /** start_iMCU_row */
    method StartImcuRow()
      requires inputImcuRow < s.f.total
      modifies this`mcuRowsPerImcuRow, this`mcuCtr, this`mcuVertOffset
      ensures mcuCtr == mcuVertOffset == 0 && mcuRowsPerImcuRow == RowsIn(s, inputImcuRow)
    {
      mcuRowsPerImcuRow := McuRowsPerImcuRow(s, inputImcuRow);
      mcuCtr, mcuVertOffset := 0, 0;
    }

    ghost predicate InRow(y: nat, m: nat)
      reads this
    {
      && inputImcuRow == outputImcuRow < s.f.total && mcuRowsPerImcuRow == RowsIn(s, inputImcuRow)
      && y <= mcuRowsPerImcuRow && m <= McusPerRow(s) && ShownBefore(s, dct, decode, shown, inputImcuRow, y, m)
      && AllMcus(s, dct) == McusBefore(s, dct, inputImcuRow, y, m) + input
    }

    ghost predicate Valid()
      reads this
    {
      if inputImcuRow < s.f.total then InRow(mcuVertOffset, mcuCtr) && mcuVertOffset < mcuRowsPerImcuRow && mcuCtr < McusPerRow(s)
      else inputImcuRow == outputImcuRow == s.f.total && input == []
    }

    /** decode_mcu into the zeroed MCU buffer. */
    method DecodeMcu() returns (buffer: seq<JBlock>)
      requires input != []
      modifies this`input
      ensures input == old(input)[1..] && |buffer| == |old(input)[0]|
      ensures forall i :: 0 <= i < |buffer| ==> buffer[i] == decode(old(input)[0][i], ZERO_BLOCK)
    {
      buffer := [];
      for i := 0 to |input[0]|
        invariant |buffer| == i && forall k :: 0 <= k < i ==> buffer[k] == decode(input[0][k], ZERO_BLOCK)
      {
        buffer := buffer + [decode(input[0][i], ZERO_BLOCK)];
      }
      input := input[1..];
    }

    /** The real blocks of the MCU go to the inverse DCT, each with its place; dummy blocks are skipped. */
    method ShowMcu(buffer: seq<JBlock>, yoffset: nat, col: nat)
      requires inputImcuRow < s.f.total && IsMcu(s, inputImcuRow, yoffset, col)
      requires |buffer| == |McuPlaces(s, inputImcuRow, yoffset, col)|
      modifies this`shown
      ensures McuShown(s, old(shown), shown, inputImcuRow, McuPlaces(s, inputImcuRow, yoffset, col), buffer, |buffer|)
    {
      ghost var ps := McuPlaces(s, inputImcuRow, yoffset, col);
      McuHas(s, inputImcuRow, yoffset, col, Place(0, 0, 0));
      var blkn := 0;
      for j := 0 to |s.sel|
        invariant blkn == |SomePlaces(s, inputImcuRow, yoffset, col, j)| <= |ps|
        invariant McuShown(s, old(shown), shown, inputImcuRow, ps, buffer, blkn)
      {
        blkn := ShowComponent(buffer, old(shown), yoffset, col, j, blkn);
      }
    }

    /** Component j's part of the MCU. */
    method ShowComponent(buffer: seq<JBlock>, ghost was: map<Place, JBlock>, yoffset: nat, col: nat, j: nat, blkn0: nat)
      returns (blkn: nat)
      requires inputImcuRow < s.f.total && IsMcu(s, inputImcuRow, yoffset, col) && j < |s.sel|
      requires |buffer| == |McuPlaces(s, inputImcuRow, yoffset, col)|
      requires blkn0 == |SomePlaces(s, inputImcuRow, yoffset, col, j)| <= |buffer|
      requires McuShown(s, was, shown, inputImcuRow, McuPlaces(s, inputImcuRow, yoffset, col), buffer, blkn0)
      modifies this`shown
      ensures blkn == |SomePlaces(s, inputImcuRow, yoffset, col, j + 1)| <= |buffer|
      ensures McuShown(s, was, shown, inputImcuRow, McuPlaces(s, inputImcuRow, yoffset, col), buffer, blkn)
    {
      ghost var ps := McuPlaces(s, inputImcuRow, yoffset, col);
      McuHas(s, inputImcuRow, yoffset, col, Place(0, 0, 0));
      var w := McuWidth(s, j);
      blkn := blkn0;
      ghost var r := inputImcuRow;
      for yindex := 0 to McuHeight(s, j)
        invariant blkn == blkn0 + yindex * w && blkn <= |ps| && inputImcuRow == r
        invariant McuShown(s, was, shown, r, ps, buffer, blkn)
      {
        RowInMcu(s, inputImcuRow, yoffset, col, j, yindex, blkn);
        ShowRow(buffer, was, ps, yoffset, col, j, yindex, blkn);
        assert (yindex + 1) * w == yindex * w + w;
        blkn := blkn + w;
      }
      ComponentLength(s, inputImcuRow, yoffset, col, j);
    }

    /** One row of component j's part of the MCU: blocks blkn and after of the buffer. */
    method ShowRow(buffer: seq<JBlock>, ghost was: map<Place, JBlock>, ghost ps: seq<Place>, yoffset: nat, col: nat, j: nat,
                   yindex: nat, blkn: nat)
      requires inputImcuRow < s.f.total && IsMcu(s, inputImcuRow, yoffset, col) && j < |s.sel| && yindex < McuHeight(s, j)
      requires |ps| == |buffer| && blkn + McuWidth(s, j) <= |ps| && Distinct(ps)
      requires RowAt(s, inputImcuRow, yoffset, col, j, yindex, ps, blkn)
      requires McuShown(s, was, shown, inputImcuRow, ps, buffer, blkn)
      modifies this`shown
      ensures McuShown(s, was, shown, inputImcuRow, ps, buffer, blkn + McuWidth(s, j))
    {
      var c, r := s.sel[j], inputImcuRow;
      Product(r, PlaneAt(s, j).v);
      Product(col, McuWidth(s, j));
      var row, startCol := r * PlaneAt(s, j).v + yoffset + yindex, col * McuWidth(s, j);
      var usefulWidth := RealWidth(s, col, j);
      var isReal := RealRow(s, r, yoffset, yindex, j);
      for xindex := 0 to McuWidth(s, j)
        invariant McuShown(s, was, shown, r, ps, buffer, blkn + xindex)
      {
        ShowNext(s, was, shown, r, yoffset, col, j, yindex, ps, buffer, blkn, xindex);
        if isReal && xindex < usefulWidth {
          shown := shown[Place(c, row, startCol + xindex) := buffer[blkn + xindex]];
        }
      }
    }

    method OneMcu(yoffset: nat, col: nat)
      requires InRow(yoffset, col) && yoffset < mcuRowsPerImcuRow && col < McusPerRow(s)
      modifies this`shown, this`input
      ensures InRow(yoffset, col + 1) && |input| == |old(input)| - 1
    {
      NextMcu(s, dct, inputImcuRow, yoffset, col, input);
      var buffer := DecodeMcu();
      ghost var was := shown;
      ShowMcu(buffer, yoffset, col);
      McuGiven(s, dct, decode, was, shown, buffer, inputImcuRow, yoffset, col);
    }

    method OneMcuRow(yoffset: nat, room: nat) returns (done: bool, left: nat)
      requires InRow(yoffset, mcuCtr) && yoffset < mcuRowsPerImcuRow && mcuCtr < McusPerRow(s)
      modifies this`shown, this`input, this`mcuCtr
      ensures |input| + room == |old(input)| + left && left <= room
      ensures if done then InRow(yoffset + 1, 0) else left == 0 && mcuCtr < McusPerRow(s) && InRow(yoffset, mcuCtr)
    {
      var col := mcuCtr;
      left := room;
      while col < McusPerRow(s)
        invariant InRow(yoffset, col) && |input| + room == |old(input)| + left && left <= room
      {
        if left == 0 {
          mcuCtr := col;
          return false, 0;
        }
        OneMcu(yoffset, col);
        left, col := left - 1, col + 1;
      }
      RowShown(s, dct, decode, shown, inputImcuRow, yoffset);
      done := true;
    }

    /** decompress_onepass: one iMCU row, unless the input is suspended, which happens only when all of the `room`
        MCUs at hand have been decoded; when the row is complete, exactly its real blocks have been given. */
    method DecompressOnepass(room: nat) returns (done: bool, row: map<Place, JBlock>)
      requires Valid() && inputImcuRow < s.f.total
      modifies this`shown, this`input, this`mcuCtr, this`mcuVertOffset, this`inputImcuRow, this`outputImcuRow,
               this`mcuRowsPerImcuRow
      ensures Valid() && inputImcuRow == old(inputImcuRow) + (if done then 1 else 0)
      ensures done ==> ImcuRowShown(s, dct, decode, row, old(inputImcuRow))
      ensures |input| <= |old(input)| && (!done ==> |input| + room == |old(input)|)
    {
      var yoffset: nat, left: nat := mcuVertOffset, room;
      done := true;
      while done && yoffset < mcuRowsPerImcuRow
        invariant inputImcuRow == old(inputImcuRow) && InRow(yoffset, mcuCtr)
        invariant |input| + room == |old(input)| + left && left <= room
        invariant mcuCtr < McusPerRow(s) && (yoffset == mcuRowsPerImcuRow ==> mcuCtr == 0)
        invariant !done ==> left == 0 && yoffset < mcuRowsPerImcuRow && mcuVertOffset == yoffset
        decreases done, mcuRowsPerImcuRow - yoffset
      {
        done, left := OneMcuRow(yoffset, left);
        if done {
          mcuCtr, yoffset := 0, yoffset + 1;
        } else {
          mcuVertOffset := yoffset;
        }
      }
      row := shown;
      if done {
        AllShown(s, dct, decode, shown, inputImcuRow);
        NextImcuRow();
      }
    }

    /** The whole scan: the rows that are complete, in order.  `rooms` says how many MCUs come to hand before
        each call. */
    method RunScan(rooms: seq<nat>) returns (rows: seq<map<Place, JBlock>>)
      requires Valid() && inputImcuRow == 0
      modifies this
      ensures Valid() && |rows| == inputImcuRow && |input| <= |old(input)|
      ensures dct == old(dct) && forall r :: 0 <= r < |rows| ==> ImcuRowShown(s, dct, decode, rows[r], r)
      ensures AllSome(rooms) ==> |rows| == s.f.total || |rows| + |old(input)| >= |rooms| + |input|
      ensures AllSome(rooms) && |rooms| >= s.f.total + |old(input)| ==> |rows| == s.f.total
    {
      rows := [];
      for i := 0 to |rooms|
        invariant Valid() && |rows| == inputImcuRow && |input| <= |old(input)| && dct == old(dct)
        invariant forall r :: 0 <= r < |rows| ==> ImcuRowShown(s, dct, decode, rows[r], r)
        invariant AllSome(rooms) ==> |rows| == s.f.total || |rows| + |old(input)| >= i + |input|
      {
        if inputImcuRow < s.f.total {
          var done, row := DecompressOnepass(rooms[i]);
          if done {
            rows := rows + [row];
          }
        }
      }
    }

    method NextImcuRow()
      requires InRow(mcuRowsPerImcuRow, 0)
      modifies this`shown, this`mcuCtr, this`mcuVertOffset, this`inputImcuRow, this`outputImcuRow, this`mcuRowsPerImcuRow
      ensures Valid() && inputImcuRow == old(inputImcuRow) + 1
    {
      outputImcuRow, inputImcuRow := outputImcuRow + 1, inputImcuRow + 1;
      shown := map[];
      if inputImcuRow < s.f.total {
        StartImcuRow();
        RowsAreSome(s, inputImcuRow);
        NothingShown(s, dct, decode, inputImcuRow);
      }
    }
  }

  // ------------------------------------------------------------------ the blocks of the MCU buffer

  lemma {:induction false} BoxLength(c: nat, row: nat, rows: nat, col: nat, n: nat)
    ensures |BoxPlaces(c, row, rows, col, n)| == rows * n
  {
    if rows != 0 {
      BoxLength(c, row, rows - 1, col, n);
      assert rows * n == (rows - 1) * n + n;
    }
  }

  lemma {:induction false} BoxPrefix(c: nat, row: nat, i: nat, rows: nat, col: nat, n: nat)
    requires i <= rows
    ensures BoxPlaces(c, row, i, col, n) <= BoxPlaces(c, row, rows, col, n)
    decreases rows - i
  {
    if i < rows {
      BoxPrefix(c, row, i, rows - 1, col, n);
    }
  }

  lemma {:induction false} SomePrefix(s: BlockScan, r: nat, y: nat, m: nat, j: nat, n: nat)
    requires j <= n <= |s.sel|
    ensures SomePlaces(s, r, y, m, j) <= SomePlaces(s, r, y, m, n)
    decreases n - j
  {
    if j < n {
      SomePrefix(s, r, y, m, j, n - 1);
    }
  }

  lemma ComponentLength(s: BlockScan, r: nat, y: nat, m: nat, j: nat)
    requires j < |s.sel|
    ensures |SomePlaces(s, r, y, m, j + 1)| == |SomePlaces(s, r, y, m, j)| + McuHeight(s, j) * McuWidth(s, j)
    ensures |SomePlaces(s, r, y, m, j + 1)| <= |McuPlaces(s, r, y, m)|
  {
    Product(r, PlaneAt(s, j).v);
    Product(m, McuWidth(s, j));
    BoxLength(s.sel[j], r * PlaneAt(s, j).v + y, McuHeight(s, j), m * McuWidth(s, j), McuWidth(s, j));
    SomePrefix(s, r, y, m, j + 1, |s.sel|);
  }

  /** The blocks from position k on are row yindex of component j's part of the MCU. */
  ghost predicate RowAt(s: BlockScan, r: nat, y: nat, m: nat, j: nat, yindex: nat, ps: seq<Place>, k: nat)
    requires j < |s.sel|
  {
    && k + McuWidth(s, j) <= |ps| && r * PlaneAt(s, j).v >= 0 && m * McuWidth(s, j) >= 0
    && ps[k..k + McuWidth(s, j)] == RowPlaces(s.sel[j], r * PlaneAt(s, j).v + y + yindex, m * McuWidth(s, j), McuWidth(s, j))
  }

  lemma RowInMcu(s: BlockScan, r: nat, y: nat, m: nat, j: nat, yindex: nat, k: nat)
    requires j < |s.sel| && yindex < McuHeight(s, j)
    requires k == |SomePlaces(s, r, y, m, j)| + yindex * McuWidth(s, j)
    ensures k + McuWidth(s, j) <= |McuPlaces(s, r, y, m)| && RowAt(s, r, y, m, j, yindex, McuPlaces(s, r, y, m), k)
  {
    var ps := McuPlaces(s, r, y, m);
    Product(r, PlaneAt(s, j).v);
    Product(m, McuWidth(s, j));
    var c, row, col, w := s.sel[j], r * PlaneAt(s, j).v + y, m * McuWidth(s, j), McuWidth(s, j);
    SomePrefix(s, r, y, m, j + 1, |s.sel|);
    BoxPrefix(c, row, yindex + 1, McuHeight(s, j), col, w);
    BoxLength(c, row, yindex, col, w);
    var some := SomePlaces(s, r, y, m, j);
    var part := some + BoxPlaces(c, row, yindex + 1, col, w);
    assert part <= SomePlaces(s, r, y, m, j + 1) <= ps;
    PartOf(ps, some, BoxPlaces(c, row, yindex, col, w), RowPlaces(c, row + yindex, col, w), k);
  }

  lemma PartOf(ps: seq<Place>, a: seq<Place>, b: seq<Place>, c: seq<Place>, k: nat)
    requires a + (b + c) <= ps && k == |a| + |b|
    ensures k + |c| <= |ps| && ps[k..k + |c|] == c
  {
    assert ps[k..k + |c|] == (a + (b + c))[k..k + |c|];
  }

  /** Which blocks of an MCU are real. */
  lemma RealPlace(s: BlockScan, r: nat, y: nat, m: nat, j: nat, yindex: nat, x: nat)
    requires IsMcu(s, r, y, m) && j < |s.sel| && yindex < McuHeight(s, j) && x < McuWidth(s, j)
    ensures r * PlaneAt(s, j).v >= 0 && m * McuWidth(s, j) >= 0
    ensures RealIn(s.f, r, Place(s.sel[j], r * PlaneAt(s, j).v + y + yindex, m * McuWidth(s, j) + x))
       <==> RealRow(s, r, y, yindex, j) && x < RealWidth(s, m, j)
  {
    RealWidthIs(s, m, j);
    RealRowIs(s, r, y, yindex, j);
    PartInBand(s, r, y, m, j, yindex);
  }
}
