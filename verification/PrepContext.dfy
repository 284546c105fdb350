/** The context case of the compressor's preprocessing controller (jcprepct.c): a ring of three row groups,
    seen through a list of row addresses that wraps around at both ends, gives the downsampler one row
    group above and below the one it works on. */
module PrepContext {
  import opened ImageRows

  /** Each row group has been handed over with those above and below it. */
  ghost predicate AllTrue(v: nat, height: nat, handed: seq<seq<int>>) {
    forall j :: 0 <= j < |handed| ==> Neighbourhood(height, handed[j], v, (j - 1) * v)
  }

  /** The ring row behind entry x of the list. */
  function RingRow(v: nat, x: int): int {
    if x < 0 then x + 3 * v else if x < 3 * v then x else x - 3 * v
  }

  /** The image row last stored in ring row y, when row p comes next, into ring row a. */
  function StoredRow(v: nat, p: nat, a: nat, y: int): int {
    if y < a then p - a + y else p - a + y - 3 * v
  }

  /** Every ring row that has been stored, or set at the top of the image, holds its image row; rows behind
      the bottom hold the last one. */
  ghost predicate RingHolds(v: nat, height: nat, ring: seq<int>, p: nat, a: nat) {
    && |ring| == 3 * v && a <= 3 * v
    && (p > 0 ==>
          forall y :: 0 <= y < |ring| && StoredRow(v, p, a, y) >= 0 - v ==> ring[y] == Clamped(height, StoredRow(v, p, a, y)))
  }

  /** Storing `count` more rows at a and after. */
  lemma StoreKeeps(v: nat, height: nat, ring: seq<int>, next: seq<int>, p: nat, a: nat, count: nat)
    requires RingHolds(v, height, ring, p, a) && p > 0 && a + count <= 3 * v && |next| == |ring|
    requires forall y :: 0 <= y < |ring| ==> next[y] == if a <= y < a + count then Clamped(height, p + y - a) else ring[y]
    ensures RingHolds(v, height, next, p + count, a + count)
  {
  }

  /** The row before the next one is the last row of the image once all have been stored. */
  lemma LastStored(v: nat, height: nat, ring: seq<int>, p: nat, a: nat)
    requires RingHolds(v, height, ring, p, a) && p >= height >= 1 && v >= 1
    ensures ring[if a == 0 then 3 * v - 1 else a - 1] == height - 1
  {
    var y := if a == 0 then 3 * v - 1 else a - 1;
    assert StoredRow(v, p, a, y) == p - 1;
  }

  /** Storing copies of the row before instead, when the image has ended. */
  lemma PaddingKeeps(v: nat, height: nat, ring: seq<int>, p: nat, a: nat, end: nat)
    requires RingHolds(v, height, ring, p, a) && p >= height >= 1 && v >= 1 && a <= end <= 3 * v
    ensures RingHolds(v, height, Padded(v, ring, a, end), p + end - a, end)
  {
    LastStored(v, height, ring, p, a);
    StoreKeeps(v, height, ring, Padded(v, ring, a, end), p, a, end - a);
  }

  /** The ring with rows a to `end` replaced by copies of the row before a. */
  function Padded(v: nat, ring: seq<int>, a: nat, end: nat): (r: seq<int>)
    requires |ring| == 3 * v && v >= 1 && a <= 3 * v
    ensures |r| == |ring|
  {
    seq(|ring|, y requires 0 <= y < |ring| =>
      if !(a <= y < end) then ring[y] else ring[if a == 0 then 3 * v - 1 else a - 1])
  }

  /** The first rows of the image, and the row group above them. */
  lemma FirstRows(v: nat, height: nat, ring: seq<int>, count: nat)
    requires |ring| == 3 * v && 1 <= count <= 2 * v && count <= height
    requires forall y :: 0 <= y < count ==> ring[y] == y
    requires forall y :: 2 * v <= y < 3 * v ==> ring[y] == 0
    ensures RingHolds(v, height, ring, count, count)
  {
  }

  /** Going around the ring. */
  lemma Around(v: nat, height: nat, ring: seq<int>, p: nat)
    requires RingHolds(v, height, ring, p, 3 * v)
    ensures RingHolds(v, height, ring, p, 0)
  {
  }

  /** The rows that the list shows around entry `at`. */
  function Window(v: nat, ring: seq<int>, list: seq<nat>, at: nat): (rows: seq<int>)
    requires |ring| == 3 * v && |list| == 5 * v && at + 3 * v <= |list|
    requires forall x :: 0 <= x < |list| ==> list[x] < |ring|
    ensures |rows| == 3 * v
  {
    seq(3 * v, i requires 0 <= i < 3 * v => ring[list[at + i]])
  }

  /** Position x of the list is its entry x - v. */
  ghost predicate ListReady(v: nat, list: seq<nat>) {
    |list| == 5 * v && forall x :: 0 <= x < |list| ==> list[x] == RingRow(v, x - v)
  }

  /** Row p is the first behind the row group below row group j. */
  predicate IsEnd(v: nat, j: nat, p: nat) {
    p == (j + 2) * v
  }

  /** Where the row group to downsample begins when the ring is filled up to a. */
  function GroupStart(v: nat, stop: nat): int {
    if stop == v then 2 * v else stop - 2 * v
  }

  lemma WindowIsTrue(v: nat, height: nat, ring: seq<int>, list: seq<nat>, j: nat, p: nat, stop: nat)
    requires v >= 1 && (stop == v || stop == 2 * v || stop == 3 * v)
    requires ListReady(v, list) && RingHolds(v, height, ring, p, stop) && IsEnd(v, j, p)
    ensures Neighbourhood(height, Window(v, ring, list, GroupStart(v, stop)), v, (j - 1) * v) && IsEnd(v, j + 1, p + v)
  {
    var at := GroupStart(v, stop);
    assert (j + 3) * v == p + v;
    assert (j - 1) * v == p - 3 * v && p >= 2 * v;
    var rows := Window(v, ring, list, at);
    forall i | 0 <= i < |rows|
      ensures rows[i] == Clamped(height, p - 3 * v + i)
    {
      var y := RingRow(v, at + i - v);
      assert list[at + i] == y;
      assert StoredRow(v, p, stop, y) == p - 3 * v + i;
    }
  }

  class PrepController {
    const v: nat                    // max_v_samp_factor
    const height: nat               // image_height
    const trueBuffer: array<int>    // a row is represented by its number in the image
    const colorBuf: array<nat>      // the list of row addresses
    var rowsToGo: nat
    var nextBufRow: nat
    var thisRowGroup: nat
    var nextBufStop: nat
    ghost var stored: nat           // rows stored, padding included
    ghost var handed: seq<seq<int>> // the rows shown with each row group downsampled

    /** jinit_c_prep_controller, create_context_buffer and start_pass_prep */
    constructor (v: nat, height: nat)
      requires v >= 1 && height >= 1
      ensures Valid() && fresh(trueBuffer) && fresh(colorBuf) && this.v == v && this.height == height
      ensures rowsToGo == height && handed == []
    {
      this.v, this.height := v, height;
      trueBuffer, colorBuf := new int[3 * v](_ => -1), new nat[5 * v](_ => 0);
      rowsToGo, nextBufRow, thisRowGroup, nextBufStop := height, 0, 0, 2 * v;
      stored, handed := 0, [];
      new;
      CreateList();
    }

    /** create_context_buffer */
    method CreateList()
      requires colorBuf.Length == 5 * v
      modifies colorBuf
      ensures ListReady(v, colorBuf[..])
    {
      for i := 0 to 3 * v
        invariant forall x :: v <= x < v + i ==> colorBuf[x] == x - v
      {
        colorBuf[v + i] := i;
      }
      for i := 0 to v
        invariant forall x :: v <= x < 4 * v ==> colorBuf[x] == x - v
        invariant forall x :: 0 <= x < i ==> colorBuf[x] == 2 * v + x
        invariant forall x :: 4 * v <= x < 4 * v + i ==> colorBuf[x] == x - 4 * v
      {
        colorBuf[i], colorBuf[4 * v + i] := 2 * v + i, i;
      }
    }

    ghost predicate Valid()
      reads this, trueBuffer, colorBuf
    {
      Filling() && nextBufRow < nextBufStop
    }

    ghost predicate Filling()
      reads this, trueBuffer, colorBuf
    {
      && v >= 1 && height >= 1 && rowsToGo <= height && trueBuffer.Length == 3 * v && ListReady(v, colorBuf[..])
      && (nextBufStop == v || nextBufStop == 2 * v || nextBufStop == 3 * v) && thisRowGroup == GroupStart(v, nextBufStop)
      && nextBufRow <= nextBufStop && IsEnd(v, |handed|, stored + nextBufStop - nextBufRow)
      && (if rowsToGo == 0 then stored >= height else stored == height - rowsToGo)
      && (stored == 0 ==> nextBufRow == 0) && (if |handed| == 0 then nextBufStop == 2 * v else nextBufStop <= nextBufRow + v)
      && RingHolds(v, height, trueBuffer[..], stored, nextBufRow) && AllTrue(v, height, handed)
    }

    /** color_convert, as far as this controller sees it: it stores the next rows of the image. */
    method ColorConvert(at: nat, count: nat, first: int)
      requires ListReady(v, colorBuf[..]) && trueBuffer.Length == 3 * v && at + count <= 3 * v
      modifies trueBuffer
      ensures forall y :: 0 <= y < trueBuffer.Length ==>
        trueBuffer[y] == if at <= y < at + count then first + y - at else old(trueBuffer[y])
    {
      for i := 0 to count
        invariant forall y :: 0 <= y < trueBuffer.Length ==>
          trueBuffer[y] == if at <= y < at + i then first + y - at else old(trueBuffer[y])
      {
        assert colorBuf[at + i + v] == at + i;
        trueBuffer[colorBuf[at + i + v]] := first + i;
      }
    }

    /** expand_bottom_edge on the ring: rows from `at` to `end` become copies of the one before. */
    method ExpandBottomEdge(at: nat, end: nat)
      requires ListReady(v, colorBuf[..]) && v >= 1 && trueBuffer.Length == 3 * v && at <= end <= 3 * v
      requires at == 0 ==> end < 3 * v
      modifies trueBuffer
      ensures trueBuffer[..] == Padded(v, old(trueBuffer[..]), at, end)
    {
      var from := if at == 0 then 3 * v - 1 else at - 1;
      assert colorBuf[at - 1 + v] == from;
      for row := at to end
        invariant forall y :: 0 <= y < trueBuffer.Length ==>
          trueBuffer[y] == old(trueBuffer[if at <= y < row then from else y])
      {
        assert colorBuf[row + v] == row;
        trueBuffer[colorBuf[row + v]] := trueBuffer[colorBuf[at - 1 + v]];
      }
    }

    /** Padding at the top of the image. */
    method PadTop(ghost count: nat)
      requires ListReady(v, colorBuf[..]) && v >= 1 && trueBuffer.Length == 3 * v && 1 <= count <= 2 * v
      requires forall y :: 0 <= y < count ==> trueBuffer[y] == y
      modifies trueBuffer
      ensures forall y :: 0 <= y < count ==> trueBuffer[y] == y
      ensures forall y :: 2 * v <= y < 3 * v ==> trueBuffer[y] == 0
    {
      for row := 1 to v + 1
        invariant forall y :: 0 <= y < count ==> trueBuffer[y] == y
        invariant forall y :: 3 * v - row < y < 3 * v ==> trueBuffer[y] == 0
      {
        assert colorBuf[v] == 0 && colorBuf[v - row] == 3 * v - row;
        trueBuffer[colorBuf[v - row]] := trueBuffer[colorBuf[v]];
      }
    }

    /** The next rows are stored, and at the top the row group above the first. */
    method ConvertRows(count: nat)
      requires Valid() && 1 <= count <= rowsToGo && count <= nextBufStop - nextBufRow
      modifies trueBuffer
      ensures RingHolds(v, height, trueBuffer[..], stored + count, nextBufRow + count)
    {
      ghost var ring := trueBuffer[..];
      ColorConvert(nextBufRow, count, height - rowsToGo);
      if rowsToGo == height {
        PadTop(count);
        FirstRows(v, height, trueBuffer[..], count);
      } else {
        StoreKeeps(v, height, ring, trueBuffer[..], stored, nextBufRow, count);
      }
    }

    /** The body of the loop of pre_process_context that stores rows of the image. */
    method StoreRows(count: nat)
      requires Valid() && 1 <= count <= rowsToGo && count <= nextBufStop - nextBufRow
      modifies this`rowsToGo, this`nextBufRow, this`stored, trueBuffer
      ensures Filling() && rowsToGo == old(rowsToGo) - count
    {
      ConvertRows(count);
      nextBufRow, rowsToGo, stored := nextBufRow + count, rowsToGo - count, stored + count;
    }

    /** The part that pads the ring when the image has been read. */
    method PadBottom()
      requires Valid() && rowsToGo == 0
      modifies this`nextBufRow, this`stored, trueBuffer
      ensures Filling() && nextBufRow == nextBufStop
    {
      ghost var ring := trueBuffer[..];
      ExpandBottomEdge(nextBufRow, nextBufStop);
      PaddingKeeps(v, height, ring, stored, nextBufRow, nextBufStop);
      stored, nextBufRow := stored + nextBufStop - nextBufRow, nextBufStop;
    }

    /** Downsampling of a row group, as far as this controller sees it. */
    method Downsample()
      requires Filling() && nextBufRow == nextBufStop
      modifies this`handed, this`thisRowGroup, this`nextBufRow, this`nextBufStop
      ensures Valid() && old(handed) <= handed && |handed| == |old(handed)| + 1
    {
      WindowIsTrue(v, height, trueBuffer[..], colorBuf[..], |handed|, stored, nextBufStop);
      handed := handed + [Window(v, trueBuffer[..], colorBuf[..], thisRowGroup)];
      thisRowGroup := thisRowGroup + v;
      if thisRowGroup >= 3 * v {
        thisRowGroup := 0;
      }
      if nextBufRow >= 3 * v {
        Around(v, height, trueBuffer[..], stored);
        nextBufRow := 0;
      }
      nextBufStop := nextBufRow + v;
    }

    /** pre_process_context. `rows` rows of the image are given and `groups` row groups wanted. */
    method PreProcessContext(rows: nat, groups: nat) returns (used: nat, made: nat)
      requires Valid() && rows <= rowsToGo
      modifies this, trueBuffer
      ensures Valid() && used <= rows && made <= groups && rowsToGo == old(rowsToGo) - used
      ensures old(handed) <= handed && |handed| == |old(handed)| + made
      ensures made < groups ==> used == rows && rowsToGo > 0
    {
      used, made := 0, 0;
      while made < groups
        invariant Valid() && used <= rows && made <= groups && rowsToGo == old(rowsToGo) - used
        invariant old(handed) <= handed && |handed| == |old(handed)| + made
        decreases groups - made, rows - used
      {
        if used < rows {
          var count := if nextBufStop - nextBufRow <= rows - used then nextBufStop - nextBufRow else rows - used;
          StoreRows(count);
          used := used + count;
        } else {
          if rowsToGo != 0 {
            break;
          }
          PadBottom();
        }
        if nextBufRow == nextBufStop {
          Downsample();
          made := made + 1;
        }
      }
    }
  }
}
