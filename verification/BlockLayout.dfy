/** The blocks of an image and the MCUs of its scans: block counts (initial_setup and per_scan_setup of
    jcmaster.c and jdinput.c), and the order in which the coefficient controllers visit the blocks. */
module BlockLayout {
  import opened SizeArithmetic

  // ------------------------------------------------------------------ block counts

  /** jdiv_round_up */
  function CeilDiv(a: nat, b: nat): (q: nat)
    requires b >= 1
    ensures (q - 1) * b < a <= q * b
  {
    var q := (a + b - 1) / b;
    assert a + b - 1 == q * b + (a + b - 1) % b;
    assert (q - 1) * b == q * b - b;
    q
  }

  /** A component: its sampling factors and its size in blocks. */
  datatype Plane = Plane(h: nat, v: nat, width: nat, height: nat)

  /** The components, and the number of interleaved MCUs in each direction. */
  datatype Layout = Layout(planes: seq<Plane>, total: nat, across: nat)
  {
    predicate Ok() {
      && total >= 1 && across >= 1
      && forall c :: 0 <= c < |planes| ==> Fits(planes[c])
    }

    /** The last MCU in each direction holds some of the component's blocks, and no more than it has room for. */
    predicate Fits(p: Plane) {
      && p.h >= 1 && p.v >= 1
      && (across - 1) * p.h < p.width <= across * p.h
      && (total - 1) * p.v < p.height <= total * p.v
    }
  }

  type Frame = f: Layout | f.Ok() witness Layout([], 1, 1)

  /** initial_setup: the block counts for an image of this size. */
  function PlaneOf(width: nat, height: nat, block: nat, maxH: nat, maxV: nat, factors: (nat, nat)): Plane
    requires block >= 1 && maxH >= 1 && maxV >= 1
  {
    Product(maxH, block);
    Product(maxV, block);
    Plane(factors.0, factors.1, CeilDiv(width * factors.0, maxH * block), CeilDiv(height * factors.1, maxV * block))
  }

  function LayoutOf(width: nat, height: nat, block: nat, maxH: nat, maxV: nat, factors: seq<(nat, nat)>): (f: Layout)
    requires block >= 1 && maxH >= 1 && maxV >= 1
  {
    Product(maxH, block);
    Product(maxV, block);
    Layout(seq(|factors|, c requires 0 <= c < |factors| => PlaneOf(width, height, block, maxH, maxV, factors[c])),
           CeilDiv(height, maxV * block), CeilDiv(width, maxH * block))
  }

  /** ceil(size * factor / d) against ceil(size / d) * factor. */
  lemma CountFits(size: nat, factor: nat, d: nat)
    requires size >= 1 && factor >= 1 && d >= 1
    ensures var n, m := CeilDiv(size * factor, d), CeilDiv(size, d);
            n >= 1 && m >= 1 && (m - 1) * factor < n <= m * factor
  {
    var n, m := CeilDiv(size * factor, d), CeilDiv(size, d);
    Product(size, factor);
    assert n >= 1 && m >= 1;
    NotTooMany(n, m, size, factor, d);
    NotTooFew(n, m, size, factor, d);
  }

  lemma NotTooMany(n: nat, m: nat, size: nat, factor: nat, d: nat)
    requires (n - 1) * d < size * factor && size <= m * d && d >= 1
    ensures n <= m * factor
  {
    assert m * factor * d == m * d * factor;
    Scale(size, m * d, factor);
    if n - 1 >= m * factor {
      Scale(m * factor, n - 1, d);
      assert false;
    }
  }

  lemma NotTooFew(n: nat, m: nat, size: nat, factor: nat, d: nat)
    requires (m - 1) * d < size && size * factor <= n * d && d >= 1 && factor >= 1 && m >= 1
    ensures (m - 1) * factor < n
  {
    assert (m - 1) * factor * d == (m - 1) * d * factor;
    assert (size - 1) * factor == size * factor - factor;
    Scale((m - 1) * d, size - 1, factor);
    if n <= (m - 1) * factor {
      Scale(n, (m - 1) * factor, d);
      assert false;
    }
  }

  /** Every image has a layout in which the block counts fit, whatever its size and sampling factors. */
  lemma LayoutFits(width: nat, height: nat, block: nat, maxH: nat, maxV: nat, factors: seq<(nat, nat)>)
    requires width >= 1 && height >= 1 && block >= 1 && maxH >= 1 && maxV >= 1
    requires forall c :: 0 <= c < |factors| ==> 1 <= factors[c].0 && 1 <= factors[c].1
    ensures LayoutOf(width, height, block, maxH, maxV, factors).Ok()
  {
    var f := LayoutOf(width, height, block, maxH, maxV, factors);
    Product(maxH, block);
    Product(maxV, block);
    CountFits(height, 1, maxV * block);
    CountFits(width, 1, maxH * block);
    forall c | 0 <= c < |f.planes|
      ensures f.Fits(f.planes[c])
    {
      CountFits(width, factors[c].0, maxH * block);
      CountFits(height, factors[c].1, maxV * block);
    }
  }

  /** last_row_height or last_col_width by remainder. */
  function LastPart(size: nat, factor: nat): nat
    requires factor >= 1
  {
    if size % factor == 0 then factor else size % factor
  }

  /** All but the last part fills whole MCUs. */
  lemma LastPartIs(size: nat, factor: nat, n: nat)
    requires n >= 1 && factor >= 1 && (n - 1) * factor < size <= n * factor
    ensures LastPart(size, factor) == size - (n - 1) * factor && 1 <= LastPart(size, factor) <= factor
  {
    assert n * factor == (n - 1) * factor + factor;
    Product(n - 1, factor);
    Remainder(size, factor, n - 1, size - (n - 1) * factor);
  }

  // ------------------------------------------------------------------ scans

  /** The components of a scan, by their indices in the frame. */
  predicate GoodScan(f: Frame, sel: seq<nat>) {
    && |sel| >= 1 && (forall j :: 0 <= j < |sel| ==> sel[j] < |f.planes|)
    && forall i, j :: 0 <= i < j < |sel| ==> sel[i] != sel[j]
  }

  datatype ScanLayout = ScanLayout(f: Frame, sel: seq<nat>)
  {
    predicate Ok() {
      GoodScan(f, sel)
    }

    /** A scan of one component is not interleaved. */
    predicate Single() {
      |sel| == 1
    }
  }

  type BlockScan = s: ScanLayout | s.Ok() witness ScanLayout(Layout([Plane(1, 1, 1, 1)], 1, 1), [0])

  function PlaneAt(s: BlockScan, j: nat): Plane
    requires j < |s.sel|
  {
    s.f.planes[s.sel[j]]
  }

  /** MCU_width and MCU_height */
  function McuWidth(s: BlockScan, j: nat): nat
    requires j < |s.sel|
  {
    if s.Single() then 1 else PlaneAt(s, j).h
  }

  function McuHeight(s: BlockScan, j: nat): nat
    requires j < |s.sel|
  {
    if s.Single() then 1 else PlaneAt(s, j).v
  }

  /** MCUs_per_row */
  function McusPerRow(s: BlockScan): nat {
    if s.Single() then PlaneAt(s, 0).width else s.f.across
  }

  /** MCU_rows_per_iMCU_row for iMCU row r. */
  function RowsIn(s: BlockScan, r: nat): nat
    requires r < s.f.total
  {
    if !s.Single() then 1
    else if r < s.f.total - 1 then PlaneAt(s, 0).v
    else LastPart(PlaneAt(s, 0).height, PlaneAt(s, 0).v)
  }

  /** start_iMCU_row of each coefficient controller; the compressor calls it once more behind the last row. */
  method McuRowsPerImcuRow(s: BlockScan, r: nat) returns (n: nat)
    requires r <= s.f.total
    ensures r < s.f.total ==> n == RowsIn(s, r)
  {
    assert s.f.Fits(PlaneAt(s, 0));
    if |s.sel| > 1 {
      n := 1;
    } else {
      var c := s.f.planes[s.sel[0]];
      n := if r < s.f.total - 1 then c.v else LastPart(c.height, c.v);
    }
  }

  lemma RowsAreSome(s: BlockScan, r: nat)
    requires r < s.f.total
    ensures RowsIn(s, r) >= 1 && McusPerRow(s) >= 1
    ensures s.Single() ==> r * PlaneAt(s, 0).v + RowsIn(s, r)
                             == if r < s.f.total - 1 then (r + 1) * PlaneAt(s, 0).v else PlaneAt(s, 0).height
  {
    var p := PlaneAt(s, 0);
    assert s.f.Fits(p);
    LastPartIs(p.height, p.v, s.f.total);
    Product(s.f.across - 1, p.h);
    assert (r + 1) * p.v == r * p.v + p.v;
  }

  // ------------------------------------------------------------------ the blocks of an MCU

  /** A block of the padded array of component c of the frame. */
  datatype Place = Place(c: nat, row: nat, col: nat)

  function RowPlaces(c: nat, row: nat, col: nat, n: nat): (r: seq<Place>)
    ensures |r| == n
  {
    seq(n, x requires 0 <= x < n => Place(c, row, col + x))
  }

  function BoxPlaces(c: nat, row: nat, rows: nat, col: nat, n: nat): seq<Place> {
    if rows == 0 then [] else BoxPlaces(c, row, rows - 1, col, n) + RowPlaces(c, row + rows - 1, col, n)
  }

  /** The blocks of the first n components in the MCU of column m in MCU row y of iMCU row r. */
  function SomePlaces(s: BlockScan, r: nat, y: nat, m: nat, n: nat): seq<Place>
    requires n <= |s.sel|
  {
    if n == 0 then []
    else SomePlaces(s, r, y, m, n - 1)
         + BoxPlaces(s.sel[n - 1], r * PlaneAt(s, n - 1).v + y, McuHeight(s, n - 1), m * McuWidth(s, n - 1), McuWidth(s, n - 1))
  }

  function McuPlaces(s: BlockScan, r: nat, y: nat, m: nat): seq<Place> {
    SomePlaces(s, r, y, m, |s.sel|)
  }

  /** p is in component j's part of the MCU. */
  predicate InPart(s: BlockScan, r: nat, y: nat, m: nat, j: nat, p: Place)
    requires j < |s.sel|
  {
    && p.c == s.sel[j]
    && 0 <= p.row - (r * PlaneAt(s, j).v + y) < McuHeight(s, j)
    && 0 <= p.col - m * McuWidth(s, j) < McuWidth(s, j)
  }

  predicate InMcu(s: BlockScan, r: nat, y: nat, m: nat, p: Place) {
    exists j :: 0 <= j < |s.sel| && InPart(s, r, y, m, j, p)
  }

  ghost predicate Distinct(ps: seq<Place>) {
    forall i, j :: 0 <= i < j < |ps| ==> ps[i] != ps[j]
  }

  lemma {:induction false} BoxHas(c: nat, row: nat, rows: nat, col: nat, n: nat, p: Place)
    ensures p in BoxPlaces(c, row, rows, col, n) <==> p.c == c && 0 <= p.row - row < rows && 0 <= p.col - col < n
  {
    if rows != 0 {
      BoxHas(c, row, rows - 1, col, n, p);
      var last := RowPlaces(c, row + rows - 1, col, n);
      if p.c == c && p.row == row + rows - 1 && 0 <= p.col - col < n {
        assert last[p.col - col] == p;
      }
    }
  }

  lemma {:induction false} BoxDistinct(c: nat, row: nat, rows: nat, col: nat, n: nat)
    ensures Distinct(BoxPlaces(c, row, rows, col, n))
  {
    if rows != 0 {
      BoxDistinct(c, row, rows - 1, col, n);
      var a, b := BoxPlaces(c, row, rows - 1, col, n), RowPlaces(c, row + rows - 1, col, n);
      forall i | 0 <= i < |a|
        ensures a[i].row < row + rows - 1
      {
        BoxHas(c, row, rows - 1, col, n, a[i]);
      }
      assert Distinct(b);
    }
  }

  lemma {:induction false} SomeHas(s: BlockScan, r: nat, y: nat, m: nat, n: nat, p: Place)
    requires n <= |s.sel|
    ensures p in SomePlaces(s, r, y, m, n) <==> exists j :: 0 <= j < n && InPart(s, r, y, m, j, p)
  {
    if n != 0 {
      SomeHas(s, r, y, m, n - 1, p);
      BoxHas(s.sel[n - 1], r * PlaneAt(s, n - 1).v + y, McuHeight(s, n - 1), m * McuWidth(s, n - 1), McuWidth(s, n - 1), p);
      if p in SomePlaces(s, r, y, m, n) && p !in SomePlaces(s, r, y, m, n - 1) {
        assert InPart(s, r, y, m, n - 1, p);
      }
    }
  }

  lemma {:induction false} SomeDistinct(s: BlockScan, r: nat, y: nat, m: nat, n: nat)
    requires n <= |s.sel|
    ensures Distinct(SomePlaces(s, r, y, m, n))
  {
    if n != 0 {
      SomeDistinct(s, r, y, m, n - 1);
      var row, rows, col, w := r * PlaneAt(s, n - 1).v + y, McuHeight(s, n - 1), m * McuWidth(s, n - 1), McuWidth(s, n - 1);
      BoxDistinct(s.sel[n - 1], row, rows, col, w);
      var a, b := SomePlaces(s, r, y, m, n - 1), BoxPlaces(s.sel[n - 1], row, rows, col, w);
      forall i, j | 0 <= i < |a| && 0 <= j < |b|
        ensures a[i] != b[j]
      {
        SomeHas(s, r, y, m, n - 1, a[i]);
        BoxHas(s.sel[n - 1], row, rows, col, w, b[j]);
      }
    }
  }

  /** The blocks of an MCU are those of its boxes, and none occurs twice. */
  lemma McuHas(s: BlockScan, r: nat, y: nat, m: nat, p: Place)
    ensures p in McuPlaces(s, r, y, m) <==> InMcu(s, r, y, m, p)
    ensures Distinct(McuPlaces(s, r, y, m))
  {
    SomeHas(s, r, y, m, |s.sel|, p);
    SomeDistinct(s, r, y, m, |s.sel|);
  }

  // ------------------------------------------------------------------ the order of the MCUs

  /** A scan covers the padded arrays of its components, or the blocks of its one component. */
  predicate CoveredIn(s: BlockScan, j: nat, p: Place)
    requires j < |s.sel|
  {
    var c := PlaneAt(s, j);
    && p.c == s.sel[j]
    && if s.Single() then p.row < c.height && p.col < c.width else p.row < s.f.total * c.v && p.col < s.f.across * c.h
  }

  predicate Covered(s: BlockScan, p: Place) {
    exists j :: 0 <= j < |s.sel| && CoveredIn(s, j, p)
  }

  /** The block belongs to an MCU before column m of MCU row y of iMCU row r. */
  predicate EarlierIn(s: BlockScan, r: nat, y: nat, m: nat, j: nat, p: Place)
    requires j < |s.sel|
  {
    var c := PlaneAt(s, j);
    if s.Single() then p.row < r * c.v + y || (p.row == r * c.v + y && p.col < m)
    else p.row < (r + y) * c.v || (p.row < (r + y) * c.v + c.v && p.col < m * c.h)
  }

  predicate VisitedIn(s: BlockScan, r: nat, y: nat, m: nat, j: nat, p: Place)
    requires j < |s.sel|
  {
    CoveredIn(s, j, p) && EarlierIn(s, r, y, m, j, p)
  }

  predicate Visited(s: BlockScan, r: nat, y: nat, m: nat, p: Place) {
    exists j :: 0 <= j < |s.sel| && VisitedIn(s, r, y, m, j, p)
  }

  predicate IsMcu(s: BlockScan, r: nat, y: nat, m: nat) {
    r < s.f.total && y < RowsIn(s, r) && m < McusPerRow(s)
  }

  /** The MCU rows of iMCU row r lie inside the component. */
  lemma RowInside(s: BlockScan, r: nat, y: nat, j: nat)
    requires r < s.f.total && y < RowsIn(s, r) && j < |s.sel|
    ensures var c := PlaneAt(s, j);
            && (r + 1) * c.v == r * c.v + c.v <= s.f.total * c.v
            && (s.Single() ==> r * c.v + y < c.height)
  {
    var c := PlaneAt(s, j);
    assert s.f.Fits(c);
    assert (r + 1) * c.v == r * c.v + c.v;
    assert (s.f.total - 1 - r) * c.v == s.f.total * c.v - c.v - r * c.v;
    Product(s.f.total - 1 - r, c.v);
    if s.Single() {
      RowsAreSome(s, r);
      if r < s.f.total - 1 {
        Product(s.f.total - 2 - r, c.v);
        assert (s.f.total - 2 - r) * c.v == (s.f.total - 1) * c.v - (r + 1) * c.v;
      }
    }
  }

  lemma ColumnInside(s: BlockScan, m: nat, j: nat)
    requires !s.Single() && m < s.f.across && j < |s.sel|
    ensures var c := PlaneAt(s, j); (m + 1) * c.h == m * c.h + c.h <= s.f.across * c.h
  {
    var c := PlaneAt(s, j);
    assert (m + 1) * c.h == m * c.h + c.h;
    assert (s.f.across - 1 - m) * c.h == s.f.across * c.h - c.h - m * c.h;
    Product(s.f.across - 1 - m, c.h);
  }

  lemma StepIn(s: BlockScan, r: nat, y: nat, m: nat, j: nat, p: Place)
    requires IsMcu(s, r, y, m) && j < |s.sel|
    ensures VisitedIn(s, r, y, m + 1, j, p) <==> VisitedIn(s, r, y, m, j, p) || InPart(s, r, y, m, j, p)
    ensures !(VisitedIn(s, r, y, m, j, p) && InPart(s, r, y, m, j, p))
  {
    RowInside(s, r, y, j);
    if !s.Single() {
      ColumnInside(s, m, j);
    }
  }

  /** The real blocks in each row of component j's part of an MCU of column m. */
  function RealWidth(s: BlockScan, m: nat, j: nat): nat
    requires j < |s.sel|
  {
    assert s.f.Fits(PlaneAt(s, j));
    if m < McusPerRow(s) - 1 then McuWidth(s, j)
    else if s.Single() then 1 else LastPart(PlaneAt(s, j).width, PlaneAt(s, j).h)
  }

  lemma RealWidthIs(s: BlockScan, m: nat, j: nat)
    requires m < McusPerRow(s) && j < |s.sel|
    ensures var w, col := McuWidth(s, j), m * McuWidth(s, j);
            && 1 <= RealWidth(s, m, j) <= w && col + RealWidth(s, m, j) <= PlaneAt(s, j).width
            && (RealWidth(s, m, j) < w ==> col + RealWidth(s, m, j) == PlaneAt(s, j).width)
  {
    var c := PlaneAt(s, j);
    assert s.f.Fits(c);
    if !s.Single() {
      LastPartIs(c.width, c.h, s.f.across);
      if m < s.f.across - 1 {
        Scale(m + 1, s.f.across - 1, c.h);
        assert (m + 1) * c.h == m * c.h + c.h;
      }
    }
  }

  /** Whether row yindex of component j's part of an MCU is real. */
  predicate RealRow(s: BlockScan, r: nat, y: nat, yindex: nat, j: nat)
    requires j < |s.sel|
  {
    assert s.f.Fits(PlaneAt(s, j));
    r < s.f.total - 1 || y + yindex < LastPart(PlaneAt(s, j).height, PlaneAt(s, j).v)
  }

  lemma RealRowIs(s: BlockScan, r: nat, y: nat, yindex: nat, j: nat)
    requires r < s.f.total && y < RowsIn(s, r) && j < |s.sel| && yindex < McuHeight(s, j)
    ensures RealRow(s, r, y, yindex, j) <==> r * PlaneAt(s, j).v + y + yindex < PlaneAt(s, j).height
    ensures yindex == 0 || s.Single() ==> RealRow(s, r, y, yindex, j)
  {
    var c := PlaneAt(s, j);
    assert s.f.Fits(c);
    LastPartIs(c.height, c.v, s.f.total);
    RowInside(s, r, y, j);
    if r < s.f.total - 1 {
      Scale(r + 1, s.f.total - 1, c.v);
    }
  }

  /** The next MCU holds exactly the blocks that are visited with it, and none that has been visited. */
  lemma StepMcu(s: BlockScan, r: nat, y: nat, m: nat, p: Place)
    requires IsMcu(s, r, y, m)
    ensures Visited(s, r, y, m + 1, p) <==> Visited(s, r, y, m, p) || InMcu(s, r, y, m, p)
    ensures !(Visited(s, r, y, m, p) && InMcu(s, r, y, m, p))
  {
    if j: nat :| j < |s.sel| && s.sel[j] == p.c {
      OnlyComponent(s, r, y, m, j, p);
      OnlyComponent(s, r, y, m + 1, j, p);
      StepIn(s, r, y, m, j, p);
    } else {
      assert !Visited(s, r, y, m, p) && !InMcu(s, r, y, m, p) && !Visited(s, r, y, m + 1, p);
    }
  }

  /** Only the component of the block matters. */
  lemma OnlyComponent(s: BlockScan, r: nat, y: nat, m: nat, j: nat, p: Place)
    requires j < |s.sel| && s.sel[j] == p.c
    ensures Visited(s, r, y, m, p) <==> VisitedIn(s, r, y, m, j, p)
    ensures InMcu(s, r, y, m, p) <==> InPart(s, r, y, m, j, p)
  {
    if i :| 0 <= i < |s.sel| && VisitedIn(s, r, y, m, i, p) {
      assert i == j;
    }
    if i :| 0 <= i < |s.sel| && InPart(s, r, y, m, i, p) {
      assert i == j;
    }
  }

  lemma StepRow(s: BlockScan, r: nat, y: nat, p: Place)
    requires r < s.f.total && y < RowsIn(s, r)
    ensures Visited(s, r, y, McusPerRow(s), p) <==> Visited(s, r, y + 1, 0, p)
  {
    if j: nat :| j < |s.sel| && s.sel[j] == p.c {
      OnlyComponent(s, r, y, McusPerRow(s), j, p);
      OnlyComponent(s, r, y + 1, 0, j, p);
      assert (r + y + 1) * PlaneAt(s, j).v == (r + y) * PlaneAt(s, j).v + PlaneAt(s, j).v;
    } else {
      assert !Visited(s, r, y, McusPerRow(s), p) && !Visited(s, r, y + 1, 0, p);
    }
  }

  lemma StepImcuRow(s: BlockScan, r: nat, p: Place)
    requires r < s.f.total
    ensures Visited(s, r, RowsIn(s, r), 0, p) <==> Visited(s, r + 1, 0, 0, p)
  {
    RowsAreSome(s, r);
    if j: nat :| j < |s.sel| && s.sel[j] == p.c {
      OnlyComponent(s, r, RowsIn(s, r), 0, j, p);
      OnlyComponent(s, r + 1, 0, 0, j, p);
      assert (r + 1) * PlaneAt(s, j).v == r * PlaneAt(s, j).v + PlaneAt(s, j).v;
    } else {
      assert !Visited(s, r, RowsIn(s, r), 0, p) && !Visited(s, r + 1, 0, 0, p);
    }
  }

  lemma VisitsEnd(s: BlockScan, p: Place)
    ensures !Visited(s, 0, 0, 0, p)
    ensures Visited(s, s.f.total, 0, 0, p) <==> Covered(s, p)
  {
    forall j | 0 <= j < |s.sel|
      ensures !VisitedIn(s, 0, 0, 0, j, p) && (VisitedIn(s, s.f.total, 0, 0, j, p) <==> CoveredIn(s, j, p))
    {
      assert s.f.Fits(PlaneAt(s, j));
    }
  }

  /** All blocks of the MCUs before column m of MCU row y of iMCU row r, in order. */
  function Visits(s: BlockScan, r: nat, y: nat, m: nat): seq<Place>
    requires r <= s.f.total && (r < s.f.total || y == m == 0)
    decreases r, y, m
  {
    if m > 0 then Visits(s, r, y, m - 1) + McuPlaces(s, r, y, m - 1)
    else if y > 0 then Visits(s, r, y - 1, McusPerRow(s))
    else if r > 0 then Visits(s, r - 1, RowsIn(s, r - 1), 0)
    else []
  }

  lemma {:induction false} VisitsAre(s: BlockScan, r: nat, y: nat, m: nat)
    requires r <= s.f.total && (r < s.f.total || y == m == 0)
    requires r < s.f.total ==> y <= RowsIn(s, r) && m <= McusPerRow(s) && (y == RowsIn(s, r) ==> m == 0)
    ensures Distinct(Visits(s, r, y, m)) && forall p: Place :: p in Visits(s, r, y, m) <==> Visited(s, r, y, m, p)
    decreases r, y, m
  {
    if m > 0 {
      VisitsAre(s, r, y, m - 1);
      var a, b := Visits(s, r, y, m - 1), McuPlaces(s, r, y, m - 1);
      forall p: Place
        ensures p in a + b <==> Visited(s, r, y, m, p)
        ensures !(p in a && p in b)
      {
        McuHas(s, r, y, m - 1, p);
        StepMcu(s, r, y, m - 1, p);
      }
      McuHas(s, r, y, m - 1, Place(0, 0, 0));
      JoinDistinct(a, b);
    } else if y > 0 {
      VisitsAre(s, r, y - 1, McusPerRow(s));
      forall p: Place
        ensures Visited(s, r, y - 1, McusPerRow(s), p) <==> Visited(s, r, y, 0, p)
      {
        StepRow(s, r, y - 1, p);
      }
    } else if r > 0 {
      VisitsAre(s, r - 1, RowsIn(s, r - 1), 0);
      forall p: Place
        ensures Visited(s, r - 1, RowsIn(s, r - 1), 0, p) <==> Visited(s, r, 0, 0, p)
      {
        StepImcuRow(s, r - 1, p);
      }
    } else {
      forall p: Place
        ensures !Visited(s, 0, 0, 0, p)
      {
        VisitsEnd(s, p);
      }
    }
  }

  lemma JoinDistinct(a: seq<Place>, b: seq<Place>)
    requires Distinct(a) && Distinct(b) && forall p: Place :: !(p in a && p in b)
    ensures Distinct(a + b)
  {
    forall i, j | 0 <= i < |a| && 0 <= j < |b|
      ensures a[i] != b[j]
    {
      assert a[i] in a && b[j] in b;
    }
  }

  /** Main result: a scan visits each block that it covers exactly once, and no other; it covers every block
      of its components. */
  lemma EachBlockOnce(s: BlockScan)
    ensures Distinct(Visits(s, s.f.total, 0, 0))
    ensures forall p: Place :: p in Visits(s, s.f.total, 0, 0) <==> Covered(s, p)
    ensures forall j, p: Place :: 0 <= j < |s.sel| && p.c == s.sel[j] && p.row < PlaneAt(s, j).height && p.col < PlaneAt(s, j).width
              ==> Covered(s, p)
  {
    VisitsAre(s, s.f.total, 0, 0);
    forall p: Place
      ensures p in Visits(s, s.f.total, 0, 0) <==> Covered(s, p)
    {
      VisitsEnd(s, p);
    }
    forall j, p: Place | 0 <= j < |s.sel| && p.c == s.sel[j] && p.row < PlaneAt(s, j).height && p.col < PlaneAt(s, j).width
      ensures Covered(s, p)
    {
      assert s.f.Fits(PlaneAt(s, j));
      assert CoveredIn(s, j, p);
    }
  }
}
