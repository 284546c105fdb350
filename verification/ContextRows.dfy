/** The context case of the decompressor's main buffer controller (jdmainct.c): two permuted lists of
    row addresses let the upsampler see one row group above and below each row group without copying. */
module ContextRows {
  import opened ImageRows
  import opened SizeArithmetic

  /** The sizes of a component: rg sample rows make a row group, n of them (m row groups) an iMCU row;
      the image has `total` iMCU rows and `height` sample rows, and the coefficient controller writes
      `written` sample rows of the last iMCU row (its dummy block rows are not written). */
  datatype Sizes = Sizes(m: nat, rg: nat, n: nat, total: nat, height: nat, written: nat)
  {
    predicate Ok() {
      && m >= 2 && rg >= 1 && n == m * rg && n >= 2 * rg && total >= 1
      && (total - 1) * n < height <= total * n
      && height - (total - 1) * n <= written <= n
    }
  }

  type Shape = s: Sizes | s.Ok() witness Sizes(2, 1, 2, 1, 1, 1)

  /** The workspace row behind entry k of row list w in its normal state: the list of even iMCU rows is
      in order, the other one has its last four row groups swapped; both wrap around. */
  function Physical(s: Shape, w: nat, k: int): int {
    if w == 0 then
      if k < 0 then k + s.n + 2 * s.rg else if k < s.n + 2 * s.rg then k else k - s.n - 2 * s.rg
    else if k < 0 then k + s.n
    else if k < s.n - 2 * s.rg then k
    else if k < s.n then k + 2 * s.rg
    else if k < s.n + 2 * s.rg then k - 2 * s.rg
    else Physical(s, w, k - s.n - 2 * s.rg)
  }

  lemma PhysicalInside(s: Shape, w: nat, k: int)
    requires 0 - s.rg <= k < s.n + 3 * s.rg
    ensures 0 <= Physical(s, w, k) < s.n + 2 * s.rg
  {
  }

  /** Within the workspace, different entries are different rows. */
  lemma PhysicalInjective(s: Shape, w: nat, j: int, k: int)
    requires 0 <= j < s.n + 2 * s.rg && 0 <= k < s.n + 2 * s.rg && j != k
    ensures Physical(s, w, j) != Physical(s, w, k)
  {
  }

  /** The last two row groups of one list are kept where the other list does not read into. */
  lemma Retained(s: Shape, w: nat, p: int)
    requires w <= 1 && 0 <= p < 2 * s.rg
    ensures Physical(s, 1 - w, s.n - 2 * s.rg + p) == Physical(s, w, s.n + p)
  {
  }

  // ------------------------------------------------------------------ the rows that are wanted

  /** The number of sample rows in the last iMCU row. */
  function RowsLeft(s: Shape): (r: nat)
    ensures 1 <= r <= s.n
  {
    s.height - (s.total - 1) * s.n
  }

  /** The row groups of the last iMCU row without padding. */
  function LastGroups(s: Shape): nat {
    (RowsLeft(s) - 1) / s.rg + 1
  }

  lemma LastGroupsBound(s: Shape)
    ensures (LastGroups(s) - 1) * s.rg < RowsLeft(s) <= LastGroups(s) * s.rg
    ensures 1 <= LastGroups(s) <= s.m
  {
    var q := (RowsLeft(s) - 1) / s.rg;
    assert RowsLeft(s) - 1 == q * s.rg + (RowsLeft(s) - 1) % s.rg;
    assert (q - s.m) * s.rg == q * s.rg - s.n;
    if q >= s.m {
      Product(q - s.m, s.rg);
      assert false;
    }
  }

  /** The row groups of the image. */
  function AllGroups(s: Shape): nat {
    (s.total - 1) * s.m + LastGroups(s)
  }

  /** The first of the 3 * rg rows wanted with row group j: the row group above, j itself, the one below. */
  function FirstRow(s: Shape, j: int): int {
    (j - 1) * s.rg
  }

  /** The row group just before the last iMCU row: it is handed over before the end of the image has been
      looked for. */
  predicate IsLate(s: Shape, j: nat) {
    j == (s.total - 1) * s.m - 1
  }

  /** The rows are the true neighbourhood of row group j. */
  ghost predicate TrueRows(s: Shape, rows: seq<int>, j: nat) {
    Neighbourhood(s.height, rows, s.rg, FirstRow(s, j))
  }

  /** The same, except that behind the end of the image there is never the last row. */
  ghost predicate LateRows(s: Shape, rows: seq<int>, j: nat) {
    && |rows| == 3 * s.rg
    && forall i :: 0 <= i < |rows| ==>
         if FirstRow(s, j) + i < s.height then rows[i] == Clamped(s.height, FirstRow(s, j) + i) else rows[i] != s.height - 1
  }

  ghost predicate RowsFor(s: Shape, rows: seq<int>, j: nat) {
    if IsLate(s, j) then LateRows(s, rows, j) else TrueRows(s, rows, j)
  }

  lemma Times(s: Shape, t: nat, g: int)
    ensures FirstRow(s, t * s.m + g) == t * s.n + g * s.rg - s.rg
  {
    assert t * s.m * s.rg == t * (s.m * s.rg);
    assert (t * s.m + g - 1) * s.rg == t * s.m * s.rg + (g - 1) * s.rg;
    assert (g - 1) * s.rg == g * s.rg - s.rg;
  }

  /** What is handed over with a row group is its true neighbourhood, clamped at top and bottom, if and
      only if it is not the row group just before a last iMCU row with less rows than a row group. */
  lemma TrueUnlessShortEnd(s: Shape, rows: seq<int>, j: nat)
    requires j < AllGroups(s) && RowsFor(s, rows, j)
    ensures TrueRows(s, rows, j) <==> !(IsLate(s, j) && RowsLeft(s) < s.rg)
  {
    if IsLate(s, j) {
      Times(s, s.total - 1, -1);
      assert FirstRow(s, j) == s.height - RowsLeft(s) - 2 * s.rg;
      if RowsLeft(s) < s.rg {
        var i := 2 * s.rg + RowsLeft(s);
        assert rows[i] != s.height - 1 == Clamped(s.height, FirstRow(s, j) + i);
      } else {
        assert TrueRows(s, rows, j);
      }
    }
  }

  /** Such a case: row groups of two rows, five rows in all. */
  lemma ShortEndExists()
    ensures var s := Sizes(2, 2, 4, 2, 5, 2);
            s.Ok() && 1 < AllGroups(s) && IsLate(s, 1) && RowsLeft(s) < s.rg
  {
  }

  lemma GroupsCoverHeight(s: Shape)
    ensures (AllGroups(s) - 1) * s.rg < s.height <= AllGroups(s) * s.rg && AllGroups(s) >= 1
  {
    LastGroupsBound(s);
    Product(s.total - 1, s.m);
    Sums(s.total - 1, s.m, s.rg, LastGroups(s));
  }

  lemma Sums(t: nat, m: nat, rg: nat, last: nat)
    ensures (t * m + last) * rg == t * (m * rg) + last * rg
    ensures (t * m + last - 1) * rg == t * (m * rg) + (last - 1) * rg
  {
    assert t * m * rg == t * (m * rg);
    assert (t * m + last) * rg == t * m * rg + last * rg;
    assert (t * m + last - 1) * rg == t * m * rg + (last - 1) * rg;
  }

  /** A component of a / d row groups, rounded up to whole sample rows, has a / d row groups, rounded up:
      the count is the same for all components, as set_bottom_pointers assumes. */
  lemma GroupsAreCommon(s: Shape, a: nat, d: nat)
    requires (s.height - 1) * d < a * s.rg <= s.height * d
    ensures (AllGroups(s) - 1) * d < a <= AllGroups(s) * d
  {
    GroupsCoverHeight(s);
    Common(AllGroups(s), s.height, s.rg, a, d);
  }

  lemma Common(groups: nat, height: nat, rg: nat, a: nat, d: nat)
    requires (groups - 1) * rg < height <= groups * rg && groups >= 1
    requires (height - 1) * d < a * rg <= height * d
    ensures (groups - 1) * d < a <= groups * d
  {
    assert (groups - 1) * d * rg == (groups - 1) * rg * d;
    assert (groups * d + 1) * rg == groups * rg * d + rg;
    if a <= (groups - 1) * d {
      Scale(a, (groups - 1) * d, rg);
      Scale((groups - 1) * rg, height - 1, d);
      assert false;
    }
    if a > groups * d {
      Scale(groups * d + 1, a, rg);
      Scale(height, groups * rg, d);
      assert false;
    }
  }

  // ------------------------------------------------------------------ row lists

  /** Position x of a row list is its entry x - rg: a list begins rg entries before entry 0. */
  ghost predicate Usable(s: Shape, list: seq<nat>) {
    |list| == s.n + 4 * s.rg && forall x :: 0 <= x < |list| ==> list[x] < s.n + 2 * s.rg
  }

  /** Entries 0 to n + 2 * rg of the list are in their normal order. */
  ghost predicate InOrder(s: Shape, list: seq<nat>, w: nat) {
    Usable(s, list) && forall x :: s.rg <= x < s.n + 3 * s.rg ==> list[x] == Physical(s, w, x - s.rg)
  }

  ghost predicate Wrapped(s: Shape, list: seq<nat>, w: nat) {
    Usable(s, list) && forall x :: 0 <= x < |list| ==> list[x] == Physical(s, w, x - s.rg)
  }

  /** At the top of the image the entries before entry 0 duplicate the first row. */
  ghost predicate AtTop(s: Shape, list: seq<nat>) {
    InOrder(s, list, 0) && forall x :: 0 <= x < s.rg ==> list[x] == 0
  }

  /** The lists while iMCU row t - 1 is handed over, before the bottom is prepared. */
  ghost predicate Lists(s: Shape, x0: seq<nat>, x1: seq<nat>, t: nat) {
    if t <= 1 then AtTop(s, x0) && InOrder(s, x1, 1) else Wrapped(s, x0, 0) && Wrapped(s, x1, 1)
  }

  /** A list after wraparound has been set. */
  function WrapAround(s: Shape, list: seq<nat>): seq<nat>
    requires |list| == s.n + 4 * s.rg
  {
    seq(|list|, x requires 0 <= x < |list| =>
      if x < s.rg then list[x + s.n + 2 * s.rg]
      else if x < s.n + 3 * s.rg then list[x]
      else list[x - s.n - 2 * s.rg])
  }

  /** Position x of the list when i of the rg entries at either end have been set. */
  function HalfWrapped(n: nat, rg: nat, list: seq<nat>, i: nat, x: nat): nat
    requires |list| == n + 4 * rg && x < |list| && i <= rg
  {
    if x < i then list[x + n + 2 * rg] else if n + 3 * rg <= x < n + 3 * rg + i then list[x - n - 2 * rg] else list[x]
  }

  lemma WrapAroundWraps(s: Shape, list: seq<nat>, w: nat)
    requires w <= 1 && InOrder(s, list, w)
    ensures Wrapped(s, WrapAround(s, list), w)
  {
  }

  /** A list after its last real row has been duplicated. */
  function Bottomed(s: Shape, list: seq<nat>): seq<nat>
    requires |list| == s.n + 4 * s.rg
  {
    seq(|list|, x requires 0 <= x < |list| =>
      if RowsLeft(s) + s.rg <= x < RowsLeft(s) + 3 * s.rg then list[RowsLeft(s) - 1 + s.rg] else list[x])
  }

  // ------------------------------------------------------------------ the workspace

  /** iMCU row cur is in the workspace, as far as it has been written. */
  ghost predicate HoldsRow(s: Shape, buffer: seq<int>, w: nat, cur: nat) {
    && |buffer| == s.n + 2 * s.rg
    && forall k :: 0 <= k < s.n ==>
         var row := buffer[PhysicalRow(s, w, k)];
         if cur + 1 < s.total || k < s.written then row == cur * s.n + k else row < cur * s.n
  }

  function PhysicalRow(s: Shape, w: nat, k: int): (r: nat)
    requires 0 - s.rg <= k < s.n + 3 * s.rg
    ensures r < s.n + 2 * s.rg && r == Physical(s, w, k)
  {
    PhysicalInside(s, w, k);
    Physical(s, w, k)
  }

  /** The last two row groups before iMCU row cur are in the workspace. */
  ghost predicate HoldsLast(s: Shape, buffer: seq<int>, w: nat, cur: nat) {
    && |buffer| == s.n + 2 * s.rg
    && forall k :: s.n <= k < s.n + 2 * s.rg ==> buffer[PhysicalRow(s, w, k)] == (cur - 1) * s.n - 2 * s.rg + k
  }

  ghost predicate Holds(s: Shape, buffer: seq<int>, w: nat, cur: nat) {
    HoldsRow(s, buffer, w, cur) && (cur > 0 ==> HoldsLast(s, buffer, w, cur))
  }

  lemma LastKept(s: Shape, buffer: seq<int>, w: nat, cur: nat)
    requires w <= 1 && HoldsRow(s, buffer, 1 - w, cur) && cur + 1 < s.total
    ensures HoldsLast(s, buffer, w, cur + 1)
  {
    forall k | s.n <= k < s.n + 2 * s.rg
      ensures buffer[PhysicalRow(s, w, k)] == cur * s.n - 2 * s.rg + k
    {
      Retained(s, w, k - s.n);
      assert PhysicalRow(s, 1 - w, k - 2 * s.rg) == PhysicalRow(s, w, k);
    }
  }

  ghost predicate Below(buffer: seq<int>, bound: int) {
    forall b :: 0 <= b < |buffer| ==> buffer[b] < bound
  }

  /** The rows that a list shows with its row group g. */
  function Window(s: Shape, list: seq<nat>, buffer: seq<int>, g: nat): (rows: seq<int>)
    requires Usable(s, list) && |buffer| == s.n + 2 * s.rg && g * s.rg + 3 * s.rg <= |list|
    ensures |rows| == 3 * s.rg
  {
    seq(3 * s.rg, i requires 0 <= i < 3 * s.rg => buffer[list[g * s.rg + i]])
  }

  // ------------------------------------------------------------------ the states of the controller

  datatype ContextState = PrepareForImcu | ProcessImcu | PostponedRow

  /** The fields of the controller: the two lists, the workspace, which list is in use, the iMCU rows
      received, the row group counters, and how many row groups have been handed over. */
  datatype Stage = Stage(x0: seq<nat>, x1: seq<nat>, buffer: seq<int>, which: nat, state: ContextState, t: nat,
                         ctr: nat, avail: nat, full: bool, done: nat)
  {
    function List(): seq<nat> {
      if which == 0 then x0 else x1
    }

    ghost predicate Sized(s: Shape) {
      && which <= 1 && t <= s.total && |buffer| == s.n + 2 * s.rg && Usable(s, x0) && Usable(s, x1)
      && Below(buffer, t * s.n)
    }
  }

  ghost predicate Fresh(s: Shape, v: Stage) {
    v.Sized(s) && !v.full && v.t == 0 && v.state.PrepareForImcu? && v.which == 0 && Lists(s, v.x0, v.x1, 0) && v.done == 0
  }

  /** All of an iMCU row but its last row group has been handed over. */
  ghost predicate Awaiting(s: Shape, v: Stage) {
    && v.Sized(s) && !v.full && 1 <= v.t < s.total && v.state.PostponedRow? && v.ctr == s.m + 1 && v.avail == s.m + 2
    && v.which == v.t % 2 && Lists(s, v.x0, v.x1, v.t + 1) && HoldsLast(s, v.buffer, v.which, v.t)
    && v.done == v.t * s.m - 1
  }

  ghost predicate Ended(s: Shape, v: Stage) {
    v.Sized(s) && !v.full && v.t == s.total && v.done == AllGroups(s)
  }

  ghost predicate Filled(s: Shape, v: Stage) {
    v.Sized(s) && v.full && 1 <= v.t && v.which == (v.t - 1) % 2 && Holds(s, v.buffer, v.which, v.t - 1)
  }

  ghost predicate Postponing(s: Shape, v: Stage) {
    && Filled(s, v) && v.state.PostponedRow? && 2 <= v.t && v.ctr == s.m + 1 && v.avail == s.m + 2
    && Lists(s, v.x0, v.x1, v.t) && v.done == (v.t - 1) * s.m - 1
  }

  ghost predicate Preparing(s: Shape, v: Stage) {
    Filled(s, v) && v.state.PrepareForImcu? && Lists(s, v.x0, v.x1, v.t) && v.done == (v.t - 1) * s.m
  }

  /** The list for iMCU row t - 1 with its last real row duplicated. */
  ghost predicate UpToEnd(s: Shape, list: seq<nat>, w: nat, t: nat) {
    && |list| == s.n + 4 * s.rg
    && (forall x :: s.rg <= x < RowsLeft(s) + s.rg ==> list[x] == Physical(s, w, x - s.rg))
    && (forall x :: RowsLeft(s) + s.rg <= x < RowsLeft(s) + 3 * s.rg ==> list[x] == Physical(s, w, RowsLeft(s) - 1))
    && (forall x :: 0 <= x < s.rg ==> list[x] == if t == 1 then 0 else Physical(s, w, x - s.rg))
  }

  ghost predicate Processing(s: Shape, v: Stage) {
    && Filled(s, v) && v.state.ProcessImcu? && v.ctr <= v.avail && v.done == (v.t - 1) * s.m + v.ctr
    && if v.t < s.total then v.avail == s.m - 1 && Lists(s, v.x0, v.x1, v.t)
       else v.avail == LastGroups(s) && UpToEnd(s, v.List(), v.which, v.t)
  }

  /** Where the controller stands. */
  datatype Phase = AtStart | AwaitingNext | AtEnd | PostponingGroup | PreparingRow | ProcessingRow
  {
    predicate Full() {
      PostponingGroup? || PreparingRow? || ProcessingRow?
    }
  }

  ghost predicate In(s: Shape, v: Stage, phase: Phase) {
    match phase
    case AtStart => Fresh(s, v)
    case AwaitingNext => Awaiting(s, v)
    case AtEnd => Ended(s, v)
    case PostponingGroup => Postponing(s, v)
    case PreparingRow => Preparing(s, v)
    case ProcessingRow => Processing(s, v)
  }

  // ------------------------------------------------------------------ what is shown

  /** The rows above the iMCU row in process. */
  lemma ProcessingAbove(s: Shape, v: Stage, x: nat)
    requires Processing(s, v) && x < s.rg
    ensures v.buffer[v.List()[x]] == Clamped(s.height, (v.t - 1) * s.n + x - s.rg)
  {
    Begins(s.total, v.t - 1, s.n);
    if v.t > 1 {
      assert PhysicalRow(s, v.which, x - s.rg) == PhysicalRow(s, v.which, x + s.n + s.rg);
    } else {
      assert PhysicalRow(s, 0, 0) == 0;
    }
  }

  /** The row at position x while an iMCU row is handed over. */
  lemma ProcessingShows(s: Shape, v: Stage, x: nat)
    requires Processing(s, v) && x < if v.t < s.total then s.n + s.rg else RowsLeft(s) + 3 * s.rg
    ensures v.buffer[v.List()[x]] == Clamped(s.height, (v.t - 1) * s.n + x - s.rg)
  {
    Begins(s.total, v.t - 1, s.n);
    if x < s.rg {
      ProcessingAbove(s, v, x);
    } else if x < RowsLeft(s) + s.rg || v.t < s.total {
      assert v.List()[x] == PhysicalRow(s, v.which, x - s.rg);
    } else {
      assert v.List()[x] == PhysicalRow(s, v.which, RowsLeft(s) - 1);
    }
  }

  /** Row group g, not behind the last one, does not begin behind `end`. */
  lemma GroupFits(rg: nat, last: nat, g: nat, end: int)
    requires g <= last && last * rg <= end
    ensures g * rg <= end
  {
    assert (last - g) * rg == last * rg - g * rg;
    Product(last - g, rg);
  }

  lemma GroupInside(s: Shape, t: nat, g: nat)
    requires 1 <= t <= s.total && g < if t < s.total then s.m - 1 else LastGroups(s)
    ensures g * s.rg + 3 * s.rg <= if t < s.total then s.n + s.rg else RowsLeft(s) + 3 * s.rg - 1
  {
    if t < s.total {
      assert (s.m - 2) * s.rg == s.n - 2 * s.rg;
      GroupFits(s.rg, s.m - 2, g, s.n - 2 * s.rg);
    } else {
      LastGroupsBound(s);
      GroupFits(s.rg, LastGroups(s) - 1, g, RowsLeft(s) - 1);
    }
  }

  lemma GroupCounts(s: Shape, t: nat, g: nat, j: nat)
    requires 1 <= t <= s.total && g < (if t < s.total then s.m - 1 else LastGroups(s)) && j == (t - 1) * s.m + g
    ensures j < AllGroups(s) && !IsLate(s, j)
  {
    LastGroupsBound(s);
    Begins(s.total, t - 1, s.m);
  }

  lemma WindowTrue(s: Shape, v: Stage, g: nat, j: nat)
    requires Processing(s, v) && g < v.avail && g * s.rg + 3 * s.rg <= s.n + 4 * s.rg
    requires j == (v.t - 1) * s.m + g
    ensures TrueRows(s, Window(s, v.List(), v.buffer, g), j)
  {
    GroupInside(s, v.t, g);
    Times(s, v.t - 1, g);
    var rows := Window(s, v.List(), v.buffer, g);
    Product(g, s.rg);
    forall i | 0 <= i < |rows|
      ensures rows[i] == Clamped(s.height, FirstRow(s, j) + i)
    {
      ProcessingShows(s, v, g * s.rg + i);
    }
  }

  lemma WindowInProcess(s: Shape, v: Stage, g: nat)
    requires Processing(s, v) && v.ctr <= g < v.avail
    ensures g * s.rg + 3 * s.rg <= s.n + 4 * s.rg && v.done + g - v.ctr < AllGroups(s)
    ensures RowsFor(s, Window(s, v.List(), v.buffer, g), v.done + g - v.ctr)
  {
    GroupInside(s, v.t, g);
    GroupCounts(s, v.t, g, v.done + g - v.ctr);
    WindowTrue(s, v, g, v.done + g - v.ctr);
  }

  /** The row at position x while the postponed row group is handed over. */
  lemma PostponingShows(s: Shape, v: Stage, x: nat)
    requires Postponing(s, v) && s.n + s.rg <= x < s.n + 4 * s.rg
    ensures var q := (v.t - 2) * s.n + x - 3 * s.rg;
            q >= 0 && if q < s.height then v.buffer[v.List()[x]] == q else v.t == s.total && v.buffer[v.List()[x]] != s.height - 1
  {
    Begins(s.total, v.t - 1, s.n);
    assert v.List()[x] == PhysicalRow(s, v.which, x - s.rg);
    if x >= s.n + 3 * s.rg {
      assert PhysicalRow(s, v.which, x - s.rg) == PhysicalRow(s, v.which, x - s.n - 3 * s.rg);
    }
  }

  lemma PostponedCounts(s: Shape, t: nat)
    requires 2 <= t <= s.total
    ensures (s.m + 1) * s.rg == s.n + s.rg && (t - 1) * s.m >= 1 && (t - 1) * s.m - 1 < AllGroups(s)
    ensures IsLate(s, (t - 1) * s.m - 1) <==> t == s.total
    ensures FirstRow(s, (t - 1) * s.m - 1) == (t - 2) * s.n + s.n - 2 * s.rg
  {
    Begins(s.total, t - 1, s.m);
    Begins(s.total, t - 1, s.n);
    assert (s.m + 1) * s.rg == s.n + s.rg;
    Times(s, t - 1, -1);
    Product(t - 1, s.m);
  }

  lemma WindowPostponed(s: Shape, v: Stage)
    requires Postponing(s, v)
    ensures (s.m + 1) * s.rg + 3 * s.rg == s.n + 4 * s.rg && v.done < AllGroups(s)
    ensures RowsFor(s, Window(s, v.List(), v.buffer, s.m + 1), v.done)
  {
    PostponedCounts(s, v.t);
    var rows := Window(s, v.List(), v.buffer, s.m + 1);
    forall i | 0 <= i < |rows|
      ensures var q := FirstRow(s, v.done) + i;
              if q < s.height then rows[i] == Clamped(s.height, q) else v.t == s.total && rows[i] != s.height - 1
    {
      PostponingShows(s, v, s.n + s.rg + i);
    }
  }

  // ------------------------------------------------------------------ steps

  /** What reading iMCU row v.t does to the workspace. */
  ghost predicate ReadInto(s: Shape, v: Stage, buffer: seq<int>)
    requires v.Sized(s)
  {
    && HoldsRow(s, buffer, v.which, v.t) && Below(buffer, (v.t + 1) * s.n)
    && forall k :: s.n <= k < s.n + 2 * s.rg ==> buffer[PhysicalRow(s, v.which, k)] == v.buffer[PhysicalRow(s, v.which, k)]
  }

  lemma NotWritten(s: Shape, list: seq<nat>, w: nat, rows: nat, k: nat)
    requires InOrder(s, list, w) && w <= 1 && rows <= s.n && rows <= k < s.n + 2 * s.rg
    ensures PhysicalRow(s, w, k) !in list[s.rg..s.rg + rows]
  {
    var part := list[s.rg..s.rg + rows];
    forall x | 0 <= x < |part|
      ensures part[x] != PhysicalRow(s, w, k)
    {
      assert part[x] == list[x + s.rg];
      PhysicalInjective(s, w, x, k);
    }
  }

  lemma WrittenMeans(s: Shape, v: Stage, list: seq<nat>, rows: nat, buffer: seq<int>)
    requires v.Sized(s) && v.t < s.total && InOrder(s, list, v.which) && |buffer| == |v.buffer|
    requires rows == if v.t + 1 < s.total then s.n else s.written
    requires forall x :: s.rg <= x < s.rg + rows ==> buffer[list[x]] == v.t * s.n + x - s.rg
    requires forall b :: 0 <= b < |buffer| && b !in list[s.rg..s.rg + rows] ==> buffer[b] == v.buffer[b]
    ensures ReadInto(s, v, buffer)
  {
    var part := list[s.rg..s.rg + rows];
    forall k | rows <= k < s.n + 2 * s.rg
      ensures buffer[PhysicalRow(s, v.which, k)] == v.buffer[PhysicalRow(s, v.which, k)]
    {
      NotWritten(s, list, v.which, rows, k);
    }
    forall k | 0 <= k < rows
      ensures buffer[PhysicalRow(s, v.which, k)] == v.t * s.n + k
    {
      assert list[k + s.rg] == PhysicalRow(s, v.which, k);
    }
    assert (v.t + 1) * s.n == v.t * s.n + s.n;
    forall b | 0 <= b < |buffer|
      ensures buffer[b] < (v.t + 1) * s.n
    {
      if b in part {
        var x :| 0 <= x < |part| && part[x] == b;
        assert list[x + s.rg] == b;
      }
    }
  }

  lemma ReadStep(s: Shape, v: Stage, buffer: seq<int>)
    requires (Fresh(s, v) || Awaiting(s, v)) && ReadInto(s, v, buffer)
    ensures var next := v.(buffer := buffer, full := true, t := v.t + 1);
            if v.t == 0 then Preparing(s, next) else Postponing(s, next)
  {
  }

  /** The list and fields when an iMCU row is about to be handed over. */
  ghost function Prepared(s: Shape, v: Stage): Stage
    requires v.Sized(s)
  {
    WithBottom(s, v.(ctr := 0, avail := s.m - 1, state := ProcessImcu))
  }

  /** In the last iMCU row, the list in use ends with copies of the last real row. */
  ghost function WithBottom(s: Shape, v: Stage): Stage
    requires v.Sized(s)
  {
    if v.t != s.total then v
    else if v.which == 0 then v.(avail := LastGroups(s), x0 := Bottomed(s, v.x0))
    else v.(avail := LastGroups(s), x1 := Bottomed(s, v.x1))
  }

  lemma PreparedEnd(s: Shape, x0: seq<nat>, x1: seq<nat>, w: nat, t: nat)
    requires Lists(s, x0, x1, t) && w <= 1 && t >= 1 && (t == 1 ==> w == 0)
    ensures var list := Bottomed(s, if w == 0 then x0 else x1);
            Usable(s, list) && UpToEnd(s, list, w, t)
  {
    BottomedUsable(s, if w == 0 then x0 else x1);
  }

  lemma BottomedUsable(s: Shape, list: seq<nat>)
    requires Usable(s, list)
    ensures Usable(s, Bottomed(s, list))
  {
    assert list[RowsLeft(s) - 1 + s.rg] < s.n + 2 * s.rg;
  }

  lemma PrepareStep(s: Shape, v: Stage)
    requires Preparing(s, v)
    ensures Processing(s, Prepared(s, v))
  {
    if v.t == s.total {
      PreparedEnd(s, v.x0, v.x1, v.which, v.t);
    }
  }

  /** The lists and fields behind the end of an iMCU row. */
  ghost function Next(s: Shape, v: Stage): Stage
    requires v.Sized(s)
  {
    var wrapped := if v.t == 1 then v.(x0 := WrapAround(s, v.x0), x1 := WrapAround(s, v.x1)) else v;
    wrapped.(which := 1 - v.which, full := false, ctr := s.m + 1, avail := s.m + 2, state := PostponedRow)
  }

  lemma WrapAroundUsable(s: Shape, list: seq<nat>)
    requires Usable(s, list)
    ensures Usable(s, WrapAround(s, list))
  {
  }

  lemma NextSized(s: Shape, v: Stage)
    requires v.Sized(s)
    ensures Next(s, v).Sized(s)
  {
    WrapAroundUsable(s, v.x0);
    WrapAroundUsable(s, v.x1);
  }

  lemma NextWrapped(s: Shape, v: Stage)
    requires v.Sized(s) && Lists(s, v.x0, v.x1, v.t) && v.t >= 1
    ensures Lists(s, Next(s, v).x0, Next(s, v).x1, v.t + 1)
  {
    if v.t == 1 {
      WrapAroundWraps(s, v.x0, 0);
      WrapAroundWraps(s, v.x1, 1);
    }
  }

  lemma FinishAll(s: Shape, v: Stage)
    requires Processing(s, v) && v.ctr == v.avail && v.t == s.total
    ensures Ended(s, Next(s, v))
  {
    NextSized(s, v);
  }

  lemma FinishStep(s: Shape, v: Stage)
    requires Processing(s, v) && v.ctr == v.avail && v.t < s.total
    ensures Awaiting(s, Next(s, v))
  {
    NextSized(s, v);
    NextWrapped(s, v);
    NextHolds(s, v.buffer, v.which, v.t);
    Begins(s.total, v.t, s.m);
  }

  lemma NextHolds(s: Shape, buffer: seq<int>, which: nat, t: nat)
    requires 1 <= t < s.total && Holds(s, buffer, which, t - 1) && which == (t - 1) % 2
    ensures HoldsLast(s, buffer, 1 - which, t) && 1 - which == t % 2
  {
    LastKept(s, buffer, 1 - which, t - 1);
  }

  // ------------------------------------------------------------------ the controller

  /** Everything handed over so far, in order and each row group once. */
  ghost predicate AllRight(s: Shape, handed: seq<seq<int>>) {
    |handed| <= AllGroups(s) && forall j :: 0 <= j < |handed| ==> RowsFor(s, handed[j], j)
  }

  /** The loops of make_funny_pointers for one component; the workspace rows are numbered from 0. */
  method FillLists(xbuf0: array<nat>, xbuf1: array<nat>, n: nat, rg: nat)
    requires xbuf0 != xbuf1 && xbuf0.Length == xbuf1.Length == n + 4 * rg && n >= 2 * rg && rg >= 1
    modifies xbuf0, xbuf1
    ensures forall x :: 0 <= x < n + 3 * rg ==> xbuf0[x] == if x < rg then 0 else x - rg
    ensures forall x :: rg <= x < n + 3 * rg ==> xbuf1[x] == Swapped(n, rg, 2 * rg, x)
    ensures forall x :: n + 3 * rg <= x < n + 4 * rg ==> xbuf0[x] == old(xbuf0[x]) && xbuf1[x] == old(xbuf1[x])
    ensures forall x :: 0 <= x < rg ==> xbuf1[x] == old(xbuf1[x])
  {
    for i := 0 to n + 2 * rg
      invariant forall x :: rg <= x < rg + i ==> xbuf0[x] == xbuf1[x] == x - rg
      invariant forall x :: 0 <= x < rg || rg + i <= x < n + 4 * rg ==> xbuf0[x] == old(xbuf0[x]) && xbuf1[x] == old(xbuf1[x])
    {
      xbuf0[i + rg], xbuf1[i + rg] := i, i;
    }
    for i := 0 to 2 * rg
      invariant forall x :: rg <= x < n + 3 * rg ==> xbuf0[x] == x - rg
      invariant forall x :: rg <= x < n + 3 * rg ==> xbuf1[x] == Swapped(n, rg, i, x)
      invariant forall x :: 0 <= x < rg || n + 3 * rg <= x < n + 4 * rg ==> xbuf0[x] == old(xbuf0[x]) && xbuf1[x] == old(xbuf1[x])
    {
      xbuf1[n - 2 * rg + i + rg] := n + i;
      xbuf1[n + i + rg] := n - 2 * rg + i;
    }
    for i := 0 to rg
      invariant forall x :: rg <= x < n + 3 * rg ==> xbuf0[x] == x - rg
      invariant forall x :: 0 <= x < i ==> xbuf0[x] == 0
      invariant forall x :: n + 3 * rg <= x < n + 4 * rg ==> xbuf0[x] == old(xbuf0[x])
      modifies xbuf0
    {
      xbuf0[i] := xbuf0[rg];
    }
  }

  /** Position x of the second list when i rows of its last four row groups have been swapped. */
  function Swapped(n: nat, rg: nat, i: nat, x: nat): int {
    if n - rg <= x < n - rg + i then x + rg else if n + rg <= x < n + rg + i then x - 3 * rg else x - rg
  }

  /** The loop of set_wraparound_pointers for one component. */
  method WrapLists(xbuf0: array<nat>, xbuf1: array<nat>, n: nat, rg: nat)
    requires xbuf0 != xbuf1 && xbuf0.Length == xbuf1.Length == n + 4 * rg && n >= 2 * rg
    modifies xbuf0, xbuf1
    ensures forall x :: 0 <= x < xbuf0.Length ==> xbuf0[x] == HalfWrapped(n, rg, old(xbuf0[..]), rg, x)
    ensures forall x :: 0 <= x < xbuf1.Length ==> xbuf1[x] == HalfWrapped(n, rg, old(xbuf1[..]), rg, x)
  {
    ghost var list0, list1 := xbuf0[..], xbuf1[..];
    for i := 0 to rg
      invariant forall x :: 0 <= x < |list0| ==> xbuf0[x] == HalfWrapped(n, rg, list0, i, x)
      invariant forall x :: 0 <= x < |list1| ==> xbuf1[x] == HalfWrapped(n, rg, list1, i, x)
    {
      xbuf0[i] := xbuf0[n + 2 * rg + i];
      xbuf1[i] := xbuf1[n + 2 * rg + i];
      xbuf0[n + 3 * rg + i] := xbuf0[rg + i];
      xbuf1[n + 3 * rg + i] := xbuf1[rg + i];
    }
  }

  /** The loop of set_bottom_pointers: count entries from position `at` on become copies of the one before. */
  method Repeat(xbuf: array<nat>, at: nat, count: nat)
    requires 1 <= at && at + count <= xbuf.Length
    modifies xbuf
    ensures forall x :: 0 <= x < xbuf.Length ==> xbuf[x] == old(xbuf[if at <= x < at + count then at - 1 else x])
  {
    for i := 0 to count
      invariant forall x :: 0 <= x < xbuf.Length ==> xbuf[x] == old(xbuf[if at <= x < at + i then at - 1 else x])
    {
      xbuf[at + i] := xbuf[at - 1];
    }
  }

  /** The loop of the coefficient controller's output: count entries of the list are written. */
  method WriteRows(buffer: array<int>, xbuf: array<nat>, at: nat, count: nat, first: int)
    requires at + count <= xbuf.Length
    requires forall x :: at <= x < at + count ==> xbuf[x] < buffer.Length
    requires forall x, y :: at <= x < y < at + count ==> xbuf[x] != xbuf[y]
    modifies buffer
    ensures forall x :: at <= x < at + count ==> buffer[xbuf[x]] == first + x - at
    ensures forall b :: 0 <= b < buffer.Length && b !in xbuf[at..at + count] ==> buffer[b] == old(buffer[b])
  {
    for k := 0 to count
      invariant forall x :: at <= x < at + k ==> buffer[xbuf[x]] == first + x - at
      invariant forall b :: 0 <= b < buffer.Length && b !in xbuf[at..at + k] ==> buffer[b] == old(buffer[b])
    {
      assert xbuf[at..at + (k + 1)] == xbuf[at..at + k] + [xbuf[at + k]];
      buffer[xbuf[at + k]] := first + k;
    }
  }

  /** The list in use shows the right rows with its row group g. */
  ghost predicate Shows(s: Shape, v: Stage, g: nat) {
    && v.Sized(s) && v.ctr <= g && v.done + g - v.ctr < AllGroups(s) && g * s.rg + 3 * s.rg <= s.n + 4 * s.rg
    && RowsFor(s, Window(s, v.List(), v.buffer, g), v.done + g - v.ctr)
  }

  lemma HandOver(s: Shape, handed: seq<seq<int>>, v: Stage)
    requires AllRight(s, handed) && v.done == |handed| && Shows(s, v, v.ctr)
    ensures AllRight(s, handed + [Window(s, v.List(), v.buffer, v.ctr)])
  {
  }

  ghost predicate AllShow(s: Shape, v: Stage) {
    forall g :: v.ctr <= g < v.avail ==> Shows(s, v, g)
  }

  lemma AllShowLater(s: Shape, v: Stage)
    requires AllShow(s, v) && v.ctr < v.avail
    ensures AllShow(s, v.(ctr := v.ctr + 1, done := v.done + 1))
  {
    var next := v.(ctr := v.ctr + 1, done := v.done + 1);
    forall g | next.ctr <= g < next.avail
      ensures Shows(s, next, g)
    {
      assert Shows(s, v, g);
    }
  }

  lemma AllShowInProcess(s: Shape, v: Stage)
    requires Processing(s, v)
    ensures AllShow(s, v)
  {
    forall g | v.ctr <= g < v.avail
      ensures Shows(s, v, g)
    {
      WindowInProcess(s, v, g);
    }
  }

  lemma AllShowPostponed(s: Shape, v: Stage)
    requires Postponing(s, v)
    ensures AllShow(s, v)
  {
    WindowPostponed(s, v);
  }

  lemma Advanced(s: Shape, v: Stage, ctr: nat)
    requires Processing(s, v) && v.ctr <= ctr <= v.avail
    ensures Processing(s, v.(ctr := ctr, done := v.done + ctr - v.ctr))
  {
  }

  class MainController {
    const s: Shape
    const buffer: array<int>        // the workspace; a row is represented by its number in the image
    const xbuffer0: array<nat>      // the two row lists
    const xbuffer1: array<nat>
    var whichptr: nat
    var contextState: ContextState
    var imcuRowCtr: nat             // iMCU rows received
    var rowgroupCtr: nat
    var rowgroupsAvail: nat
    var bufferFull: bool
    ghost var handed: seq<seq<int>> // the rows shown with each row group that was handed over

    ghost function View(): Stage
      reads this, buffer, xbuffer0, xbuffer1
    {
      Stage(xbuffer0[..], xbuffer1[..], buffer[..], whichptr, contextState, imcuRowCtr, rowgroupCtr, rowgroupsAvail,
            bufferFull, |handed|)
    }

    ghost predicate Valid()
      reads this`handed
    {
      xbuffer0 != xbuffer1 && AllRight(s, handed)
    }

    /** The controller stands in a phase; the quantifier keeps what that means out of sight. */
    ghost predicate Is(phase: Phase)
      reads this, buffer, xbuffer0, xbuffer1
    {
      && bufferFull == phase.Full()
      && (phase.Full() ==> contextState == if phase.PostponingGroup? then PostponedRow
                                           else if phase.PreparingRow? then PrepareForImcu else ProcessImcu)
      && (phase.AtEnd? ==> |handed| == AllGroups(s))
      && (forall v {:trigger In(s, v, phase)} :: v == View() ==> In(s, v, phase))
    }

    /** Between two calls. */
    ghost predicate Resting()
      reads this, buffer, xbuffer0, xbuffer1
    {
      || Is(AtStart) || Is(AwaitingNext) || Is(AtEnd) || Is(PostponingGroup) || Is(PreparingRow)
      || (Is(ProcessingRow) && rowgroupCtr < rowgroupsAvail)
    }

    /** jinit_d_main_controller, alloc_funny_pointers and start_pass_main */
    constructor (s: Shape)
      ensures this.s == s && fresh(buffer) && fresh(xbuffer0) && fresh(xbuffer1) && Valid() && Is(AtStart)
      ensures handed == []
    {
      this.s := s;
      buffer := new int[s.n + 2 * s.rg](_ => -1);
      xbuffer0, xbuffer1 := new nat[s.n + 4 * s.rg](_ => 0), new nat[s.n + 4 * s.rg](_ => 0);
      whichptr, contextState, imcuRowCtr := 0, PrepareForImcu, 0;
      rowgroupCtr, rowgroupsAvail, bufferFull, handed := 0, 0, false, [];
      new;
      MakeFunnyPointers();
      assert In(s, View(), AtStart);
    }

    /** make_funny_pointers */
    method MakeFunnyPointers()
      requires xbuffer0 != xbuffer1 && Usable(s, xbuffer0[..]) && Usable(s, xbuffer1[..])
      modifies xbuffer0, xbuffer1
      ensures AtTop(s, xbuffer0[..]) && InOrder(s, xbuffer1[..], 1)
    {
      FillLists(xbuffer0, xbuffer1, s.n, s.rg);
    }

    /** set_wraparound_pointers */
    method SetWraparoundPointers()
      requires xbuffer0 != xbuffer1 && xbuffer0.Length == xbuffer1.Length == s.n + 4 * s.rg
      modifies xbuffer0, xbuffer1
      ensures xbuffer0[..] == WrapAround(s, old(xbuffer0[..])) && xbuffer1[..] == WrapAround(s, old(xbuffer1[..]))
    {
      WrapLists(xbuffer0, xbuffer1, s.n, s.rg);
    }

    /** set_bottom_pointers, for the list in use */
    method SetBottomPointers(xbuf: array<nat>)
      requires xbuf.Length == s.n + 4 * s.rg
      modifies this`rowgroupsAvail, xbuf
      ensures xbuf[..] == Bottomed(s, old(xbuf[..])) && rowgroupsAvail == LastGroups(s)
    {
      var rowsLeft := s.height % s.n;
      if rowsLeft == 0 {
        rowsLeft := s.n;
      }
      RowsLeftIs(s);
      rowgroupsAvail := (rowsLeft - 1) / s.rg + 1;
      Repeat(xbuf, rowsLeft + s.rg, 2 * s.rg);
    }

    /** decompress_data, as far as this controller sees it: it writes the next iMCU row through the list. */
    method ReadRow(xbuf: array<nat>)
      requires Valid() && View().Sized(s) && imcuRowCtr < s.total && xbuf == (if whichptr == 0 then xbuffer0 else xbuffer1)
      requires InOrder(s, xbuf[..], whichptr)
      modifies buffer
      ensures ReadInto(s, old(View()), buffer[..])
    {
      var first := imcuRowCtr * s.n;
      var rows := if imcuRowCtr + 1 < s.total then s.n else s.written;
      forall x, y | s.rg <= x < y < s.rg + rows
        ensures xbuf[x] != xbuf[y]
      {
        PhysicalInjective(s, whichptr, x - s.rg, y - s.rg);
      }
      WriteRows(buffer, xbuf, s.rg, rows, first);
      WrittenMeans(s, old(View()), xbuf[..], rows, buffer[..]);
    }

    /** post_process_data, as far as this controller sees it: it takes as many row groups as the output
        buffer has room for, looking only at the rows shown with them. */
    method PostProcess(appetite: nat) returns (left: nat)
      requires Valid() && View().Sized(s) && rowgroupCtr <= rowgroupsAvail
      requires AllShow(s, View())
      modifies this`rowgroupCtr, this`handed
      ensures old(rowgroupCtr) <= rowgroupCtr <= rowgroupsAvail && left == appetite - (rowgroupCtr - old(rowgroupCtr))
      ensures left > 0 ==> rowgroupCtr == rowgroupsAvail
      ensures old(handed) <= handed && |handed| == |old(handed)| + rowgroupCtr - old(rowgroupCtr)
      ensures AllRight(s, handed)
    {
      left := appetite;
      while left > 0 && rowgroupCtr < rowgroupsAvail
        invariant old(rowgroupCtr) <= rowgroupCtr <= rowgroupsAvail && left == appetite - (rowgroupCtr - old(rowgroupCtr))
        invariant old(handed) <= handed && |handed| == |old(handed)| + rowgroupCtr - old(rowgroupCtr)
        invariant AllRight(s, handed) && View().Sized(s)
        invariant AllShow(s, View())
      {
        ghost var v := View();
        assert Shows(s, v, rowgroupCtr);
        HandOver(s, handed, v);
        AllShowLater(s, v);
        handed := handed + [Window(s, v.List(), v.buffer, v.ctr)];
        rowgroupCtr, left := rowgroupCtr + 1, left - 1;
        assert View() == v.(ctr := v.ctr + 1, done := v.done + 1);
      }
    }

    method SetBottom()
      requires xbuffer0 != xbuffer1 && View().Sized(s)
      modifies this`rowgroupsAvail, xbuffer0, xbuffer1
      ensures View() == WithBottom(s, old(View()))
    {
      if imcuRowCtr == s.total {
        SetBottomPointers(if whichptr == 0 then xbuffer0 else xbuffer1);
      }
    }

    /** The part of process_data_context_main after the iMCU row has been read. */
    method Prepare()
      requires Valid() && Is(PreparingRow)
      modifies this`rowgroupCtr, this`rowgroupsAvail, this`contextState, xbuffer0, xbuffer1
      ensures Valid() && Is(ProcessingRow) && rowgroupCtr == 0 < rowgroupsAvail
    {
      ghost var v := View();
      assert In(s, v, PreparingRow);
      rowgroupCtr, rowgroupsAvail, contextState := 0, s.m - 1, ProcessImcu;
      SetBottom();
      assert View() == Prepared(s, v);
      PrepareStep(s, v);
      assert In(s, View(), ProcessingRow);
    }

    method Finish()
      requires Valid() && Is(ProcessingRow) && rowgroupCtr == rowgroupsAvail
      modifies this`rowgroupCtr, this`rowgroupsAvail, this`contextState, this`whichptr, this`bufferFull, xbuffer0, xbuffer1
      ensures Valid() && (Is(AtEnd) || Is(AwaitingNext))
    {
      ghost var v := View();
      assert In(s, v, ProcessingRow);
      if imcuRowCtr == 1 {
        SetWraparoundPointers();
      }
      whichptr, bufferFull := 1 - whichptr, false;
      rowgroupCtr, rowgroupsAvail, contextState := s.m + 1, s.m + 2, PostponedRow;
      assert View() == Next(s, v);
      if imcuRowCtr == s.total {
        FinishAll(s, v);
      } else {
        FinishStep(s, v);
      }
      assert In(s, View(), if v.t == s.total then AtEnd else AwaitingNext);
    }

    method Read()
      requires Valid() && (Is(AtStart) || Is(AwaitingNext))
      modifies this`bufferFull, this`imcuRowCtr, buffer
      ensures Valid() && ((Is(PreparingRow) && contextState.PrepareForImcu?) || Is(PostponingGroup))
    {
      ghost var v := View();
      assert In(s, v, AtStart) || In(s, v, AwaitingNext);
      ReadRow(if whichptr == 0 then xbuffer0 else xbuffer1);
      bufferFull, imcuRowCtr := true, imcuRowCtr + 1;
      ReadStep(s, v, buffer[..]);
      assert In(s, View(), if v.t == 0 then PreparingRow else PostponingGroup);
    }

    method ProcessPostponed(appetite: nat) returns (left: nat)
      requires Valid() && Is(PostponingGroup)
      modifies this`rowgroupCtr, this`handed, this`contextState
      ensures Valid() && old(handed) <= handed && left == appetite - (|handed| - |old(handed)|)
      ensures if appetite == 0 then Is(PostponingGroup) else Is(PreparingRow) && |handed| == |old(handed)| + 1
    {
      ghost var v := View();
      assert In(s, v, PostponingGroup);
      AllShowPostponed(s, v);
      left := PostProcess(appetite);
      if rowgroupCtr == rowgroupsAvail {
        contextState := PrepareForImcu;
        assert View() == v.(ctr := v.ctr + 1, done := v.done + 1, state := PrepareForImcu);
        assert In(s, View(), PreparingRow);
      } else {
        assert In(s, View(), PostponingGroup);
      }
    }

    method ProcessRows(appetite: nat) returns (left: nat)
      requires Valid() && Is(ProcessingRow)
      modifies this`rowgroupCtr, this`handed
      ensures Valid() && Is(ProcessingRow) && old(handed) <= handed && left == appetite - (|handed| - |old(handed)|)
      ensures rowgroupCtr < rowgroupsAvail ==> left == 0
      ensures rowgroupCtr <= rowgroupsAvail && (old(rowgroupCtr < rowgroupsAvail) && appetite > 0 ==> left < appetite)
    {
      ghost var v := View();
      assert In(s, v, ProcessingRow);
      AllShowInProcess(s, v);
      left := PostProcess(appetite);
      Advanced(s, v, rowgroupCtr);
      assert View() == v.(ctr := rowgroupCtr, done := |handed|);
      assert In(s, View(), ProcessingRow);
    }

    /** process_data_context_main. `inputReady` says whether the coefficient controller can deliver an iMCU
        row now, `appetite` how many row groups the output buffer takes, and `exact` whether it is then
        exactly full; the result is how many it took. No call comes after the image is complete
        (jpeg_read_scanlines). */
    method ProcessDataContext(inputReady: bool, appetite: nat, exact: bool) returns (taken: nat)
      requires Valid() && Resting() && |handed| < AllGroups(s)
      modifies this, buffer, xbuffer0, xbuffer1
      ensures Valid() && Resting()
      ensures old(handed) <= handed && |handed| == |old(handed)| + taken && taken <= appetite
      ensures inputReady && appetite > 0 ==> |handed| > |old(handed)|
      ensures taken < appetite ==> !bufferFull
    {
      taken := 0;
      if !bufferFull {
        if !inputReady {
          return;
        }
        Read();
      }
      var left := appetite;
      if contextState.PostponedRow? {
        left := ProcessPostponed(appetite);
        taken := appetite - left;
        if contextState.PostponedRow? || (left == 0 && exact) {
          return;
        }
      }
      if contextState.PrepareForImcu? {
        Prepare();
      }
      left := ProcessRows(left);
      taken := appetite - left;
      if rowgroupCtr == rowgroupsAvail {
        Finish();
      }
    }
  }

  // ------------------------------------------------------------------ whole passes

  datatype Call = Call(inputReady: bool, appetite: nat, exact: bool)

  /** The calls that can make progress. */
  function Useful(calls: seq<Call>): (k: nat)
    ensures k <= |calls|
  {
    if calls == [] then 0
    else Useful(calls[..|calls| - 1]) + if calls[|calls| - 1].inputReady && calls[|calls| - 1].appetite > 0 then 1 else 0
  }

  /** A whole output pass, whenever the input is suspended and however small the output buffers are: the
      row groups come in order, each once with the right rows, and enough calls bring all of them. */
  method OutputPass(s: Shape, calls: seq<Call>) returns (main: MainController)
    ensures main.s == s && AllRight(s, main.handed)
    ensures forall j :: 0 <= j < |main.handed| ==>
      (TrueRows(s, main.handed[j], j) <==> !(IsLate(s, j) && RowsLeft(s) < s.rg))
    ensures |main.handed| >= if Useful(calls) < AllGroups(s) then Useful(calls) else AllGroups(s)
  {
    main := new MainController(s);
    var out := 0;
    for i := 0 to |calls|
      invariant fresh(main) && fresh(main.buffer) && fresh(main.xbuffer0) && fresh(main.xbuffer1)
      invariant main.s == s && out == |main.handed| && main.Valid() && main.Resting()
      invariant |main.handed| >= AllGroups(s) || |main.handed| >= Useful(calls[..i])
    {
      assert calls[..i + 1][..i] == calls[..i];
      if out < AllGroups(s) {
        var taken := main.ProcessDataContext(calls[i].inputReady, calls[i].appetite, calls[i].exact);
        out := out + taken;
      }
    }
    assert calls[..|calls|] == calls;
    forall j | 0 <= j < |main.handed|
      ensures TrueRows(s, main.handed[j], j) <==> !(IsLate(s, j) && RowsLeft(s) < s.rg)
    {
      TrueUnlessShortEnd(s, main.handed[j], j);
    }
  }

  lemma RowsLeftIs(s: Shape)
    ensures RowsLeft(s) == if s.height % s.n == 0 then s.n else s.height % s.n
  {
    var q := s.total - 1;
    assert s.height == q * s.n + RowsLeft(s);
    Remainder(s.height, s.n, q, RowsLeft(s));
  }
}
