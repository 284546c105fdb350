/** Rows of an image with those above and below them, which are repeated at its edges. */
module ImageRows {
  /** A row of the image, clamped at the top and at the bottom. */
  function Clamped(height: nat, q: int): int {
    if q < 0 then 0 else if q >= height then height - 1 else q
  }

  /** Three groups of v rows, from row `first` of the image on. */
  ghost predicate Neighbourhood(height: nat, rows: seq<int>, v: nat, first: int) {
    |rows| == 3 * v && forall i :: 0 <= i < |rows| ==> rows[i] == Clamped(height, first + i)
  }
}
