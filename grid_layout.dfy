/**
 * `DocumentGridViewController.Config.columns(for:)`: how many document
 * cells share a row at a given content width. Widths are reals; `CGFloat`
 * rounding and NaN are not modelled.
 */
module DocumentGridLayout {

  /** The widths at which one more column fits, in increasing order. */
  const Thresholds: seq<real> := [400.0, 700.0, 1000.0]

  /** `columns(for:)`: 2 below 400, 3 below 700, 4 below 1000, otherwise 5. */
  function Columns(width: real): (n: int)
    ensures 2 <= n <= 5
  {
    if width < 400.0 then 2
    else if width < 700.0 then 3
    else if width < 1000.0 then 4
    else 5
  }

  /** How many of `thresholds` the width has reached. */
  function Reached(thresholds: seq<real>, width: real): (n: nat)
    ensures n <= |thresholds|
  {
    if thresholds == [] then 0
    else (if thresholds[0] <= width then 1 else 0) + Reached(thresholds[1..], width)
  }

  /** The count is two plus one per threshold the width has reached. */
  lemma ColumnsCountThresholds(width: real)
    ensures Columns(width) == 2 + Reached(Thresholds, width)
  {
    assert Thresholds[1..] == [700.0, 1000.0];
    assert Thresholds[1..][1..] == [1000.0];
    assert Thresholds[1..][1..][1..] == [];
    assert Reached([1000.0], width) == if 1000.0 <= width then 1 else 0;
    assert Reached([700.0, 1000.0], width) == (if 700.0 <= width then 1 else 0) + Reached([1000.0], width);
  }

  /** The four width ranges, each in both directions. */
  lemma ColumnRanges(width: real)
    ensures Columns(width) == 2 <==> width < 400.0
    ensures Columns(width) == 3 <==> 400.0 <= width < 700.0
    ensures Columns(width) == 4 <==> 700.0 <= width < 1000.0
    ensures Columns(width) == 5 <==> 1000.0 <= width
  {
  }

  /** A wider container never gets fewer columns. */
  lemma {:induction false} ReachedMonotonic(thresholds: seq<real>, narrow: real, wide: real)
    requires narrow <= wide
    ensures Reached(thresholds, narrow) <= Reached(thresholds, wide)
    decreases |thresholds|
  {
    if thresholds != [] {
      ReachedMonotonic(thresholds[1..], narrow, wide);
    }
  }

  lemma ColumnsMonotonic(narrow: real, wide: real)
    requires narrow <= wide
    ensures Columns(narrow) <= Columns(wide)
  {
    ColumnsCountThresholds(narrow);
    ColumnsCountThresholds(wide);
    ReachedMonotonic(Thresholds, narrow, wide);
  }
}
