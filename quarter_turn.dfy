/** `rotate_cw`, `rotate_ccw`, `rotate_2d`: 90-degree turns of a rectangular grid. */
module QuarterTurn {

  import opened Grid

  /** The rows x cols grid a turned clockwise: a cols x rows grid whose cell (y, x) is a[rows-1-x][y]. */
  function Clockwise<T>(a: seq<seq<T>>, cols: nat): (r: seq<seq<T>>)
    requires Rect(a, |a|, cols)
    ensures Rect(r, cols, |a|)
  {
    seq(cols, y requires 0 <= y < cols => seq(|a|, x requires 0 <= x < |a| => a[|a| - 1 - x][y]))
  }

  /** The rows x cols grid a turned counter-clockwise: a cols x rows grid whose cell (y, x) is a[x][cols-1-y]. */
  function Counterclockwise<T>(a: seq<seq<T>>, cols: nat): (r: seq<seq<T>>)
    requires Rect(a, |a|, cols)
    ensures Rect(r, cols, |a|)
  {
    seq(cols, y requires 0 <= y < cols => seq(|a|, x requires 0 <= x < |a| => a[x][cols - 1 - y]))
  }

  /** Turning counter-clockwise undoes a clockwise turn. */
  lemma CounterclockwiseUndoesClockwise<T>(a: seq<seq<T>>, cols: nat)
    requires Rect(a, |a|, cols)
    ensures Counterclockwise(Clockwise(a, cols), |a|) == a
  {
    var b := Counterclockwise(Clockwise(a, cols), |a|);
    forall y | 0 <= y < |a|
      ensures b[y] == a[y]
    {
      assert |b[y]| == cols;
    }
  }

  /** Turning clockwise undoes a counter-clockwise turn. */
  lemma ClockwiseUndoesCounterclockwise<T>(a: seq<seq<T>>, cols: nat)
    requires Rect(a, |a|, cols)
    ensures Clockwise(Counterclockwise(a, cols), |a|) == a
  {
    var b := Clockwise(Counterclockwise(a, cols), |a|);
    forall y | 0 <= y < |a|
      ensures b[y] == a[y]
    {
      assert |b[y]| == cols;
    }
  }

  /** A clockwise turn keeps the multiset of cells. */
  lemma {:induction false} ClockwiseCells<T>(a: seq<seq<T>>, cols: nat)
    requires Rect(a, |a|, cols)
    ensures multiset(Flatten(Clockwise(a, cols))) == multiset(Flatten(a))
    decreases |a|
  {
    var n := |a|;
    if n == 0 {
      FlattenEmptyRows(Clockwise(a, cols));
    } else {
      var top := a[..n - 1];
      var last := a[n - 1];
      ClockwiseCells(top, cols);
      ClockwiseSplit(a, cols);
      PrependColumnCells(last, Clockwise(top, cols));
      assert a == top + [last];
    }
  }

  /** The clockwise turn of a grid is the turn of all but its last row with that row prepended as a column. */
  lemma ClockwiseSplit<T>(a: seq<seq<T>>, cols: nat)
    requires |a| > 0 && Rect(a, |a|, cols)
    ensures Clockwise(a, cols) == PrependColumn(a[|a| - 1], Clockwise(a[..|a| - 1], cols))
  {
    var n := |a|;
    var top := a[..n - 1];
    var c, p := Clockwise(a, cols), PrependColumn(a[n - 1], Clockwise(top, cols));
    forall y | 0 <= y < cols
      ensures c[y] == p[y]
    {
      assert forall x :: 1 <= x < n ==> c[y][x] == top[n - 2 - (x - 1)][y];
    }
  }

  /** A counter-clockwise turn keeps the multiset of cells. */
  lemma CounterclockwiseCells<T>(a: seq<seq<T>>, cols: nat)
    requires Rect(a, |a|, cols)
    ensures multiset(Flatten(Counterclockwise(a, cols))) == multiset(Flatten(a))
  {
    ClockwiseUndoesCounterclockwise(a, cols);
    ClockwiseCells(Counterclockwise(a, cols), |a|);
  }

  /** rotate_cw: fills a fresh cols x rows grid cell by cell. */
  method RotateCw<T>(a: seq<seq<T>>, zero: T) returns (out: seq<seq<T>>)
    requires |a| > 0 && Rect(a, |a|, |a[0]|)
    ensures out == Clockwise(a, |a[0]|)
  {
    var rows, cols := |a|, |a[0]|;
    var row := seq(rows, _ => zero);
    out := seq(cols, _ => row);
    for y := 0 to cols
      invariant Rect(out, cols, rows)
      invariant forall k :: 0 <= k < y ==> out[k] == Clockwise(a, cols)[k]
    {
      for x := 0 to rows
        invariant Rect(out, cols, rows)
        invariant forall k :: 0 <= k < y ==> out[k] == Clockwise(a, cols)[k]
        invariant forall j :: 0 <= j < x ==> out[y][j] == a[rows - 1 - j][y]
      {
        var rotX := rows - 1 - x;
        out := out[y := out[y][x := a[rotX][y]]];
      }
      assert out[y] == Clockwise(a, cols)[y];
    }
  }

  /** rotate_ccw: fills a fresh cols x rows grid cell by cell. */
  method RotateCcw<T>(a: seq<seq<T>>, zero: T) returns (out: seq<seq<T>>)
    requires |a| > 0 && Rect(a, |a|, |a[0]|)
    ensures out == Counterclockwise(a, |a[0]|)
  {
    var rows, cols := |a|, |a[0]|;
    var row := seq(rows, _ => zero);
    out := seq(cols, _ => row);
    for y := 0 to cols
      invariant Rect(out, cols, rows)
      invariant forall k :: 0 <= k < y ==> out[k] == Counterclockwise(a, cols)[k]
    {
      var rotY := cols - 1 - y;
      for x := 0 to rows
        invariant Rect(out, cols, rows)
        invariant forall k :: 0 <= k < y ==> out[k] == Counterclockwise(a, cols)[k]
        invariant forall j :: 0 <= j < x ==> out[y][j] == a[j][rotY]
      {
        out := out[y := out[y][x := a[x][rotY]]];
      }
      assert out[y] == Counterclockwise(a, cols)[y];
    }
  }

  /** rotate_2d: a clockwise or a counter-clockwise turn; either swaps the row and column counts. */
  function Rotated2d<T>(a: seq<seq<T>>, cw: bool): (r: seq<seq<T>>)
    requires |a| > 0 && Rect(a, |a|, |a[0]|)
    ensures Rect(r, |a[0]|, |a|)
  {
    if cw then Clockwise(a, |a[0]|) else Counterclockwise(a, |a[0]|)
  }
}
