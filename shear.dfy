/** `slant`: row i of a rows x cols grid is shifted by the truncation of i * cols / rows. */
module Shear {

  import opened Grid
  import opened RowRotation

  /**
   * The shift of row i: i * cols / rows truncated towards zero, negated when
   * unscrambling. The source computes it in single precision; this is the exact value.
   */
  function Roll(cols: nat, rows: nat, i: nat, forward: bool): (r: int)
    requires i < rows
    ensures var m := if forward then r else -r;
      0 <= m <= cols && m * rows <= cols * i < m * rows + rows
  {
    var m := (cols * i) / rows;
    RollBound(cols, rows, i);
    if forward then m else -m
  }

  /** The truncated quotient m of cols * i by rows is within [0, cols]. */
  lemma RollBound(cols: nat, rows: nat, i: nat)
    requires i < rows
    ensures var m := (cols * i) / rows;
      0 <= m <= cols && m * rows <= cols * i < m * rows + rows
  {
    var x := cols * i;
    var m := x / rows;
    assert x == m * rows + x % rows;
    assert x <= cols * rows by {
      MulMonotone(cols, i, rows);
    }
    if m > cols {
      MulMonotone(rows, cols + 1, m);
      assert false;
    }
  }

  lemma MulMonotone(c: nat, x: nat, y: nat)
    requires x <= y
    ensures c * x <= c * y && x * c <= y * c
  {
  }

  /** The grid with every row shifted by its roll. */
  function Slanted<T>(a: seq<seq<T>>, forward: bool): (r: seq<seq<T>>)
    requires |a| > 0 && Rect(a, |a|, |a[0]|)
    ensures Rect(r, |a|, |a[0]|)
  {
    seq(|a|, i requires 0 <= i < |a| => Rotated(a[i], Roll(|a[0]|, |a|, i, forward)))
  }

  /** Unslanting undoes slanting, and slanting undoes unslanting. */
  lemma SlantRoundTrip<T>(a: seq<seq<T>>)
    requires |a| > 0 && Rect(a, |a|, |a[0]|)
    ensures Slanted(Slanted(a, true), false) == a
    ensures Slanted(Slanted(a, false), true) == a
  {
    var rows, cols := |a|, |a[0]|;
    var f, b := Slanted(a, true), Slanted(a, false);
    forall i | 0 <= i < rows
      ensures Slanted(f, false)[i] == a[i] && Slanted(b, true)[i] == a[i]
    {
      var n := Roll(cols, rows, i, true);
      assert Roll(cols, rows, i, false) == -n;
      RotateRoundTrip(a[i], n);
      RotateRoundTrip(a[i], -n);
    }
  }

  /** Slanting keeps the multiset of cells. */
  lemma SlantCells<T>(a: seq<seq<T>>, forward: bool)
    requires |a| > 0 && Rect(a, |a|, |a[0]|)
    ensures multiset(Flatten(Slanted(a, forward))) == multiset(Flatten(a))
  {
    RowwiseCells(Slanted(a, forward), a);
  }

  /** slant: replaces row after row of the grid by its rotation. */
  method Slant<T>(a: seq<seq<T>>, forward: bool, zero: T) returns (out: seq<seq<T>>)
    requires |a| > 0 && Rect(a, |a|, |a[0]|)
    ensures out == Slanted(a, forward)
  {
    var rows, cols := |a|, |a[0]|;
    out := a;
    for i := 0 to rows
      invariant |out| == rows
      invariant forall k :: 0 <= k < i ==> out[k] == Slanted(a, forward)[k]
      invariant forall k :: i <= k < rows ==> out[k] == a[k]
    {
      var roll := Roll(cols, rows, i, forward);
      var row := Rotate(out[i], roll, zero);
      out := out[i := row];
    }
  }
}
