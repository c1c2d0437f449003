/** Rectangular grids of cells, row-major, and the multiset of their cells. */
module Grid {

  import Seqs

  /** g has the given number of rows, each of the given length. */
  predicate Rect<T>(g: seq<seq<T>>, rows: nat, cols: nat) {
    |g| == rows && forall i :: 0 <= i < |g| ==> |g[i]| == cols
  }

  /** The rows of g appended one after the other. */
  function Flatten<T>(g: seq<seq<T>>): seq<T> {
    if g == [] then [] else Flatten(g[..|g| - 1]) + g[|g| - 1]
  }

  lemma {:induction false} FlattenConcat<T>(g: seq<seq<T>>, h: seq<seq<T>>)
    ensures Flatten(g + h) == Flatten(g) + Flatten(h)
    decreases |h|
  {
    if h == [] {
      assert g + h == g;
    } else {
      var n := |h| - 1;
      assert (g + h)[..|g + h| - 1] == g + h[..n];
      assert (g + h)[|g + h| - 1] == h[n];
      FlattenConcat(g, h[..n]);
      assert Flatten(h) == Flatten(h[..n]) + h[n];
    }
  }

  lemma {:induction false} FlattenLength<T>(g: seq<seq<T>>, rows: nat, cols: nat)
    requires Rect(g, rows, cols)
    ensures |Flatten(g)| == rows * cols
    decreases rows
  {
    if rows > 0 {
      FlattenLength(g[..rows - 1], rows - 1, cols);
    }
  }

  /** Replacing every row by one with the same multiset keeps the multiset of cells. */
  lemma {:induction false} RowwiseCells<T>(g: seq<seq<T>>, h: seq<seq<T>>)
    requires |g| == |h|
    requires forall i :: 0 <= i < |g| ==> multiset(g[i]) == multiset(h[i])
    ensures multiset(Flatten(g)) == multiset(Flatten(h))
    decreases |g|
  {
    if g != [] {
      var n := |g| - 1;
      RowwiseCells(g[..n], h[..n]);
    }
  }

  /** Reordering the rows keeps the multiset of cells. */
  lemma {:induction false} ReorderedRowsCells<T>(g: seq<seq<T>>, h: seq<seq<T>>)
    requires multiset(g) == multiset(h)
    ensures multiset(Flatten(g)) == multiset(Flatten(h))
    decreases |g|
  {
    if g != [] {
      var n := |g| - 1;
      var x := g[n];
      assert g == g[..n] + [x];
      assert x in multiset(h);
      var k :| 0 <= k < |h| && h[k] == x;
      assert h == h[..k] + [x] + h[k + 1..];
      var h' := h[..k] + h[k + 1..];
      assert multiset(g) == multiset(g[..n]) + multiset{x};
      assert multiset(h) == multiset(h') + multiset{x};
      Seqs.Cancel(multiset(g[..n]), multiset(h'), x);
      ReorderedRowsCells(g[..n], h');
      FlattenConcat(h[..k] + [x], h[k + 1..]);
      FlattenConcat(h[..k], [x]);
      FlattenConcat(h[..k], h[k + 1..]);
      assert Flatten([x]) == Flatten([x][..0]) + x;
    }
  }

  /** Grid whose row y is column entry c[y] followed by row g[y]. */
  function PrependColumn<T>(c: seq<T>, g: seq<seq<T>>): (h: seq<seq<T>>)
    requires |c| == |g|
    ensures |h| == |g|
  {
    seq(|g|, y requires 0 <= y < |g| => [c[y]] + g[y])
  }

  lemma {:induction false} PrependColumnCells<T>(c: seq<T>, g: seq<seq<T>>)
    requires |c| == |g|
    ensures multiset(Flatten(PrependColumn(c, g))) == multiset(c) + multiset(Flatten(g))
    decreases |g|
  {
    if g != [] {
      var n := |g| - 1;
      assert PrependColumn(c, g)[..n] == PrependColumn(c[..n], g[..n]);
      PrependColumnCells(c[..n], g[..n]);
      assert c == c[..n] + [c[n]];
    }
  }

  lemma {:induction false} FlattenEmptyRows<T>(g: seq<seq<T>>)
    requires forall i :: 0 <= i < |g| ==> g[i] == []
    ensures Flatten(g) == []
    decreases |g|
  {
    if g != [] {
      FlattenEmptyRows(g[..|g| - 1]);
    }
  }
}
