/**
 * `doScramble` and `generateKey`: three scramble-slant-scramble passes with a
 * clockwise turn after the first and a counter-clockwise turn after the second,
 * and the 128 x 128 key matrix shuffled by that network.
 */
module Network {

  import opened Seqs
  import opened Grid
  import opened KeyExpansion
  import opened RowScramble
  import opened Shear
  import opened QuarterTurn

  /** The grid preconditions of one pass over a rows x cols grid. */
  predicate Fits<T>(a: seq<seq<T>>, key: seq<int>) {
    |a| > 0 && Rect(a, |a|, |a[0]|) && |Accepted(key, |a|)| <= |a|
  }

  /** One pass of doScramble: scramble, slant, scramble. */
  function Pass<T>(a: seq<seq<T>>, key: seq<int>, forward: bool, zero: T): (r: seq<seq<T>>)
    requires Fits(a, key)
    ensures Rect(r, |a|, |a[0]|) && Fits(r, key)
  {
    var s1 := Scrambled(a, key, forward, zero);
    var l := Slanted(s1, forward);
    Scrambled(l, key, forward, zero)
  }

  /** The backward pass undoes the forward pass and the forward pass undoes the backward pass. */
  lemma PassRoundTrip<T>(a: seq<seq<T>>, key: seq<int>, zero: T)
    requires |a| > 0 && Rect(a, |a|, |a[0]|) && Covers(key, |a|)
    ensures Pass(Pass(a, key, true, zero), key, false, zero) == a
    ensures Pass(Pass(a, key, false, zero), key, true, zero) == a
  {
    var f1 := Scrambled(a, key, true, zero);
    var f2 := Slanted(f1, true);
    var f3 := Scrambled(f2, key, true, zero);
    ScrambleRoundTrip(f2, key, zero);
    SlantRoundTrip(f1);
    ScrambleRoundTrip(a, key, zero);
    var b1 := Scrambled(a, key, false, zero);
    var b2 := Slanted(b1, false);
    var b3 := Scrambled(b2, key, false, zero);
    ScrambleRoundTrip(b2, key, zero);
    SlantRoundTrip(b1);
  }

  /** A pass with a covering key keeps the multiset of cells. */
  lemma PassCells<T>(a: seq<seq<T>>, key: seq<int>, forward: bool, zero: T)
    requires |a| > 0 && Rect(a, |a|, |a[0]|) && Covers(key, |a|)
    ensures multiset(Flatten(Pass(a, key, forward, zero))) == multiset(Flatten(a))
  {
    var s1 := Scrambled(a, key, forward, zero);
    var l := Slanted(s1, forward);
    ScrambleCells(a, key, forward, zero);
    SlantCells(s1, forward);
    ScrambleCells(l, key, forward, zero);
  }

  /**
   * doScramble: the same eleven stages in both directions, only the direction
   * flag differs. The source requires a non-empty grid with non-empty rows and
   * no more accepted key entries than rows, both before and after the turn.
   */
  function DoScramble<T>(a: seq<seq<T>>, key: seq<int>, forward: bool, zero: T): (r: seq<seq<T>>)
    requires |a| > 0 && |a[0]| > 0 && Rect(a, |a|, |a[0]|)
    requires |Accepted(key, |a|)| <= |a| && |Accepted(key, |a[0]|)| <= |a[0]|
    ensures Rect(r, |a|, |a[0]|)
  {
    var p1 := Pass(a, key, forward, zero);
    var t := Rotated2d(p1, true);
    var p2 := Pass(t, key, forward, zero);
    var u := Rotated2d(p2, false);
    Pass(u, key, forward, zero)
  }

  /** With a key that covers both the row and the column count, unscrambling undoes scrambling and vice versa. */
  lemma NetworkRoundTrip<T>(a: seq<seq<T>>, key: seq<int>, zero: T)
    requires |a| > 0 && |a[0]| > 0 && Rect(a, |a|, |a[0]|)
    requires Covers(key, |a|) && Covers(key, |a[0]|)
    ensures DoScramble(DoScramble(a, key, true, zero), key, false, zero) == a
    ensures DoScramble(DoScramble(a, key, false, zero), key, true, zero) == a
  {
    NetworkUndo(a, key, true, zero);
    NetworkUndo(a, key, false, zero);
  }

  /** A key that is a permutation of [0, size), with size at least the row and the column count, makes the network invertible. */
  lemma PermutationKeyRoundTrip<T>(a: seq<seq<T>>, key: seq<int>, size: nat, zero: T)
    requires |a| > 0 && |a[0]| > 0 && Rect(a, |a|, |a[0]|)
    requires IsPermutation(key, size) && |a| <= size && |a[0]| <= size
    ensures Covers(key, |a|) && Covers(key, |a[0]|) &&
      DoScramble(DoScramble(a, key, true, zero), key, false, zero) == a
  {
    PermutationKeyCovers(key, size, |a|);
    PermutationKeyCovers(key, size, |a[0]|);
    NetworkRoundTrip(a, key, zero);
  }

  /** The network in the opposite direction undoes the network in one direction. */
  lemma NetworkUndo<T>(a: seq<seq<T>>, key: seq<int>, forward: bool, zero: T)
    requires |a| > 0 && |a[0]| > 0 && Rect(a, |a|, |a[0]|)
    requires Covers(key, |a|) && Covers(key, |a[0]|)
    ensures DoScramble(DoScramble(a, key, forward, zero), key, !forward, zero) == a
  {
    var rows, cols := |a|, |a[0]|;
    var p1 := Pass(a, key, forward, zero);
    var t := Clockwise(p1, cols);
    var p2 := Pass(t, key, forward, zero);
    var u := Counterclockwise(p2, rows);
    var p3 := Pass(u, key, forward, zero);
    assert DoScramble(a, key, forward, zero) == p3;
    PassRoundTrip(u, key, zero);
    assert Pass(p3, key, !forward, zero) == u;
    ClockwiseUndoesCounterclockwise(p2, rows);
    assert Clockwise(u, cols) == p2;
    PassRoundTrip(t, key, zero);
    assert Pass(p2, key, !forward, zero) == t;
    CounterclockwiseUndoesClockwise(p1, cols);
    assert Counterclockwise(t, rows) == p1;
    PassRoundTrip(a, key, zero);
    assert Pass(p1, key, !forward, zero) == a;
  }

  /** With a key that covers both dimensions, the network in either direction keeps the multiset of cells. */
  lemma NetworkCells<T>(a: seq<seq<T>>, key: seq<int>, forward: bool, zero: T)
    requires |a| > 0 && |a[0]| > 0 && Rect(a, |a|, |a[0]|)
    requires Covers(key, |a|) && Covers(key, |a[0]|)
    ensures multiset(Flatten(DoScramble(a, key, forward, zero))) == multiset(Flatten(a))
  {
    var rows, cols := |a|, |a[0]|;
    var p1 := Pass(a, key, forward, zero);
    var t := Clockwise(p1, cols);
    var p2 := Pass(t, key, forward, zero);
    var u := Counterclockwise(p2, rows);
    PassCells(a, key, forward, zero);
    ClockwiseCells(p1, cols);
    PassCells(t, key, forward, zero);
    CounterclockwiseCells(p2, rows);
    PassCells(u, key, forward, zero);
  }

  /** The rows x n matrix whose cell (y, x) holds y * n + x. */
  function Identity(rows: nat, n: nat): (r: seq<seq<int>>)
    ensures Rect(r, rows, n)
  {
    seq(rows, y requires 0 <= y < rows => seq(n, x requires 0 <= x < n => y * n + x))
  }

  /** Read row by row, the identity matrix counts 0, 1, 2, ... */
  lemma {:induction false} FlattenIdentity(rows: nat, n: nat)
    ensures Flatten(Identity(rows, n)) == Range(rows * n)
    decreases rows
  {
    if rows > 0 {
      var r := rows - 1;
      assert Identity(rows, n)[..r] == Identity(r, n);
      FlattenIdentity(r, n);
      var last := Identity(rows, n)[r];
      assert rows * n == r * n + n;
      assert Range(rows * n) == Range(r * n) + last;
    }
  }

  /** A 32-byte digest yields a key that covers any count from 1 to KSS. */
  lemma ExtendedKeyCovers(digest: seq<Byte>, n: nat)
    requires |digest| == 32 && n <= KSS
    ensures Covers(ExtendedKey(digest), n)
  {
    ExtendedKeyIsPermutation(digest);
    PermutationKeyCovers(ExtendedKey(digest), KSS, n);
  }

  /** The key of generateKey: the KSS x KSS identity matrix shuffled forward by the extended digest, read row by row. */
  function GeneratedKey(digest: seq<Byte>): (out: seq<int>)
    requires |digest| == 32
    ensures |out| == KSS * KSS
  {
    ExtendedKeyCovers(digest, KSS);
    var grid := DoScramble(Identity(KSS, KSS), ExtendedKey(digest), true, 0);
    FlattenLength(grid, KSS, KSS);
    Flatten(grid)
  }

  /** The generated key is a permutation of the KSS * KSS pixel positions. */
  lemma GeneratedKeyIsPermutation(digest: seq<Byte>)
    requires |digest| == 32
    ensures IsPermutation(GeneratedKey(digest), KSS * KSS)
  {
    var id := Identity(KSS, KSS);
    ExtendedKeyCovers(digest, KSS);
    NetworkCells(id, ExtendedKey(digest), true, 0);
    FlattenIdentity(KSS, KSS);
  }

  /**
   * An image with 1 to KSS * KSS rows and columns, scrambled and then
   * unscrambled with the key of the same digest, comes back unchanged.
   */
  lemma ImageRoundTrip<T>(digest: seq<Byte>, pixels: seq<seq<T>>, zero: T)
    requires |digest| == 32
    requires 0 < |pixels| <= KSS * KSS && 0 < |pixels[0]| <= KSS * KSS && Rect(pixels, |pixels|, |pixels[0]|)
    ensures var key := GeneratedKey(digest);
      Covers(key, |pixels|) && Covers(key, |pixels[0]|) &&
      DoScramble(DoScramble(pixels, key, true, zero), key, false, zero) == pixels
  {
    var key := GeneratedKey(digest);
    GeneratedKeyIsPermutation(digest);
    PermutationKeyCovers(key, KSS * KSS, |pixels|);
    PermutationKeyCovers(key, KSS * KSS, |pixels[0]|);
    NetworkRoundTrip(pixels, key, zero);
  }

  /** The key-matrix fill of generateKey: a fresh n x n matrix written cell by cell with y * n + x. */
  method FillIdentity(n: nat) returns (grid: seq<seq<int>>)
    ensures grid == Identity(n, n)
  {
    var row := seq(n, _ => 0);
    grid := seq(n, _ => row);
    for y := 0 to n
      invariant Rect(grid, n, n)
      invariant forall k :: 0 <= k < y ==> grid[k] == Identity(n, n)[k]
    {
      for x := 0 to n
        invariant Rect(grid, n, n)
        invariant forall k :: 0 <= k < y ==> grid[k] == Identity(n, n)[k]
        invariant forall j :: 0 <= j < x ==> grid[y][j] == y * n + j
      {
        grid := grid[y := grid[y][x := y * n + x]];
      }
      assert grid[y] == Identity(n, n)[y];
    }
  }

  /** The final loop of generateKey: the rows appended one after the other. */
  method Concatenate(grid: seq<seq<int>>) returns (out: seq<int>)
    ensures out == Flatten(grid)
  {
    out := [];
    for k := 0 to |grid|
      invariant out == Flatten(grid[..k])
    {
      assert grid[..k + 1][..k] == grid[..k];
      out := out + grid[k];
    }
    assert grid[..|grid|] == grid;
  }

  /** generateKey: extends the digest, fills the identity matrix, runs the network forward and concatenates its rows. */
  method GenerateKey(digest: seq<Byte>) returns (out: seq<int>)
    requires |digest| == 32
    ensures out == GeneratedKey(digest)
    ensures IsPermutation(out, KSS * KSS)
  {
    var vect := ExtendKey(digest);
    ExtendedKeyCovers(digest, KSS);
    var grid := FillIdentity(KSS);
    grid := DoScramble(grid, vect, true, 0);
    out := Concatenate(grid);
    GeneratedKeyIsPermutation(digest);
  }
}
