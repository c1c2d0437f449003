/**
 * `scramble`: the rows of a grid are gathered (forward) or scattered (backward)
 * through the key entries that name a row.
 */
module RowScramble {

  import opened Seqs
  import opened Grid

  /**
   * The key entries scramble acts on for a grid of n rows, in key order: those
   * in [0, n). A negative entry compares as a huge unsigned value and is
   * skipped like one that is too large.
   */
  function Accepted(key: seq<int>, n: nat): (r: seq<int>)
    ensures |r| <= |key|
    ensures forall j :: 0 <= j < |r| ==> 0 <= r[j] < n
  {
    if key == [] then []
    else
      var k := |key| - 1;
      Accepted(key[..k], n) + (if 0 <= key[k] < n then [key[k]] else [])
  }

  /** Each value in [0, n) is accepted as often as the key holds it; no other value is. */
  lemma {:induction false} AcceptedCount(key: seq<int>, n: nat, v: int)
    ensures multiset(Accepted(key, n))[v] == if 0 <= v < n then multiset(key)[v] else 0
    decreases |key|
  {
    if key != [] {
      var k := |key| - 1;
      var x, prev := key[k], Accepted(key[..k], n);
      AcceptedCount(key[..k], n, v);
      CountLast(key, v);
      if 0 <= x < n {
        CountLast(prev + [x], v);
        assert (prev + [x])[..|prev|] == prev;
        assert multiset(Accepted(key, n))[v] == multiset(prev)[v] + if x == v then 1 else 0;
      } else {
        assert Accepted(key, n) == prev + [];
      }
    }
  }

  /** The last entry of s adds one occurrence of itself and none of any other value. */
  lemma CountLast(s: seq<int>, v: int)
    requires s != []
    ensures multiset(s)[v] == multiset(s[..|s| - 1])[v] + if s[|s| - 1] == v then 1 else 0
  {
    var k := |s| - 1;
    assert s == s[..k] + [s[k]];
    assert multiset(s) == multiset(s[..k]) + multiset{s[k]};
  }

  /** The entries accepted from a prefix of the key are a prefix of those accepted from the key. */
  lemma {:induction false} AcceptedPrefix(key: seq<int>, t: nat, n: nat)
    requires t <= |key|
    ensures Accepted(key[..t], n) <= Accepted(key, n)
    decreases |key|
  {
    if t < |key| {
      var k := |key| - 1;
      assert key[..k][..t] == key[..t];
      AcceptedPrefix(key[..k], t, n);
    } else {
      assert key[..t] == key;
    }
  }

  /** Extending the key by one entry extends the accepted entries by that entry when it names a row. */
  lemma AcceptedNext(key: seq<int>, t: nat, n: nat)
    requires t < |key|
    ensures 0 <= key[t] < n ==> Accepted(key[..t + 1], n) == Accepted(key[..t], n) + [key[t]]
    ensures !(0 <= key[t] < n) ==> Accepted(key[..t + 1], n) == Accepted(key[..t], n)
  {
    assert key[..t + 1][..t] == key[..t];
    assert Accepted(key[..t], n) + [] == Accepted(key[..t], n);
  }

  /** The accepted entries of key form a permutation of the n row indices. */
  ghost predicate Covers(key: seq<int>, n: nat) {
    var acc := Accepted(key, n);
    |acc| == n && IsPermutation(acc, n)
  }

  /** A key that is a permutation of [0, size) covers every row count n up to size. */
  lemma PermutationKeyCovers(key: seq<int>, size: nat, n: nat)
    requires IsPermutation(key, size) && n <= size
    ensures Covers(key, n)
  {
    var acc := Accepted(key, n);
    forall v
      ensures multiset(acc)[v] == multiset(Range(n))[v]
    {
      AcceptedCount(key, n, v);
      RangeCount(size, v);
      RangeCount(n, v);
    }
    assert multiset(acc) == multiset(Range(n));
    assert |acc| == |multiset(acc)| == |multiset(Range(n))| == n;
  }

  /** Row acc[j] receives a[j] for j in order, later writes winning; every other row is blank. */
  function Scatter<T>(a: seq<seq<T>>, acc: seq<int>, blank: seq<T>): (r: seq<seq<T>>)
    requires |acc| <= |a|
    requires forall j :: 0 <= j < |acc| ==> 0 <= acc[j] < |a|
    ensures |r| == |a|
    ensures (forall i :: 0 <= i < |a| ==> |a[i]| == |blank|) ==> forall y :: 0 <= y < |r| ==> |r[y]| == |blank|
    decreases |acc|
  {
    if acc == [] then seq(|a|, _ => blank)
    else
      var k := |acc| - 1;
      Scatter(a, acc[..k], blank)[acc[k] := a[k]]
  }

  /** Scattering one more row writes it over the previous scatter. */
  lemma ScatterNext<T>(a: seq<seq<T>>, acc: seq<int>, blank: seq<T>, v: int)
    requires |acc| < |a| && 0 <= v < |a|
    requires forall j :: 0 <= j < |acc| ==> 0 <= acc[j] < |a|
    ensures Scatter(a, acc + [v], blank) == Scatter(a, acc, blank)[v := a[|acc|]]
  {
    assert (acc + [v])[..|acc|] == acc;
  }

  /** With distinct targets, row acc[j] of the scattered grid is row j of a. */
  lemma {:induction false} ScatterAt<T>(a: seq<seq<T>>, acc: seq<int>, blank: seq<T>, j: nat)
    requires |acc| <= |a|
    requires forall i :: 0 <= i < |acc| ==> 0 <= acc[i] < |a|
    requires forall i, i' :: 0 <= i < i' < |acc| ==> acc[i] != acc[i']
    requires j < |acc|
    ensures Scatter(a, acc, blank)[acc[j]] == a[j]
    decreases |acc|
  {
    var k := |acc| - 1;
    if j < k {
      ScatterAt(a, acc[..k], blank, j);
    }
  }

  /** A row that no accepted entry names stays blank. */
  lemma {:induction false} ScatterMissed<T>(a: seq<seq<T>>, acc: seq<int>, blank: seq<T>, y: int)
    requires |acc| <= |a|
    requires forall i :: 0 <= i < |acc| ==> 0 <= acc[i] < |a|
    requires 0 <= y < |a| && y !in acc
    ensures Scatter(a, acc, blank)[y] == blank
    decreases |acc|
  {
    if acc != [] {
      var k := |acc| - 1;
      assert acc == acc[..k] + [acc[k]];
      ScatterMissed(a, acc[..k], blank, y);
    }
  }

  /** The row of the grid's first-row length filled with the element zero. */
  function Blank<T>(a: seq<seq<T>>, zero: T): (r: seq<T>)
    requires |a| > 0
    ensures |r| == |a[0]| && forall x :: 0 <= x < |r| ==> r[x] == zero
  {
    seq(|a[0]|, _ => zero)
  }

  /**
   * scramble: forward, row i of the result is row acc[i] of a; backward, row
   * acc[i] of the result is row i of a; rows not written are Blank. The source
   * demands no more accepted entries than rows.
   */
  function Scrambled<T>(a: seq<seq<T>>, key: seq<int>, forward: bool, zero: T): (r: seq<seq<T>>)
    requires |a| > 0 && |Accepted(key, |a|)| <= |a|
    ensures |r| == |a|
    ensures Rect(a, |a|, |a[0]|) ==> Rect(r, |a|, |a[0]|)
  {
    var acc := Accepted(key, |a|);
    if forward then
      var r := seq(|a|, y requires 0 <= y < |a| => if y < |acc| then a[acc[y]] else Blank(a, zero));
      assert forall y :: 0 <= y < |a| ==> r[y] == if y < |acc| then a[acc[y]] else Blank(a, zero);
      assert Rect(a, |a|, |a[0]|) ==> forall y :: 0 <= y < |a| ==> |r[y]| == |a[0]|;
      r
    else Scatter(a, acc, Blank(a, zero))
  }

  /** The rows scramble does not write are zero-filled, not left as they were. */
  lemma ScrambleBlankRows<T>(a: seq<seq<T>>, key: seq<int>, zero: T, y: int)
    requires |a| > 0 && |Accepted(key, |a|)| <= |a| && 0 <= y < |a|
    ensures y >= |Accepted(key, |a|)| ==> Scrambled(a, key, true, zero)[y] == Blank(a, zero)
    ensures y !in Accepted(key, |a|) ==> Scrambled(a, key, false, zero)[y] == Blank(a, zero)
  {
    if y !in Accepted(key, |a|) {
      ScatterMissed(a, Accepted(key, |a|), Blank(a, zero), y);
    }
  }

  /** With a covering key, the backward pass undoes the forward pass and the forward pass undoes the backward pass. */
  lemma ScrambleRoundTrip<T>(a: seq<seq<T>>, key: seq<int>, zero: T)
    requires |a| > 0 && Covers(key, |a|)
    ensures Scrambled(Scrambled(a, key, true, zero), key, false, zero) == a
    ensures Scrambled(Scrambled(a, key, false, zero), key, true, zero) == a
  {
    var acc := Accepted(key, |a|);
    PermutationRange(acc, |a|);
    PermutationDistinct(acc, |a|);
    PermutationCovers(acc, |a|);
    var f := Scrambled(a, key, true, zero);
    var fb := Scrambled(f, key, false, zero);
    forall y | 0 <= y < |a|
      ensures fb[y] == a[y]
    {
      assert y in acc;
      var j :| 0 <= j < |acc| && acc[j] == y;
      ScatterAt(f, acc, Blank(f, zero), j);
    }
    var b := Scrambled(a, key, false, zero);
    var bf := Scrambled(b, key, true, zero);
    forall y | 0 <= y < |a|
      ensures bf[y] == a[y]
    {
      ScatterAt(a, acc, Blank(a, zero), y);
    }
  }

  /** With a covering key, scrambling either way keeps the multiset of cells. */
  lemma ScrambleCells<T>(a: seq<seq<T>>, key: seq<int>, forward: bool, zero: T)
    requires |a| > 0 && Covers(key, |a|)
    ensures multiset(Flatten(Scrambled(a, key, forward, zero))) == multiset(Flatten(a))
  {
    var acc := Accepted(key, |a|);
    PermutationRange(acc, |a|);
    if forward {
      GatherCells(a, key, zero);
    } else {
      var b := Scrambled(a, key, false, zero);
      ScrambleRoundTrip(a, key, zero);
      GatherCells(b, key, zero);
    }
  }

  /** The forward pass with a covering key permutes the rows, so it keeps the cells. */
  lemma GatherCells<T>(a: seq<seq<T>>, key: seq<int>, zero: T)
    requires |a| > 0 && Covers(key, |a|)
    ensures multiset(Flatten(Scrambled(a, key, true, zero))) == multiset(Flatten(a))
  {
    var acc := Accepted(key, |a|);
    GatherIsPermute(a, key, zero);
    PermutationRange(acc, |a|);
    PermuteMultiset(a, acc);
    ReorderedRowsCells(Scrambled(a, key, true, zero), a);
  }

  /** When every row is named, the forward pass reads a through the accepted entries. */
  lemma GatherIsPermute<T>(a: seq<seq<T>>, key: seq<int>, zero: T)
    requires |a| > 0 && |Accepted(key, |a|)| == |a|
    ensures Scrambled(a, key, true, zero) == Permute(a, Accepted(key, |a|))
  {
  }

  /** scramble: walks the key, skipping entries that name no row, and copies one row per accepted entry. */
  method Scramble<T>(a: seq<seq<T>>, key: seq<int>, forward: bool, zero: T) returns (out: seq<seq<T>>)
    requires |a| > 0 && |Accepted(key, |a|)| <= |a|
    ensures out == Scrambled(a, key, forward, zero)
  {
    ghost var acc := Accepted(key, |a|);
    ghost var done: seq<int> := [];
    var row := seq(|a[0]|, _ => zero);
    out := seq(|a|, _ => row);
    var i := 0;
    for t := 0 to |key|
      invariant done == Accepted(key[..t], |a|) && |done| <= |acc|
      invariant i == |done|
      invariant |out| == |a|
      invariant forward ==> forall y :: 0 <= y < i ==> out[y] == a[done[y]]
      invariant forward ==> forall y :: i <= y < |a| ==> out[y] == row
      invariant !forward ==> out == Scatter(a, done, row)
    {
      var idx := key[t];
      assert |Accepted(key[..t + 1], |a|)| <= |acc| by {
        AcceptedPrefix(key, t + 1, |a|);
      }
      AcceptedNext(key, t, |a|);
      if idx < 0 || idx >= |a| {
        continue;
      }
      if forward {
        out := out[i := a[idx]];
      } else {
        ScatterNext(a, done, row, idx);
        out := out[idx := a[i]];
      }
      i := i + 1;
      done := done + [idx];
    }
    assert key[..|key|] == key;
    assert row == Blank(a, zero);
    if forward {
      GatheredRows(a, key, zero, out);
    }
  }

  /** A grid holding row acc[y] of a at each y < |acc| and blank rows after is the forward scramble. */
  lemma GatheredRows<T>(a: seq<seq<T>>, key: seq<int>, zero: T, out: seq<seq<T>>)
    requires |a| > 0 && |Accepted(key, |a|)| <= |a| && |out| == |a|
    requires var acc := Accepted(key, |a|);
      forall y :: 0 <= y < |a| ==> out[y] == if y < |acc| then a[acc[y]] else Blank(a, zero)
    ensures out == Scrambled(a, key, true, zero)
  {
  }
}
