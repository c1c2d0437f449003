/** Index ranges and permutations of them, shared by the key expander and the grid stages. */
module Seqs {

  /** The ordered list 0, 1, ..., n-1. */
  function Range(n: nat): (r: seq<int>)
    ensures |r| == n
    ensures forall i :: 0 <= i < n ==> r[i] == i
  {
    seq(n, i => i)
  }

  /** p lists every value of [0, n) exactly once. */
  ghost predicate IsPermutation(p: seq<int>, n: nat) {
    multiset(p) == multiset(Range(n))
  }

  /** The list s read through the index list p: element k is s[p[k]]. */
  function Permute<T>(s: seq<T>, p: seq<int>): (r: seq<T>)
    requires forall k :: 0 <= k < |p| ==> 0 <= p[k] < |s|
    ensures |r| == |p|
  {
    seq(|p|, k requires 0 <= k < |p| => s[p[k]])
  }

  lemma {:induction false} RangeCount(n: nat, v: int)
    ensures multiset(Range(n))[v] == if 0 <= v < n then 1 else 0
  {
    if n > 0 {
      assert Range(n) == Range(n - 1) + [n - 1];
      RangeCount(n - 1, v);
    }
  }

  /** Two equal entries at different places are counted twice. */
  lemma DuplicateCount<T>(s: seq<T>, i: int, j: int)
    requires 0 <= i < j < |s| && s[i] == s[j]
    ensures multiset(s)[s[i]] >= 2
  {
    assert s == s[..j] + [s[j]] + s[j + 1..];
    assert s[..j][i] == s[i];
    assert s[i] in multiset(s[..j]);
  }

  /** A permutation of [0, n) has length n and only values in [0, n). */
  lemma PermutationRange(p: seq<int>, n: nat)
    requires IsPermutation(p, n)
    ensures |p| == n
    ensures forall j :: 0 <= j < |p| ==> 0 <= p[j] < n
  {
    calc {
      |p|;
      |multiset(p)|;
      |multiset(Range(n))|;
      n;
    }
    forall j | 0 <= j < |p|
      ensures 0 <= p[j] < n
    {
      assert p[j] in multiset(p);
      RangeCount(n, p[j]);
    }
  }

  /** A permutation of [0, n) repeats no value. */
  lemma PermutationDistinct(p: seq<int>, n: nat)
    requires IsPermutation(p, n)
    ensures forall i, j :: 0 <= i < j < |p| ==> p[i] != p[j]
  {
    forall i, j | 0 <= i < j < |p|
      ensures p[i] != p[j]
    {
      if p[i] == p[j] {
        DuplicateCount(p, i, j);
        RangeCount(n, p[i]);
        assert false;
      }
    }
  }

  /** A permutation of [0, n) contains every value of [0, n). */
  lemma PermutationCovers(p: seq<int>, n: nat)
    requires IsPermutation(p, n)
    ensures forall v :: 0 <= v < n ==> v in p
  {
    forall v | 0 <= v < n
      ensures v in p
    {
      RangeCount(n, v);
      assert v in multiset(p);
    }
  }

  lemma Cancel<T>(a: multiset<T>, b: multiset<T>, x: T)
    requires a + multiset{x} == b + multiset{x}
    ensures a == b
  {
    assert a == (a + multiset{x}) - multiset{x};
    assert b == (b + multiset{x}) - multiset{x};
  }

  /** Reading a list through a permutation of its indices keeps its multiset of elements. */
  lemma {:induction false} PermuteMultiset<T>(s: seq<T>, p: seq<int>)
    requires IsPermutation(p, |s|)
    ensures forall k :: 0 <= k < |p| ==> 0 <= p[k] < |s|
    ensures multiset(Permute(s, p)) == multiset(s)
    decreases |s|
  {
    PermutationRange(p, |s|);
    if |s| > 0 {
      var n := |s| - 1;
      PermutationCovers(p, |s|);
      assert n in p;
      var j :| 0 <= j < |p| && p[j] == n;
      var q := p[..j] + p[j + 1..];
      DropFromPermutation(p, j);
      PermuteMultiset(s[..n], q);
      PermutationDistinct(p, |s|);
      var t := Permute(s, p);
      var u := Permute(s[..n], q);
      PermuteDrop(s, p, j);
      Splice(t, j);
      assert s == s[..n] + [s[n]];
    }
  }

  /** Dropping index j from the index list drops entry j from the list read through it. */
  lemma PermuteDrop<T>(s: seq<T>, p: seq<int>, j: int)
    requires 0 <= j < |p| && 0 < |s|
    requires forall k :: 0 <= k < |p| ==> 0 <= p[k] < |s|
    requires forall k :: 0 <= k < |p| && k != j ==> p[k] < |s| - 1
    ensures var t := Permute(s, p);
      Permute(s[..|s| - 1], p[..j] + p[j + 1..]) == t[..j] + t[j + 1..]
  {
    var t := Permute(s, p);
    var q := p[..j] + p[j + 1..];
    var u := Permute(s[..|s| - 1], q);
    forall k | 0 <= k < |u|
      ensures u[k] == (t[..j] + t[j + 1..])[k]
    {
      if k < j {
        assert q[k] == p[k];
      } else {
        assert q[k] == p[k + 1];
      }
    }
  }

  /** Taking entry j out of a list takes one copy of it out of the multiset. */
  lemma Splice<T>(t: seq<T>, j: int)
    requires 0 <= j < |t|
    ensures multiset(t) == multiset(t[..j] + t[j + 1..]) + multiset{t[j]}
  {
    assert t == t[..j] + [t[j]] + t[j + 1..];
  }

  /** Removing the largest value from a permutation of [0, n + 1) leaves a permutation of [0, n). */
  lemma DropFromPermutation(p: seq<int>, j: int)
    requires 0 <= j < |p| && IsPermutation(p, |p|) && p[j] == |p| - 1
    ensures IsPermutation(p[..j] + p[j + 1..], |p| - 1)
  {
    var n := |p| - 1;
    var q := p[..j] + p[j + 1..];
    assert p == p[..j] + [n] + p[j + 1..];
    assert Range(n + 1) == Range(n) + [n];
    assert multiset(p) == multiset(q) + multiset{n};
    Cancel(multiset(q), multiset(Range(n)), n);
  }
}
