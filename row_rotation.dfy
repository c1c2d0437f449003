/** `rotate`: circular left shift of one row. */
module RowRotation {

  /**
   * The shift after the normalisation of a negative amount n to len - |n|: for
   * an amount within [-len, len] it is within [0, len].
   */
  function Normalized(len: int, n: int): (m: int)
    ensures 0 <= n ==> m == n
    ensures -len <= n <= len ==> 0 <= m <= len
  {
    if n < 0 then len - (-n) else n
  }

  /** The normalised shift selects the same rotation: it agrees with n modulo len. */
  lemma NormalizedResidue(len: int, n: int)
    requires len > 0
    ensures Normalized(len, n) % len == n % len
  {
    if n < 0 {
      var q, r := n / len, n % len;
      assert n == q * len + r;
      assert len + n == (q + 1) * len + r;
      DivModUnique(len + n, len, q + 1, r);
    }
  }

  /** The row shifted circularly left: it starts at the (normalised) shift and wraps around. */
  function Rotated<T>(row: seq<T>, n: int): (r: seq<T>)
    requires -|row| <= n
    ensures |r| == |row|
    ensures multiset(r) == multiset(row)
  {
    if |row| == 0 then row
    else
      var k := Normalized(|row|, n) % |row|;
      assert row == row[..k] + row[k..];
      row[k..] + row[..k]
  }

  lemma MulAtLeast(a: int, b: int)
    requires a >= 1 && b > 0
    ensures a * b >= b
  {
  }

  /** Euclidean division is determined by a quotient and a remainder in [0, len). */
  lemma DivModUnique(a: int, len: int, q: int, r: int)
    requires len > 0 && 0 <= r < len && a == q * len + r
    ensures a % len == r && a / len == q
  {
    var q', r' := a / len, a % len;
    assert a == q' * len + r';
    if q > q' {
      MulAtLeast(q - q', len);
      assert false;
    } else if q < q' {
      MulAtLeast(q' - q, len);
      assert false;
    }
  }

  /** Adding i to m moves m's remainder by i, wrapping once past len. */
  lemma ModShift(m: int, len: int, i: int)
    requires len > 0 && m >= 0 && 0 <= i < len
    ensures (i + m) % len == if i < len - m % len then i + m % len else i + m % len - len
  {
    var k := m % len;
    var q := m / len;
    assert m == q * len + k;
    if i < len - k {
      DivModUnique(i + m, len, q, i + k);
    } else {
      assert (q + 1) * len == q * len + len;
      DivModUnique(i + m, len, q + 1, i + k - len);
    }
  }

  /** Entry i of the shifted row is entry (i + n') mod |row| of the input, n' the normalised shift. */
  lemma RotatedAt<T>(row: seq<T>, n: int, i: int)
    requires -|row| <= n && 0 <= i < |row|
    ensures Rotated(row, n)[i] == row[(i + Normalized(|row|, n)) % |row|]
  {
    ModShift(Normalized(|row|, n), |row|, i);
  }

  /** The effective shift of an amount already within [-len, len]. */
  lemma ShiftOf(len: int, n: int)
    requires len > 0 && -len <= n <= len
    ensures Normalized(len, n) % len == if n == len || n == -len then 0 else if n < 0 then len + n else n
  {
    var m := Normalized(len, n);
    if m == len {
      DivModUnique(m, len, 1, 0);
    } else {
      DivModUnique(m, len, 0, m);
    }
  }

  /** Swapping the halves at k and then at the complementary point gives the row back. */
  lemma SwapBack<T>(row: seq<T>, k: int, k': int)
    requires 0 <= k < |row| && k' == if k == 0 then 0 else |row| - k
    ensures var s := row[k..] + row[..k]; s[k'..] + s[..k'] == row
  {
    var s := row[k..] + row[..k];
    if k == 0 {
      assert s == row;
    } else {
      assert s[k'..] == row[..k];
      assert s[..k'] == row[k..];
    }
  }

  /** Shifting by n and then by -n gives the row back. */
  lemma RotateRoundTrip<T>(row: seq<T>, n: int)
    requires -|row| <= n <= |row|
    ensures Rotated(Rotated(row, n), -n) == row
  {
    var len := |row|;
    if len > 0 {
      ShiftOf(len, n);
      ShiftOf(len, -n);
      var k := Normalized(len, n) % len;
      var k' := Normalized(len, -n) % len;
      SwapBack(row, k, k');
    }
  }

  /** rotate: fills a fresh row of the same length entry by entry. */
  method Rotate<T>(row: seq<T>, n: int, zero: T) returns (temp: seq<T>)
    requires -|row| <= n
    ensures temp == Rotated(row, n)
  {
    var m := n;
    if m < 0 {
      m := |row| - (-m);
    }
    temp := seq(|row|, _ => zero);
    for i := 0 to |row|
      invariant |temp| == |row|
      invariant forall j :: 0 <= j < i ==> temp[j] == row[(j + m) % |row|]
    {
      var offset := (i + m) % |row|;
      temp := temp[i := row[offset]];
    }
    forall j | 0 <= j < |row|
      ensures temp[j] == Rotated(row, n)[j]
    {
      RotatedAt(row, n, j);
    }
  }
}
