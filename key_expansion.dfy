/**
 * Key expansion: the 32 digest bytes, rotated by 0, 2, 4 and 6 bits, draw the
 * values of the pool [0, KSS) one by one without replacement.
 */
module KeyExpansion {

  import opened Seqs

  /** Side of the key matrix and size of the draw pool. */
  const KSS: nat := 128

  /** A digest byte, as the hash primitive yields it. */
  type Byte = bv8

  /**
   * The byte n rotated left by bits positions, computed as the C int expression
   * `(n >> (8 - bits)) | ((n << bits) & 0xFF)`.
   */
  function BitRot(n: Byte, bits: nat): (r: bv32)
    requires bits < 8
    ensures r < 256
    ensures r as bv8 == (n << (bits as bv8)) | (n >> (8 - bits as bv8))
  {
    var b := n as bv32;
    var s := bits as bv32;
    (b >> (8 - s)) | ((b << s) & 0xFF)
  }

  /** Every amount below 8 is Dafny's own 8-bit left rotation. */
  lemma BitRotIsRotateLeft(n: Byte, bits: nat)
    requires bits < 8
    ensures BitRot(n, bits) as bv8 == n.RotateLeft(bits)
  {
  }

  /** The draw indices of one round: every key byte rotated by rot bits. */
  function Round(key: seq<Byte>, rot: nat): (r: seq<int>)
    requires rot < 8
    ensures |r| == |key|
    ensures forall i :: 0 <= i < |r| ==> 0 <= r[i] < 256
  {
    seq(|key|, i requires 0 <= i < |key| => BitRot(key[i], rot) as int)
  }

  /** The draw indices of the rounds rot, rot + 2, ... below 8, in order. */
  function Rounds(key: seq<Byte>, rot: nat): (r: seq<int>)
    ensures |r| == if rot >= 8 then 0 else (9 - rot) / 2 * |key|
    ensures forall i :: 0 <= i < |r| ==> 0 <= r[i] < 256
    decreases 8 - rot
  {
    if rot >= 8 then [] else Round(key, rot) + Rounds(key, rot + 2)
  }

  lemma RoundsLength(key: seq<Byte>)
    ensures |Rounds(key, 0)| == 4 * |key|
  {
    assert Rounds(key, 8) == [];
    assert |Rounds(key, 6)| == |key|;
    assert |Rounds(key, 4)| == 2 * |key|;
    assert |Rounds(key, 2)| == 3 * |key|;
  }

  /**
   * Draw without replacement: each index picks pool[index mod |pool|], which is
   * then removed from the pool.
   */
  function Draw(pool: seq<int>, picks: seq<int>): (out: seq<int>)
    requires |picks| <= |pool|
    ensures |out| == |picks|
    decreases picks
  {
    if picks == [] then []
    else
      var idx := picks[0] % |pool|;
      [pool[idx]] + Draw(pool[..idx] + pool[idx + 1..], picks[1..])
  }

  /** The drawn values come from the pool, none more often than it holds them. */
  lemma {:induction false} DrawFromPool(pool: seq<int>, picks: seq<int>)
    requires |picks| <= |pool|
    ensures multiset(Draw(pool, picks)) <= multiset(pool)
    ensures |picks| == |pool| ==> multiset(Draw(pool, picks)) == multiset(pool)
    decreases picks
  {
    if picks != [] {
      var idx := picks[0] % |pool|;
      var rest := pool[..idx] + pool[idx + 1..];
      assert pool == pool[..idx] + [pool[idx]] + pool[idx + 1..];
      assert multiset(pool) == multiset(rest) + multiset{pool[idx]};
      DrawFromPool(rest, picks[1..]);
    }
  }

  /** One draw moves pool[idx] from the pending draws to the output and keeps the overall result. */
  lemma DrawStep(out: seq<int>, pool: seq<int>, picks: seq<int>, target: seq<int>, idx: int)
    requires 0 < |picks| <= |pool| && idx == picks[0] % |pool|
    requires out + Draw(pool, picks) == target
    ensures (out + [pool[idx]]) + Draw(pool[..idx] + pool[idx + 1..], picks[1..]) == target
  {
    var rest := Draw(pool[..idx] + pool[idx + 1..], picks[1..]);
    assert Draw(pool, picks) == [pool[idx]] + rest;
    assert out + ([pool[idx]] + rest) == (out + [pool[idx]]) + rest;
  }

  /** The pending draws of extendKey's inner loop at byte i of round rot, and after it. */
  lemma PendingNext(key: seq<Byte>, rot: nat, i: nat)
    requires rot < 8 && i < |key|
    ensures (Round(key, rot)[i..] + Rounds(key, rot + 2))[0] == BitRot(key[i], rot) as int
    ensures (Round(key, rot)[i..] + Rounds(key, rot + 2))[1..] == Round(key, rot)[i + 1..] + Rounds(key, rot + 2)
  {
  }

  /** The extended key of extendKey: the rotated digest bytes draw from [0, KSS). */
  function ExtendedKey(key: seq<Byte>): (out: seq<int>)
    requires 4 * |key| <= KSS
    ensures |out| == 4 * |key|
  {
    RoundsLength(key);
    Draw(Range(KSS), Rounds(key, 0))
  }

  /** A 32-byte digest expands to a permutation of [0, 128); a shorter one to distinct values below 128. */
  lemma ExtendedKeyIsPermutation(key: seq<Byte>)
    requires 4 * |key| <= KSS
    ensures multiset(ExtendedKey(key)) <= multiset(Range(KSS))
    ensures |key| == 32 ==> IsPermutation(ExtendedKey(key), KSS)
  {
    RoundsLength(key);
    DrawFromPool(Range(KSS), Rounds(key, 0));
  }

  /** extendKey: the pool vector shrinks by one erase per draw, the output grows by one push_back. */
  method ExtendKey(key: seq<Byte>) returns (out: seq<int>)
    requires 4 * |key| <= KSS
    ensures out == ExtendedKey(key)
  {
    ghost var target := ExtendedKey(key);
    assert target == Draw(Range(KSS), Rounds(key, 0));
    out := [];
    var vec := Range(KSS);
    RoundsLength(key);
    var rot := 0;
    while rot < 8
      invariant |Rounds(key, rot)| <= |vec|
      invariant out + Draw(vec, Rounds(key, rot)) == target
    {
      ghost var pending := Rounds(key, rot);
      assert pending == Round(key, rot)[0..] + Rounds(key, rot + 2);
      for i := 0 to |key|
        invariant pending == Round(key, rot)[i..] + Rounds(key, rot + 2)
        invariant |pending| <= |vec|
        invariant out + Draw(vec, pending) == target
      {
        PendingNext(key, rot, i);
        var idx := BitRot(key[i], rot) as int % |vec|;
        DrawStep(out, vec, pending, target, idx);
        out := out + [vec[idx]];
        vec := vec[..idx] + vec[idx + 1..];
        pending := pending[1..];
      }
      assert Round(key, rot)[|key|..] == [];
      assert pending == Rounds(key, rot + 2);
      rot := rot + 2;
    }
  }
}
