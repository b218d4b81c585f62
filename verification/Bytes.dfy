/** Bytes and slices of byte sequences. */
module Bytes {
  type Byte = n: nat | n < 256

  /** A vector of bytes that writers append to. */
  class ByteVec {
    var bytes: seq<Byte>

    constructor ()
      ensures bytes == []
    {
      bytes := [];
    }

    method Push(b: Byte)
      modifies this
      ensures bytes == old(bytes) + [b]
    {
      bytes := bytes + [b];
    }

    method Extend(s: seq<Byte>)
      modifies this
      ensures bytes == old(bytes) + s
    {
      bytes := bytes + s;
    }
  }

  function Zeros(n: nat): (r: seq<Byte>)
    ensures |r| == n
  {
    if n == 0 then [] else [0] + Zeros(n - 1)
  }

  /** `bytes` reads `s` at `pos`. */
  predicate Reads(bytes: seq<Byte>, pos: nat, s: seq<Byte>) {
    pos + |s| <= |bytes| && bytes[pos..pos + |s|] == s
  }

  lemma ReadsConcat(bytes: seq<Byte>, pos: nat, a: seq<Byte>, b: seq<Byte>)
    requires Reads(bytes, pos, a + b)
    ensures Reads(bytes, pos, a) && Reads(bytes, pos + |a|, b)
  {
    assert bytes[pos..pos + |a|] == (a + b)[..|a|];
    assert bytes[pos + |a|..pos + |a| + |b|] == (a + b)[|a|..];
  }

  lemma ReadsAt(bytes: seq<Byte>, pos: nat, s: seq<Byte>, i: nat)
    requires Reads(bytes, pos, s) && i < |s|
    ensures pos + |s| <= |bytes| && bytes[pos + i] == s[i]
  {
    assert bytes[pos..pos + |s|][i] == s[i];
  }

  lemma SubSlice(s: seq<Byte>, p: nat, n: nat, i: nat, m: nat)
    requires p + n <= |s| && i + m <= n
    ensures s[p..p + n][i..i + m] == s[p + i..p + i + m]
  {
    var x, y := s[p..p + n][i..i + m], s[p + i..p + i + m];
    forall k | 0 <= k < m ensures x[k] == y[k] {}
  }

  /** `s` is read somewhere in `whole`, between `lo` and `hi`. */
  ghost predicate SliceOf(s: seq<Byte>, whole: seq<Byte>, lo: nat, hi: nat) {
    exists i: nat :: lo <= i && i + |s| <= hi && Reads(whole, i, s)
  }

  lemma SliceWidens(s: seq<Byte>, whole: seq<Byte>, lo: nat, hi: nat, lo': nat, hi': nat)
    requires SliceOf(s, whole, lo, hi) && lo' <= lo && hi <= hi'
    ensures SliceOf(s, whole, lo', hi')
  {}

  lemma SliceOfPart(s: seq<Byte>, whole: seq<Byte>, lo: nat, hi: nat)
    requires lo <= hi <= |whole| && SliceOf(s, whole, lo, hi)
    ensures SliceOf(s, whole[lo..hi], 0, hi - lo)
  {
    var i: nat :| lo <= i && i + |s| <= hi && Reads(whole, i, s);
    SubSlice(whole, lo, hi - lo, i - lo, |s|);
    assert Reads(whole[lo..hi], i - lo, s);
  }

  /** The number big-endian bytes stand for. */
  function BigEndian(bytes: seq<Byte>): nat {
    if bytes == [] then 0 else 256 * BigEndian(bytes[..|bytes| - 1]) + bytes[|bytes| - 1]
  }

  /** The last `k` base-256 digits of a number. */
  function LowBytes(n: nat, k: nat): (r: seq<Byte>)
    ensures |r| == k
  {
    if k == 0 then [] else LowBytes(n / 256, k - 1) + [n % 256]
  }

  lemma {:induction false} LowBytesOfBigEndian(bytes: seq<Byte>)
    ensures LowBytes(BigEndian(bytes), |bytes|) == bytes
  {
    if bytes != [] {
      var front, last: nat := bytes[..|bytes| - 1], bytes[|bytes| - 1];
      LowBytesOfBigEndian(front);
      assert BigEndian(bytes) / 256 == BigEndian(front) && BigEndian(bytes) % 256 == last;
    }
  }

  lemma {:induction false} BigEndianOfLowBytes(n: nat, bound: nat, k: nat)
    requires n < bound && bound == Power256(k)
    ensures BigEndian(LowBytes(n, k)) == n
  {
    if k > 0 {
      BigEndianOfLowBytes(n / 256, Power256(k - 1), k - 1);
    }
  }

  function Power256(k: nat): (r: nat)
    ensures r > 0
  {
    if k == 0 then 1 else 256 * Power256(k - 1)
  }

  lemma {:induction false} BigEndianBound(bytes: seq<Byte>)
    ensures BigEndian(bytes) < Power256(|bytes|)
  {
    if bytes != [] {
      BigEndianBound(bytes[..|bytes| - 1]);
    }
  }

  lemma LowBytesTail(n: nat, k: nat)
    requires k > 0
    ensures LowBytes(n, k) == LowBytes(n / 256, k - 1) + [n % 256]
  {}
}
