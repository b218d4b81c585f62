/** 160-bit hashes: xor, the derived byte order, the bit iterator and common prefixes. */
module Sha {
  import opened Wrappers

  const SHA_HASH_LEN := 20
  const HASH_BITS := 160

  type ShaHash = h: seq<bv8> | |h| == SHA_HASH_LEN witness seq(SHA_HASH_LEN, _ => 0)

  // ----- Single bytes, most significant bit first

  predicate IsMask(m: bv8) {
    m == 0x80 || m == 0x40 || m == 0x20 || m == 0x10 || m == 0x08 || m == 0x04 || m == 0x02 || m == 0x01
  }

  function Mask(k: nat): (m: bv8)
    requires k < 8
    ensures IsMask(m)
  {
    match k
    case 0 => 0x80 case 1 => 0x40 case 2 => 0x20 case 3 => 0x10
    case 4 => 0x08 case 5 => 0x04 case 6 => 0x02 case _ => 0x01
  }

  predicate Hits(b: bv8, m: bv8) {
    b & m != 0
  }

  predicate BitOf(b: bv8, k: nat)
    requires k < 8
  {
    Hits(b, Mask(k))
  }

  lemma XorMask(x: bv8, y: bv8, m: bv8)
    requires IsMask(m)
    ensures Hits(x ^ y, m) <==> Hits(x, m) != Hits(y, m)
  {}

  lemma XorByteBit(x: bv8, y: bv8, k: nat)
    requires k < 8
    ensures BitOf(x ^ y, k) <==> (BitOf(x, k) != BitOf(y, k))
  {
    hide Mask, IsMask, Hits;
    XorMask(x, y, Mask(k));
  }

  /** `x` and `y` agree on their first `k` bits. */
  predicate AgreeBelow(x: bv8, y: bv8, k: nat)
    requires k <= 8
  {
    forall j :: 0 <= j < k ==> BitOf(x, j) == BitOf(y, j)
  }

  /** The bits before that of a mask. */
  function Above(m: bv8): bv8 {
    match m
    case 0x80 => 0x00 case 0x40 => 0x80 case 0x20 => 0xc0 case 0x10 => 0xe0
    case 0x08 => 0xf0 case 0x04 => 0xf8 case 0x02 => 0xfc case _ => 0xfe
  }

  predicate AgreeOn(x: bv8, y: bv8, bits: bv8) {
    x & bits == y & bits
  }

  function Joined(a: bv8, b: bv8): bv8 {
    a | b
  }

  lemma NoneAbove(x: bv8, y: bv8)
    ensures AgreeOn(x, y, Above(Mask(0)))
  {
    assert Above(Mask(0)) == 0;
  }

  lemma AboveNext(k: nat)
    requires 0 < k < 8
    ensures Above(Mask(k)) == Joined(Above(Mask(k - 1)), Mask(k - 1))
  {}

  lemma AgreeMasked(x: bv8, y: bv8, high: bv8, m: bv8)
    requires IsMask(m) && Hits(x, m) == Hits(y, m) && AgreeOn(x, y, high)
    ensures AgreeOn(x, y, Joined(high, m))
  {}

  lemma {:induction false} AgreeAbove(x: bv8, y: bv8, k: nat)
    requires k < 8 && AgreeBelow(x, y, k)
    ensures AgreeOn(x, y, Above(Mask(k)))
  {
    hide Above, Mask, IsMask, Hits, AgreeOn, Joined;
    if k == 0 {
      NoneAbove(x, y);
    } else {
      AgreeAbove(x, y, k - 1);
      AboveNext(k);
      assert BitOf(x, k - 1) == BitOf(y, k - 1);
      AgreeMasked(x, y, Above(Mask(k - 1)), Mask(k - 1));
    }
  }

  lemma MaskedOrder(x: bv8, y: bv8, m: bv8)
    requires IsMask(m) && AgreeOn(x, y, Above(m)) && !Hits(x, m) && Hits(y, m)
    ensures x < y
  {}

  /** The first bit on which two bytes differ decides their order. */
  lemma ByteOrder(x: bv8, y: bv8, k: nat)
    requires k < 8 && AgreeBelow(x, y, k)
    requires !BitOf(x, k) && BitOf(y, k)
    ensures x < y
  {
    hide Above, Mask, IsMask, Hits, AgreeOn;
    AgreeAbove(x, y, k);
    MaskedOrder(x, y, Mask(k));
  }

  lemma ByteEqual(x: bv8, y: bv8)
    requires AgreeBelow(x, y, 8)
    ensures x == y
  {
    assert BitOf(x, 0) == BitOf(y, 0) && BitOf(x, 1) == BitOf(y, 1) && BitOf(x, 2) == BitOf(y, 2) && BitOf(x, 3) == BitOf(y, 3);
    assert BitOf(x, 4) == BitOf(y, 4) && BitOf(x, 5) == BitOf(y, 5) && BitOf(x, 6) == BitOf(y, 6) && BitOf(x, 7) == BitOf(y, 7);
  }

  lemma MaskBelow(j: nat, k: nat)
    requires j < k < 8
    ensures Mask(j) & Above(Mask(k)) == Mask(j)
  {}

  lemma AgreeWithin(x: bv8, y: bv8, bits: bv8, m: bv8)
    requires AgreeOn(x, y, bits) && m & bits == m
    ensures Hits(x, m) == Hits(y, m)
  {}

  /** Agreeing on the bits before bit `k` is agreeing on each of them. */
  lemma AgreeAboveIff(x: bv8, y: bv8, k: nat)
    requires k < 8
    ensures AgreeOn(x, y, Above(Mask(k))) <==> AgreeBelow(x, y, k)
  {
    hide Above, Mask, IsMask, Hits, AgreeOn;
    if AgreeOn(x, y, Above(Mask(k))) {
      forall j | 0 <= j < k ensures BitOf(x, j) == BitOf(y, j) {
        MaskBelow(j, k);
        AgreeWithin(x, y, Above(Mask(k)), Mask(j));
      }
    }
    if AgreeBelow(x, y, k) {
      AgreeAbove(x, y, k);
    }
  }

  lemma ShiftedToOne(x: bv8, k: nat)
    requires k < 8
    ensures x >> (7 - k) == 1 <==> Hits(x, Mask(k)) && AgreeOn(x, 0, Above(Mask(k)))
  {
    if k == 0 {} else if k == 1 {} else if k == 2 {} else if k == 3 {}
    else if k == 4 {} else if k == 5 {} else if k == 6 {} else {}
  }

  /** Shifting without masking gives 1 exactly for a set bit `k` with all earlier bits of the byte clear. */
  lemma UnmaskedShift(x: bv8, k: nat)
    requires k < 8
    ensures x >> (7 - k) == 1 <==> BitOf(x, k) && AgreeBelow(x, 0, k)
  {
    hide Above, Mask, Hits, AgreeOn, AgreeBelow;
    ShiftedToOne(x, k);
    AgreeAboveIff(x, 0, k);
  }

  lemma ZeroHasNoBit(k: nat)
    requires k < 8
    ensures !BitOf(0, k)
  {}

  lemma MasksMeet(m: bv8, n: bv8)
    requires IsMask(m) && IsMask(n)
    ensures Hits(m, n) <==> m == n
  {}

  lemma MaskDiffer(k: nat, j: nat)
    requires k < 8 && j < 8
    ensures Mask(k) == Mask(j) <==> k == j
  {}

  lemma ShiftIsMask(k: nat)
    requires k < 8
    ensures (1 as bv8) << (7 - k) == Mask(k)
  {
    if k == 0 {} else if k == 1 {} else if k == 2 {} else if k == 3 {}
    else if k == 4 {} else if k == 5 {} else if k == 6 {} else {}
  }

  lemma FlippedByte(x: bv8, k: nat, j: nat)
    requires k < 8 && j < 8
    ensures BitOf(x ^ (1 << (7 - k)), j) <==> (BitOf(x, j) != (j == k))
  {
    hide Mask, IsMask, Hits;
    ShiftIsMask(k);
    XorByteBit(x, Mask(k), j);
    MasksMeet(Mask(k), Mask(j));
    MaskDiffer(k, j);
  }

  // ----- Hashes

  function ZeroId(): ShaHash {
    seq(SHA_HASH_LEN, _ => 0)
  }

  /** Bit `i` of a hash, counted from the most significant bit of its first byte. */
  predicate Bit(h: ShaHash, i: nat)
    requires i < HASH_BITS
  {
    BitOf(h[i / 8], i % 8)
  }

  function Xor(a: ShaHash, b: ShaHash): (r: ShaHash)
  {
    seq(SHA_HASH_LEN, i requires 0 <= i < SHA_HASH_LEN => a[i] ^ b[i])
  }

  lemma XorBit(a: ShaHash, b: ShaHash, i: nat)
    requires i < HASH_BITS
    ensures Bit(Xor(a, b), i) <==> (Bit(a, i) != Bit(b, i))
  {
    hide BitOf;
    XorByteBit(a[i / 8], b[i / 8], i % 8);
  }

  /** The order derived for the byte array: lexicographic, bytes compared as unsigned. */
  predicate LessFrom(a: ShaHash, b: ShaHash, i: nat)
    requires i <= SHA_HASH_LEN
    decreases SHA_HASH_LEN - i
  {
    i < SHA_HASH_LEN && (a[i] < b[i] || (a[i] == b[i] && LessFrom(a, b, i + 1)))
  }

  predicate Less(a: ShaHash, b: ShaHash) {
    LessFrom(a, b, 0)
  }

  /** The number of leading bits on which two hashes agree. */
  function PrefixFrom(a: ShaHash, b: ShaHash, i: nat): (r: nat)
    requires i <= HASH_BITS
    ensures i <= r <= HASH_BITS
    ensures forall j :: i <= j < r ==> Bit(a, j) == Bit(b, j)
    ensures r < HASH_BITS ==> Bit(a, r) != Bit(b, r)
    decreases HASH_BITS - i
  {
    if i < HASH_BITS && Bit(a, i) == Bit(b, i) then PrefixFrom(a, b, i + 1) else i
  }

  function CommonPrefix(a: ShaHash, b: ShaHash): (r: nat)
    ensures r <= HASH_BITS
    ensures forall j :: 0 <= j < r ==> Bit(a, j) == Bit(b, j)
    ensures r < HASH_BITS ==> Bit(a, r) != Bit(b, r)
  {
    PrefixFrom(a, b, 0)
  }

  lemma PrefixUnique(a: ShaHash, b: ShaHash, n: nat)
    requires n <= HASH_BITS
    requires forall j :: 0 <= j < n ==> Bit(a, j) == Bit(b, j)
    requires n < HASH_BITS ==> Bit(a, n) != Bit(b, n)
    ensures CommonPrefix(a, b) == n
  {}

  lemma {:induction false} LessAt(a: ShaHash, b: ShaHash, i: nat, k: nat)
    requires i <= k < SHA_HASH_LEN
    requires forall j :: i <= j < k ==> a[j] == b[j]
    requires a[k] < b[k]
    ensures LessFrom(a, b, i)
    decreases k - i
  {
    if i < k {
      LessAt(a, b, i + 1, k);
    }
  }

  lemma BitsOfByte(a: ShaHash, i: nat, k: nat)
    requires i < SHA_HASH_LEN && k < 8
    ensures Bit(a, 8 * i + k) == BitOf(a[i], k)
  {}

  /** Two hashes that first differ at bit `n` are ordered by that bit. */
  lemma OrderByBit(a: ShaHash, b: ShaHash, n: nat)
    requires n < HASH_BITS
    requires forall j :: 0 <= j < n ==> Bit(a, j) == Bit(b, j)
    requires !Bit(a, n) && Bit(b, n)
    ensures Less(a, b)
  {
    var i, k := n / 8, n % 8;
    forall j | 0 <= j < i ensures a[j] == b[j] {
      forall m | 0 <= m < 8 ensures BitOf(a[j], m) == BitOf(b[j], m) {
        BitsOfByte(a, j, m); BitsOfByte(b, j, m);
      }
      ByteEqual(a[j], b[j]);
    }
    forall m | 0 <= m < k ensures BitOf(a[i], m) == BitOf(b[i], m) {
      BitsOfByte(a, i, m); BitsOfByte(b, i, m);
    }
    ByteOrder(a[i], b[i], k);
    LessAt(a, b, 0, i);
  }

  /** A longer common prefix with `t` means a strictly smaller xor distance to `t`. */
  lemma LongerPrefixIsCloser(a: ShaHash, b: ShaHash, t: ShaHash)
    requires CommonPrefix(b, t) < CommonPrefix(a, t)
    ensures Less(Xor(a, t), Xor(b, t))
  {
    var n := CommonPrefix(b, t);
    forall j | 0 <= j <= n ensures Bit(Xor(a, t), j) == false && (Bit(Xor(b, t), j) <==> j == n) {
      XorBit(a, t, j); XorBit(b, t, j);
    }
    OrderByBit(Xor(a, t), Xor(b, t), n);
  }

  /** Seen from a third id that both leave at the same bit, two ids agree for longer. */
  lemma PrefixVia(self: ShaHash, a: ShaHash, t: ShaHash)
    ensures CommonPrefix(self, a) == CommonPrefix(self, t) < HASH_BITS ==> CommonPrefix(a, t) > CommonPrefix(self, t)
    ensures CommonPrefix(self, a) < CommonPrefix(self, t) ==> CommonPrefix(a, t) == CommonPrefix(self, a)
    ensures CommonPrefix(self, a) > CommonPrefix(self, t) ==> CommonPrefix(a, t) == CommonPrefix(self, t)
  {
    var p, s := CommonPrefix(self, a), CommonPrefix(self, t);
    if p < s {
      PrefixUnique(a, t, p);
    } else if p > s {
      PrefixUnique(a, t, s);
    }
  }

  lemma FullPrefixIsEqual(a: ShaHash, b: ShaHash)
    ensures CommonPrefix(a, b) == HASH_BITS <==> a == b
  {
    if CommonPrefix(a, b) == HASH_BITS {
      forall i | 0 <= i < SHA_HASH_LEN ensures a[i] == b[i] {
        forall m | 0 <= m < 8 ensures BitOf(a[i], m) == BitOf(b[i], m) {
          BitsOfByte(a, i, m); BitsOfByte(b, i, m);
        }
        ByteEqual(a[i], b[i]);
      }
    }
  }

  // ----- The imperative forms

  method BitXor(a: ShaHash, rhs: ShaHash) returns (r: ShaHash)
    ensures forall i :: 0 <= i < HASH_BITS ==> (Bit(r, i) <==> (Bit(a, i) != Bit(rhs, i)))
    ensures r == Xor(a, rhs)
  {
    r := a;
    for i := 0 to SHA_HASH_LEN
      invariant forall j :: 0 <= j < i ==> r[j] == a[j] ^ rhs[j]
      invariant forall j :: i <= j < SHA_HASH_LEN ==> r[j] == a[j]
    {
      r := r[i := r[i] ^ rhs[i]];
    }
    forall i | 0 <= i < HASH_BITS ensures Bit(Xor(a, rhs), i) <==> (Bit(a, i) != Bit(rhs, i)) {
      XorBit(a, rhs, i);
    }
    assert r == Xor(a, rhs);
  }

  datatype BitRep = Set | Unset

  /** Iterator over the bits of a hash; it compares an unmasked shifted byte with 1. */
  class Bits {
    const bytes: ShaHash
    var bitPos: nat

    constructor (bytes: ShaHash)
      ensures this.bytes == bytes && bitPos == 0
    {
      this.bytes := bytes;
      bitPos := 0;
    }

    /** Set exactly for a set bit that no other set bit of its byte precedes. */
    method Next() returns (r: Option<BitRep>)
      requires bitPos <= HASH_BITS
      modifies this
      ensures r.None? <==> old(bitPos) == HASH_BITS
      ensures bitPos == if r.Some? then old(bitPos) + 1 else old(bitPos)
      ensures r.Some? ==>
                (r.value.Set? <==> Bit(bytes, old(bitPos)) &&
                                   forall j :: old(bitPos) / 8 * 8 <= j < old(bitPos) ==> !Bit(bytes, j))
    {
      if bitPos < |bytes| * 8 {
        var byteIndex := bitPos / 8;
        var bitOffset := 7 - (bitPos % 8);
        var bitValue := bytes[byteIndex] >> bitOffset;
        UnmaskedShift(bytes[byteIndex], bitPos % 8);
        ClearBefore(bytes, bitPos);
        bitPos := bitPos + 1;
        r := Some(if bitValue == 1 then Set else Unset);
      } else {
        r := None;
      }
    }
  }

  lemma ClearBefore(h: ShaHash, i: nat)
    requires i < HASH_BITS
    ensures AgreeBelow(h[i / 8], 0, i % 8) <==> forall j :: i / 8 * 8 <= j < i ==> !Bit(h, j)
  {
    hide BitOf;
    forall m | 0 <= m < i % 8 ensures !BitOf(0, m) && Bit(h, i / 8 * 8 + m) == BitOf(h[i / 8], m) {
      ZeroHasNoBit(m);
      BitsOfByte(h, i / 8, m);
    }
    if AgreeBelow(h[i / 8], 0, i % 8) {
      forall j | i / 8 * 8 <= j < i ensures !Bit(h, j) {
        assert j == i / 8 * 8 + (j - i / 8 * 8);
      }
    }
  }

  method LeadingBitCount(localNode: ShaHash, remoteNode: ShaHash) returns (n: nat)
    ensures n == CommonPrefix(localNode, remoteNode)
  {
    var diff := BitXor(localNode, remoteNode);
    var bits := new Bits(diff);
    n := 0;
    var bit := bits.Next();
    while bit.Some? && bit.value == Unset
      invariant fresh(bits) && bits.bytes == diff
      invariant n <= HASH_BITS
      invariant bits.bitPos == if bit.Some? then n + 1 else n
      invariant bit.None? <==> n == HASH_BITS
      invariant forall j :: 0 <= j < n ==> !Bit(diff, j)
      invariant bit.Some? ==> (bit.value.Set? <==> Bit(diff, n))
      decreases HASH_BITS - n
    {
      n := n + 1;
      bit := bits.Next();
    }
    PrefixUnique(localNode, remoteNode, n);
  }

  /** Flips one bit of a copy of the id, as the bootstrap does to reach each bucket in turn. */
  method FlipIdBitAtIndex(nodeId: ShaHash, index: nat) returns (r: ShaHash)
    requires index < HASH_BITS
    ensures forall j :: 0 <= j < HASH_BITS ==> (Bit(r, j) <==> (Bit(nodeId, j) != (j == index)))
    ensures CommonPrefix(nodeId, r) == index
  {
    var byteIndex, bitIndex := index / 8, index % 8;
    var actualBitIndex := 7 - bitIndex;
    r := nodeId[byteIndex := nodeId[byteIndex] ^ (1 << actualBitIndex)];
    forall j | 0 <= j < HASH_BITS ensures Bit(r, j) <==> (Bit(nodeId, j) != (j == index)) {
      if j / 8 == byteIndex {
        FlippedByte(nodeId[byteIndex], bitIndex, j % 8);
      }
    }
    PrefixUnique(nodeId, r, index);
  }
}
