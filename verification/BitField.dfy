/** Piece sets as bytes: stored least significant bit first, sent most significant bit first. */
module BitField {
  import opened Wrappers
  import opened Sha

  /** Piece indices are sent as 32-bit numbers. */
  const MAX_PIECES := 0x1_0000_0000

  // ----- Bit sets

  /** The pieces in a bit set's storage. */
  ghost function Stored(storage: seq<bv8>): set<nat> {
    set i: nat | i < 8 * |storage| && BitOf(storage[i / 8], 7 - i % 8)
  }

  /** The pieces a bit field message announces. */
  ghost function Announced(bytes: seq<bv8>): set<nat> {
    set i: nat | i < 8 * |bytes| && BitOf(bytes[i / 8], i % 8)
  }

  function Grown(storage: seq<bv8>, n: nat): (r: seq<bv8>)
    ensures |r| == if |storage| < n then n else |storage|
    ensures forall i :: 0 <= i < |r| ==> r[i] == if i < |storage| then storage[i] else 0
  {
    if |storage| < n then storage + seq(n - |storage|, _ => 0) else storage
  }

  /** Sets a bit, growing the storage to hold it. */
  function Inserted(storage: seq<bv8>, i: nat): seq<bv8> {
    var grown := Grown(storage, i / 8 + 1);
    grown[i / 8 := WithBit(grown[i / 8], 7 - i % 8)]
  }

  function WithBit(b: bv8, k: nat): bv8
    requires k < 8
  {
    b | Mask(k)
  }

  lemma OrMask(x: bv8, k: nat, j: nat)
    requires k < 8 && j < 8
    ensures BitOf(WithBit(x, k), j) <==> BitOf(x, j) || j == k
  {
    hide Mask, IsMask, Hits;
    MaskOr(x, Mask(k), Mask(j));
    MaskDiffer(k, j);
  }

  lemma MaskOr(x: bv8, m: bv8, n: bv8)
    requires IsMask(m) && IsMask(n)
    ensures Hits(x | m, n) <==> Hits(x, n) || m == n
  {}

  /** Inserting adds the one piece. */
  lemma InsertedStores(storage: seq<bv8>, i: nat)
    ensures Stored(Inserted(storage, i)) == Stored(storage) + {i}
  {
    forall j: nat ensures j in Stored(Inserted(storage, i)) <==> j in Stored(storage) || j == i {
      InsertedAt(storage, i, j, i / 8, i % 8, j / 8, j % 8);
    }
  }

  lemma InsertedAt(storage: seq<bv8>, i: nat, j: nat, ib: nat, ik: nat, jb: nat, jk: nat)
    requires ib == i / 8 && ik == i % 8 && jb == j / 8 && jk == j % 8
    ensures j in Stored(Inserted(storage, i)) <==> j in Stored(storage) || j == i
  {
    hide BitOf, WithBit;
    var grown: seq<bv8> := Grown(storage, ib + 1);
    OrMask(grown[ib], 7 - ik, 7 - jk);
    ZeroHasNoBit(7 - jk);
    assert j == i <==> jb == ib && jk == ik;
    assert j < 8 * |storage| <==> jb < |storage|;
  }

  predicate IsEmpty(storage: seq<bv8>) {
    forall i :: 0 <= i < |storage| ==> storage[i] == 0
  }

  lemma EmptyStoresNothing(storage: seq<bv8>)
    ensures IsEmpty(storage) <==> Stored(storage) == {}
  {
    hide BitOf;
    if IsEmpty(storage) {
      forall i: nat ensures i !in Stored(storage) {
        ZeroHasNoBit(7 - i % 8);
      }
    } else {
      var i :| 0 <= i < |storage| && storage[i] != 0;
      var k := SomeBit(storage[i]);
      assert (8 * i + (7 - k)) / 8 == i && (8 * i + (7 - k)) % 8 == 7 - k;
      assert 8 * i + (7 - k) in Stored(storage);
    }
  }

  lemma SomeBit(b: bv8) returns (k: nat)
    requires b != 0
    ensures k < 8 && BitOf(b, k)
  {
    k := if BitOf(b, 0) then 0 else if BitOf(b, 1) then 1 else if BitOf(b, 2) then 2 else if BitOf(b, 3) then 3
         else if BitOf(b, 4) then 4 else if BitOf(b, 5) then 5 else if BitOf(b, 6) then 6 else 7;
  }

  // ----- Reversing

  function PushBit(r: bv8, b: bv8): bv8 {
    (r << 1) | (b & 1)
  }

  function Halved(b: bv8): bv8 {
    b >> 1
  }

  lemma PushMask(r: bv8, b: bv8, m: bv8)
    requires IsMask(m)
    ensures Hits(PushBit(r, b), m) <==> if m == 1 then Hits(b, 1) else Hits(r, m >> 1)
  {}

  lemma HalvedMask(b: bv8, m: bv8)
    requires IsMask(m)
    ensures Hits(Halved(b), m) <==> m != 0x80 && Hits(b, m << 1)
  {}

  lemma NextMask(k: nat)
    requires k < 8
    ensures if k == 7 then Mask(k) == 1 else Mask(k) != 1 && Mask(k + 1) == Mask(k) >> 1
    ensures if k == 0 then Mask(k) == 0x80 else Mask(k) != 0x80 && Mask(k - 1) == Mask(k) << 1
  {}

  /** Shifting a bit in from the right moves the others left. */
  lemma PushedBit(r: bv8, b: bv8, k: nat)
    requires k < 8
    ensures BitOf(PushBit(r, b), k) == if k == 7 then BitOf(b, 7) else BitOf(r, k + 1)
  {
    hide Mask, IsMask, PushBit, Hits;
    PushMask(r, b, Mask(k));
    NextMask(k);
    NextMask(7);
  }

  lemma HalvedBit(b: bv8, k: nat)
    requires k < 8
    ensures BitOf(Halved(b), k) == (k > 0 && BitOf(b, k - 1))
  {
    hide Mask, IsMask, Halved, Hits;
    HalvedMask(b, Mask(k));
    NextMask(k);
  }

  /** `x` is `y` with its bits in the opposite order. */
  ghost predicate Mirrors(x: bv8, y: bv8) {
    forall k :: 0 <= k < 8 ==> BitOf(x, k) == BitOf(y, 7 - k)
  }

  /** The low `n` bits of `b` are in `r`, the first of them highest. */
  ghost predicate Moved(r: bv8, b: bv8, n: nat) {
    n <= 8 && forall k :: 8 - n <= k < 8 ==> BitOf(r, k) == BitOf(b, 15 - n - k)
  }

  /** The rest of `b` has moved down to the low bits. */
  ghost predicate Remaining(rest: bv8, b: bv8, n: nat) {
    forall k :: n <= k < 8 ==> BitOf(rest, k) == BitOf(b, k - n)
  }

  lemma MoveOne(r: bv8, rest: bv8, b: bv8, n: nat)
    requires n < 8 && Moved(r, b, n) && Remaining(rest, b, n)
    ensures Moved(PushBit(r, rest), b, n + 1)
  {
    hide BitOf, PushBit;
    forall k | 8 - (n + 1) <= k < 8 ensures BitOf(PushBit(r, rest), k) == BitOf(b, 15 - (n + 1) - k) {
      PushedBit(r, rest, k);
    }
  }

  lemma RemainingOne(rest: bv8, b: bv8, n: nat)
    requires Remaining(rest, b, n)
    ensures Remaining(Halved(rest), b, n + 1)
  {
    hide BitOf, Halved;
    forall k | n + 1 <= k < 8 ensures BitOf(Halved(rest), k) == BitOf(b, k - (n + 1)) {
      HalvedBit(rest, k);
    }
  }

  lemma MovedAll(r: bv8, b: bv8)
    requires Moved(r, b, 8)
    ensures Mirrors(r, b)
  {
    hide BitOf;
  }

  method ReverseByte(b: bv8) returns (r: bv8)
    ensures Mirrors(r, b)
  {
    r := 0;
    var rest := b;
    assert Moved(r, b, 0) && Remaining(rest, b, 0);
    hide Moved, Remaining, Mirrors, PushBit, Halved;
    for n := 0 to 8
      invariant Moved(r, b, n) && Remaining(rest, b, n)
    {
      MoveOne(r, rest, b, n);
      RemainingOne(rest, b, n);
      r, rest := PushBit(r, rest), Halved(rest);
    }
    MovedAll(r, b);
  }

  /** The message made from a bit set announces exactly the set's pieces. */
  method InsertReversedBits(bytes: seq<bv8>, slice: seq<bv8>) returns (r: seq<bv8>)
    ensures |r| == |bytes| + |slice| && r[..|bytes|] == bytes
    ensures Announced(r[|bytes|..]) == Stored(slice)
  {
    hide BitOf, Mirrors;
    r := bytes;
    for n := 0 to |slice|
      invariant |r| == |bytes| + n && r[..|bytes|] == bytes
      invariant forall i :: |bytes| <= i < |r| ==> Mirrors(r[i], slice[i - |bytes|])
    {
      var byte := ReverseByte(slice[n]);
      r := r + [byte];
    }
    ghost var sent := r[|bytes|..];
    forall i: nat ensures i in Announced(sent) <==> i in Stored(slice) {
      if i < 8 * |slice| {
        assert sent[i / 8] == r[|bytes| + i / 8];
        MirroredBit(sent[i / 8], slice[i / 8], i % 8);
      }
    }
  }

  lemma MirroredBit(x: bv8, y: bv8, k: nat)
    requires Mirrors(x, y) && k < 8
    ensures BitOf(x, k) == BitOf(y, 7 - k)
  {}

  // ----- Reading a bit field

  lemma ShiftedBit(b: bv8, k: nat)
    requires k < 8
    ensures (b << k) >> 7 == 1 <==> BitOf(b, k)
  {
    if k == 0 {} else if k == 1 {} else if k == 2 {} else if k == 3 {}
    else if k == 4 {} else if k == 5 {} else if k == 6 {} else {}
  }

  class BitFieldIter {
    const bytes: seq<bv8>
    var currBit: nat

    constructor (bytes: seq<bv8>)
      ensures this.bytes == bytes && currBit == 0
    {
      this.bytes, currBit := bytes, 0;
    }

    /**
     * The next announced piece at or past the cursor, or nothing when there is none left; a cursor past what fits in 32
     * bits panics, whether or not its bit is set.
     */
    method Next() returns (r: Option<nat>, panicked: bool)
      requires currBit <= 8 * |bytes|
      modifies this
      ensures old(currBit) <= currBit <= 8 * |bytes|
      ensures panicked ==> r.None? && currBit < 8 * |bytes| && MAX_PIECES <= currBit
      ensures !panicked && r.None? ==> currBit == 8 * |bytes|
      ensures r.Some? ==>
                old(currBit) <= r.value < MAX_PIECES && currBit == r.value + 1 && r.value in Announced(bytes)
      ensures forall i :: old(currBit) <= i < (if r.Some? then r.value else currBit) ==> i !in Announced(bytes)
      ensures old(currBit) <= MAX_PIECES ==> currBit <= MAX_PIECES
      decreases 8 * |bytes| - currBit
    {
      hide BitOf;
      var byteInBytes, bitInByte := currBit / 8, currBit % 8;
      if byteInBytes >= |bytes| {
        return None, false;
      }
      var byte, have := bytes[byteInBytes], currBit;
      if have >= MAX_PIECES {
        return None, true;
      }
      currBit := currBit + 1;
      ShiftedBit(byte, bitInByte);
      if (byte << bitInByte) >> 7 == 1 {
        r, panicked := Some(have), false;
      } else {
        r, panicked := Next();
      }
    }
  }

  /** Draining the iterator lists the announced pieces that fit in 32 bits once each, in order; more bits panic. */
  method Pieces(bytes: seq<bv8>) returns (r: seq<nat>, panicked: bool)
    ensures panicked <==> 8 * |bytes| > MAX_PIECES
    ensures forall i, j :: 0 <= i < j < |r| ==> r[i] < r[j]
    ensures forall i :: i in r <==> i in Announced(bytes) && i < MAX_PIECES
  {
    hide Announced;
    AnnouncedBound(bytes);
    var iter := new BitFieldIter(bytes);
    r := [];
    var next: Option<nat>;
    next, panicked := iter.Next();
    while next.Some?
      invariant iter.bytes == bytes && iter.currBit <= 8 * |bytes| && iter.currBit <= MAX_PIECES
      invariant next.Some? ==> next.value + 1 == iter.currBit && next.value in Announced(bytes) && !panicked
      invariant next.None? && !panicked ==> iter.currBit == 8 * |bytes|
      invariant panicked ==> iter.currBit < 8 * |bytes| && MAX_PIECES <= iter.currBit
      invariant forall i, j :: 0 <= i < j < |r| ==> r[i] < r[j]
      invariant forall i :: 0 <= i < |r| ==> r[i] in Announced(bytes)
      invariant forall i :: 0 <= i < |r| ==> r[i] < if next.Some? then next.value else iter.currBit
      invariant forall i :: 0 <= i < (if next.Some? then next.value else iter.currBit) && i in Announced(bytes) ==> i in r
      decreases 8 * |bytes| - iter.currBit, next.Some?
    {
      r := r + [next.value];
      next, panicked := iter.Next();
    }
  }

  lemma AnnouncedBound(bytes: seq<bv8>)
    ensures forall i :: i in Announced(bytes) ==> i < 8 * |bytes|
  {}
}
