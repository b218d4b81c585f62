/** Transaction ids: an action id and a message id, each drawn from shuffled blocks that wrap around. */
module Transaction {
  import opened Wrappers
  import opened Bytes

  const MAX_ACTION_ID := 0x100_0000_0000
  const MAX_MESSAGE_ID := 0x100_0000
  /** Ids are allocated in blocks of this size. */
  const PREALLOC_LEN := 2048
  const TRANSACTION_ID_BYTES := 8

  /** How many blocks there are before allocation wraps around. */
  const ACTION_BLOCKS := 0x2000_0000
  const MESSAGE_BLOCKS := 0x2000

  // ----- Shuffling

  predicate Distinct<T(==)>(s: seq<T>) {
    forall i, j :: 0 <= i < j < |s| ==> s[i] != s[j]
  }

  lemma SwapPermutes<T>(s: seq<T>, i: nat, j: nat)
    requires i < |s| && j < |s|
    ensures multiset(s[i := s[j]][j := s[i]]) == multiset(s)
  {}

  /** For each of the first positions of a list of length `n`, one at or behind it. */
  predicate LegalPicks(picks: seq<nat>, n: nat) {
    |picks| <= n && forall k :: 0 <= k < |picks| ==> k <= picks[k] < n
  }

  function Swapped<T>(s: seq<T>, i: nat, j: nat): (r: seq<T>)
    requires i < |s| && j < |s|
    ensures |r| == |s|
  {
    s[i := s[j]][j := s[i]]
  }

  /** The list once the first positions have each been swapped with their pick, in turn. */
  function ShuffledBy<T>(s: seq<T>, picks: seq<nat>): (r: seq<T>)
    requires LegalPicks(picks, |s|)
    ensures |r| == |s|
  {
    if picks == [] then s
    else Swapped(ShuffledBy(s, picks[..|picks| - 1]), |picks| - 1, picks[|picks| - 1])
  }

  lemma SwappedIs<T>(s: seq<T>, i: nat, j: nat)
    requires i < |s| && j < |s|
    ensures Swapped(s, i, j) == s[i := s[j]][j := s[i]]
  {}

  lemma OneMorePick<T>(s: seq<T>, picks: seq<nat>, j: nat)
    requires LegalPicks(picks, |s|) && |picks| <= j < |s|
    ensures LegalPicks(picks + [j], |s|) && ShuffledBy(s, picks + [j]) == Swapped(ShuffledBy(s, picks), |picks|, j)
  {
    assert (picks + [j])[..|picks|] == picks;
  }

  /** The Fisher-Yates shuffle swaps each position with its pick, and so permutes the list whatever is picked. */
  method FisherShuffle<T>(list: array<T>, default: T) returns (ghost picks: seq<nat>)
    modifies list
    ensures |picks| == list.Length && LegalPicks(picks, list.Length) && list[..] == ShuffledBy(old(list[..]), picks)
    ensures multiset(list[..]) == multiset(old(list[..]))
  {
    hide ShuffledBy;
    ghost var start := list[..];
    picks := [];
    NoPicks(start);
    for i := 0 to list.Length
      invariant |picks| == i && LegalPicks(picks, list.Length) && list[..] == ShuffledBy(start, picks)
      invariant multiset(list[..]) == multiset(start)
    {
      var swapIndex :| i <= swapIndex < list.Length;
      ghost var before := list[..];
      var srcVal := list[i];
      list[i] := default;
      var dstVal := list[swapIndex];
      list[swapIndex] := default;
      list[i] := dstVal;
      list[swapIndex] := srcVal;
      SwapPermutes(before, i, swapIndex);
      OneMorePick(start, picks, swapIndex);
      assert list[..] == Swapped(before, i, swapIndex);
      picks := picks + [swapIndex];
    }
  }

  lemma NoPicks<T>(s: seq<T>)
    ensures ShuffledBy(s, []) == s
  {}

  /** With the first `i` elements in place, the next one is among the others. */
  lemma StillThere<T>(s: seq<T>, t: seq<T>, i: nat) returns (j: nat)
    requires multiset(s) == multiset(t) && i < |s| == |t| && s[..i] == t[..i]
    ensures i <= j < |s| && s[j] == t[i]
  {
    var x := t[i];
    assert s == s[..i] + s[i..] && t == t[..i] + t[i..];
    assert t[i..][0] == x;
    assert multiset(s)[x] == multiset(s[..i])[x] + multiset(s[i..])[x];
    assert multiset(t)[x] == multiset(t[..i])[x] + multiset(t[i..])[x];
    assert x in s[i..];
    var k :| 0 <= k < |s[i..]| && s[i..][k] == x;
    j := i + k;
  }

  lemma SwapsIn<T>(s: seq<T>, t: seq<T>, i: nat, j: nat)
    requires i <= j < |s| == |t| && s[..i] == t[..i] && s[j] == t[i]
    ensures Swapped(s, i, j)[..i + 1] == t[..i + 1]
  {
    var r := Swapped(s, i, j);
    forall k | 0 <= k < i ensures r[k] == t[k] {
      assert s[..i][k] == t[..i][k];
    }
  }

  lemma {:induction false} PicksFor<T>(s: seq<T>, t: seq<T>, i: nat) returns (picks: seq<nat>)
    requires multiset(s) == multiset(t) && i <= |s| == |t|
    ensures |picks| == i && LegalPicks(picks, |s|)
    ensures ShuffledBy(s, picks)[..i] == t[..i] && multiset(ShuffledBy(s, picks)) == multiset(t)
  {
    hide Swapped;
    if i == 0 {
      picks := [];
    } else {
      var front := PicksFor(s, t, i - 1);
      var now := ShuffledBy(s, front);
      var j := StillThere(now, t, i - 1);
      SwapsIn(now, t, i - 1, j);
      SwapPermutes(now, i - 1, j);
      SwappedIs(now, i - 1, j);
      OneMorePick(s, front, j);
      picks := front + [j];
    }
  }

  lemma SameLength<T>(s: seq<T>, t: seq<T>)
    requires multiset(s) == multiset(t)
    ensures |s| == |t|
  {
    assert |multiset(s)| == |s| && |multiset(t)| == |t|;
  }

  /** Every order of the list comes from some picks. */
  lemma EveryOrder<T>(s: seq<T>, t: seq<T>)
    requires multiset(s) == multiset(t)
    ensures exists picks :: |picks| == |s| && LegalPicks(picks, |s|) && ShuffledBy(s, picks) == t
  {
    SameLength(s, t);
    var picks := PicksFor(s, t, |s|);
    assert ShuffledBy(s, picks)[..|s|] == ShuffledBy(s, picks) && t[..|s|] == t;
  }

  lemma {:induction false} DistinctOnce<T>(s: seq<T>, x: T)
    requires Distinct(s)
    ensures multiset(s)[x] <= 1
  {
    if s != [] {
      DistinctOnce(s[1..], x);
      assert s == [s[0]] + s[1..];
      assert s[0] == x ==> x !in s[1..];
    }
  }

  lemma RepeatedTwice<T>(s: seq<T>, i: nat, j: nat)
    requires i < j < |s| && s[i] == s[j]
    ensures multiset(s)[s[i]] >= 2
  {
    assert s == s[..j] + s[j..];
    assert s[..j][i] == s[i] && s[j..][0] == s[i];
  }

  lemma PermutedDistinct<T>(s: seq<T>, t: seq<T>)
    requires Distinct(s) && multiset(s) == multiset(t)
    ensures Distinct(t)
  {
    forall i, j | 0 <= i < j < |t| ensures t[i] != t[j] {
      if t[i] == t[j] {
        RepeatedTwice(t, i, j);
        DistinctOnce(s, t[i]);
      }
    }
  }

  // ----- Blocks

  /** The ids of one block, in some order. */
  ghost predicate IsBlock(ids: seq<nat>, start: nat) {
    && |ids| == PREALLOC_LEN
    && Distinct(ids)
    && forall i :: 0 <= i < |ids| ==> start <= ids[i] < start + PREALLOC_LEN
  }

  /** Where block b starts. */
  function Start(wrap: nat, b: nat): nat
    requires wrap > 0
  {
    PREALLOC_LEN * (b % wrap)
  }

  /** Allocates the next block, from zero again once the marker has reached the maximum. */
  method GenerateIds(max: nat, nextAlloc: nat) returns (nextAllocEnd: nat, ids: array<nat>)
    ensures nextAllocEnd == (if nextAlloc == max then 0 else nextAlloc) + PREALLOC_LEN
    ensures fresh(ids) && ids.Length == PREALLOC_LEN
    ensures forall i :: 0 <= i < ids.Length ==> ids[i] == nextAllocEnd - PREALLOC_LEN + i
  {
    var start := if nextAlloc == max then 0 else nextAlloc;
    nextAllocEnd := start + PREALLOC_LEN;
    ids := new nat[PREALLOC_LEN](_ => 0);
    for index := 0 to PREALLOC_LEN
      invariant forall i :: 0 <= i < index ==> ids[i] == start + i
    {
      ids[index] := start + index;
    }
  }

  method ShuffledIds(max: nat, nextAlloc: nat) returns (nextAllocEnd: nat, ids: array<nat>)
    ensures nextAllocEnd == (if nextAlloc == max then 0 else nextAlloc) + PREALLOC_LEN
    ensures fresh(ids) && IsBlock(ids[..], nextAllocEnd - PREALLOC_LEN)
  {
    nextAllocEnd, ids := GenerateIds(max, nextAlloc);
    ghost var before := ids[..];
    ghost var _ := FisherShuffle(ids, 0);
    PermutedDistinct(before, ids[..]);
    forall i | 0 <= i < ids.Length
      ensures nextAllocEnd - PREALLOC_LEN <= ids[i] < nextAllocEnd
    {
      assert ids[..][i] in multiset(before);
    }
  }

  // ----- What has been drawn

  /** Draw n comes from block n / 2048, and no two draws of a block are the same. */
  ghost predicate DrawnInBlocks(wrap: nat, drawn: seq<nat>)
    requires wrap > 0
  {
    && (forall n :: 0 <= n < |drawn| ==>
          Start(wrap, n / PREALLOC_LEN) <= drawn[n] < Start(wrap, n / PREALLOC_LEN) + PREALLOC_LEN)
    && (forall i, j :: 0 <= i < j < |drawn| && i / PREALLOC_LEN == j / PREALLOC_LEN ==> drawn[i] != drawn[j])
  }

  /** A generator after `blocks` blocks: the marker is the end of the last one, never past the maximum. */
  ghost predicate Allocated(wrap: nat, nextAlloc: nat, index: nat, ids: seq<nat>, blocks: nat, drawn: seq<nat>)
    requires wrap > 0
  {
    && |ids| == PREALLOC_LEN && index <= PREALLOC_LEN
    && |drawn| + PREALLOC_LEN == blocks * PREALLOC_LEN + index
    && (blocks == 0 ==> nextAlloc == 0)
    && (blocks > 0 ==>
          && nextAlloc == Start(wrap, blocks - 1) + PREALLOC_LEN <= wrap * PREALLOC_LEN
          && IsBlock(ids, Start(wrap, blocks - 1))
          && forall i :: 0 <= i < index ==> drawn[(blocks - 1) * PREALLOC_LEN + i] == ids[i])
    && DrawnInBlocks(wrap, drawn)
  }

  /** The block after the last starts at the marker, or at zero exactly when that is the maximum. */
  lemma NextStart(wrap: nat, b: nat)
    requires wrap > 0
    ensures b > 0 ==> Start(wrap, b) == (if Start(wrap, b - 1) + PREALLOC_LEN == wrap * PREALLOC_LEN then 0
                                         else Start(wrap, b - 1) + PREALLOC_LEN)
    ensures Start(wrap, b) + PREALLOC_LEN <= wrap * PREALLOC_LEN
  {
    if b > 0 {
      StepModulo(b - 1, wrap);
    }
  }

  lemma StepModulo(b: nat, wrap: nat)
    requires wrap > 0
    ensures (b + 1) % wrap == if b % wrap + 1 == wrap then 0 else b % wrap + 1
  {
    var q, r := b / wrap, b % wrap;
    assert b + 1 == wrap * q + (r + 1);
    if r + 1 == wrap {
      assert b + 1 == wrap * (q + 1) + 0;
      ModuloUnique(b + 1, wrap, q + 1, 0);
    } else {
      ModuloUnique(b + 1, wrap, q, r + 1);
    }
  }

  lemma ModuloUnique(b: nat, wrap: nat, q: nat, r: nat)
    requires r < wrap && b == wrap * q + r
    ensures b % wrap == r
  {
    var k: int := b / wrap - q;
    assert wrap * k == r - b % wrap;
    MultipleBound(wrap, k);
  }

  lemma MultipleBound(w: nat, k: int)
    ensures k >= 1 ==> w * k >= w
    ensures k <= -1 ==> w * k + w <= 0
  {}

  lemma DrawKeeps(wrap: nat, nextAlloc: nat, index: nat, ids: seq<nat>, blocks: nat, drawn: seq<nat>)
    requires wrap > 0 && Allocated(wrap, nextAlloc, index, ids, blocks, drawn) && index < PREALLOC_LEN
    ensures Allocated(wrap, nextAlloc, index + 1, ids, blocks, drawn + [ids[index]])
  {
    hide Start;
    var more, n := drawn + [ids[index]], |drawn|;
    assert n == (blocks - 1) * PREALLOC_LEN + index;
    forall i | 0 <= i < n && i / PREALLOC_LEN == n / PREALLOC_LEN ensures more[i] != more[n] {
      assert drawn[(blocks - 1) * PREALLOC_LEN + (i - (blocks - 1) * PREALLOC_LEN)] ==
             ids[i - (blocks - 1) * PREALLOC_LEN];
    }
  }

  lemma RefillKeeps(wrap: nat, nextAlloc: nat, ids: seq<nat>, blocks: nat, drawn: seq<nat>, ids': seq<nat>)
    requires wrap > 0 && Allocated(wrap, nextAlloc, PREALLOC_LEN, ids, blocks, drawn)
    requires IsBlock(ids', if nextAlloc == wrap * PREALLOC_LEN then 0 else nextAlloc)
    ensures Allocated(wrap, (if nextAlloc == wrap * PREALLOC_LEN then 0 else nextAlloc) + PREALLOC_LEN,
                      0, ids', blocks + 1, drawn)
  {
    hide Distinct, DrawnInBlocks;
    NextStart(wrap, blocks);
    ModuloUnique(0, wrap, 0, 0);
  }

  /** Draws from blocks fewer than one whole wrap apart are different ids. */
  lemma DrawsDiffer(wrap: nat, drawn: seq<nat>, i: nat, j: nat)
    requires wrap > 0 && DrawnInBlocks(wrap, drawn) && i < j < |drawn|
    requires j / PREALLOC_LEN - i / PREALLOC_LEN < wrap
    ensures drawn[i] != drawn[j]
  {
    var p, q := i / PREALLOC_LEN, j / PREALLOC_LEN;
    if p != q {
      ResiduesDiffer(p, q, wrap);
    }
  }

  lemma ResiduesDiffer(p: nat, q: nat, wrap: nat)
    requires p < q && q - p < wrap
    ensures p % wrap != q % wrap
  {
    var k: int := q / wrap - p / wrap;
    assert q - p == wrap * k + (q % wrap - p % wrap);
    MultipleBound(wrap, k);
  }

  // ----- Transaction ids

  function Pow2(k: nat): (r: nat)
    ensures r > 0
  {
    if k == 0 then 1 else 2 * Pow2(k - 1)
  }

  /** Or and and of unsigned words, bit by bit. */
  function BitOr(x: nat, y: nat): nat {
    if x == 0 && y == 0 then 0 else 2 * BitOr(x / 2, y / 2) + if x % 2 == 1 || y % 2 == 1 then 1 else 0
  }

  function BitAnd(x: nat, y: nat): nat {
    if x == 0 && y == 0 then 0 else 2 * BitAnd(x / 2, y / 2) + if x % 2 == 1 && y % 2 == 1 then 1 else 0
  }

  lemma {:induction false} BitOrZero(x: nat)
    ensures BitOr(x, 0) == x
  {
    if x > 0 {
      BitOrZero(x / 2);
    }
  }

  lemma {:induction false} BitAndZero(x: nat)
    ensures BitAnd(x, 0) == 0
  {
    if x > 0 {
      BitAndZero(x / 2);
    }
  }

  lemma ShiftHalf(x: nat, k: nat)
    requires k > 0
    ensures x * Pow2(k) == 2 * (x * Pow2(k - 1))
  {}

  /** Or-ing an id into a field shifted clear is adding it. */
  lemma {:induction false} OrIsPlus(x: nat, m: nat, k: nat)
    requires m < Pow2(k)
    ensures BitOr(x * Pow2(k), m) == x * Pow2(k) + m
  {
    if k == 0 {
      BitOrZero(x);
    } else {
      ShiftHalf(x, k);
      OrIsPlus(x, m / 2, k - 1);
    }
  }

  /** Masking off all but the low bits is taking the remainder. */
  lemma {:induction false} MaskIsRemainder(x: nat, k: nat)
    ensures BitAnd(x, Pow2(k) - 1) == x % Pow2(k)
  {
    if k == 0 {
      BitAndZero(x);
    } else {
      MaskIsRemainder(x / 2, k - 1);
      HalfRemainder(x, Pow2(k - 1));
    }
  }

  lemma HalfRemainder(x: nat, p: nat)
    requires p > 0
    ensures x % (2 * p) == 2 * (x / 2 % p) + x % 2
  {
    var q := x / 2 / p;
    assert x / 2 == p * q + x / 2 % p;
    assert x == 2 * (p * q) + (2 * (x / 2 % p) + x % 2);
    assert 2 * (p * q) == 2 * p * q;
    ModuloUnique(x, 2 * p, q, 2 * (x / 2 % p) + x % 2);
  }

  type U64 = n: nat | n < 0x1_0000_0000_0000_0000

  datatype TransactionId = TransactionId(transId: U64, bytes: seq<Byte>)

  function EightBytesToArray(n: U64): (r: seq<Byte>) {
    [n / 0x100_0000_0000_0000, n / 0x1_0000_0000_0000 % 256, n / 0x100_0000_0000 % 256, n / 0x1_0000_0000 % 256,
     n / 0x100_0000 % 256, n / 0x1_0000 % 256, n / 0x100 % 256, n % 256]
  }

  function NewTransaction(n: U64): TransactionId {
    TransactionId(n, EightBytesToArray(n))
  }

  function ActionOf(n: U64): nat {
    n / MAX_MESSAGE_ID
  }

  function MessageOf(n: U64): nat {
    BitAnd(n, MAX_MESSAGE_ID - 1)
  }

  lemma MessageIs(n: U64)
    ensures MessageOf(n) == n % MAX_MESSAGE_ID
  {
    hide BitAnd, Pow2;
    MessageBits();
    MaskIsRemainder(n, 24);
  }

  lemma QuotientUnique(n: nat, d: nat, q: nat, r: nat)
    requires r < d && n == d * q + r
    ensures n / d == q
  {
    ModuloUnique(n, d, q, r);
    var k: int := n / d - q;
    assert d * k == 0;
    MultipleBound(d, k);
  }

  lemma Distribute(d: nat, e: nat, q: nat, t: nat)
    ensures d * (e * q + t) == d * e * q + d * t
  {
    assert d * (e * q + t) == d * (e * q) + d * t;
  }

  lemma BelowMultiple(d: nat, e: nat, t: nat)
    requires t < e
    ensures d * t + d <= d * e
  {
    assert d * e == d * (t + 1) + d * (e - t - 1);
  }

  lemma Regroup(n: nat, d: nat, e: nat, m: nat, r: nat, q: nat, t: nat)
    requires n == d * m + r && r < d && m == e * q + t && t < e
    ensures n == d * e * q + (d * t + r) && d * t + r < d * e
  {
    Distribute(d, e, q, t);
    BelowMultiple(d, e, t);
  }

  lemma DivideTwice(n: nat, d: nat, e: nat)
    requires d > 0 && e > 0
    ensures d * e > 0 && n / d / e == n / (d * e)
  {
    var m := n / d;
    Regroup(n, d, e, m, n % d, m / e, m % e);
    QuotientUnique(n, d * e, m / e, d * (m % e) + n % d);
  }

  /** Four digits at a time. */
  lemma LowFour(n: nat, k: nat)
    ensures LowBytes(n, k + 4) ==
            LowBytes(n / 0x1_0000_0000, k) + [n / 0x100_0000 % 256, n / 0x1_0000 % 256, n / 0x100 % 256, n % 256]
  {
    hide LowBytes;
    DivideTwice(n, 0x100, 0x100);
    DivideTwice(n, 0x1_0000, 0x100);
    DivideTwice(n, 0x100_0000, 0x100);
    LowBytesTail(n, k + 4);
    LowBytesTail(n / 0x100, k + 3);
    LowBytesTail(n / 0x1_0000, k + 2);
    LowBytesTail(n / 0x100_0000, k + 1);
  }

  lemma EightBytesAreLow(n: U64)
    ensures EightBytesToArray(n) == LowBytes(n, 8)
  {
    hide LowBytes;
    var high := n / 0x1_0000_0000;
    LowFour(n, 4);
    LowFour(high, 0);
    DivideTwice(n, 0x1_0000_0000, 0x100);
    DivideTwice(n, 0x1_0000_0000, 0x1_0000);
    DivideTwice(n, 0x1_0000_0000, 0x100_0000);
  }

  lemma BigEndianFits(bytes: seq<Byte>)
    requires |bytes| == TRANSACTION_ID_BYTES
    ensures BigEndian(bytes) < 0x1_0000_0000_0000_0000
  {
    BigEndianBound(bytes);
    assert Power256(8) == 0x1_0000_0000_0000_0000;
  }

  /** Different numbers have different bytes. */
  lemma BytesIdentify(m: U64, n: U64)
    requires EightBytesToArray(m) == EightBytesToArray(n)
    ensures m == n
  {
    EightBytesAreLow(m);
    EightBytesAreLow(n);
    assert Power256(8) == 0x1_0000_0000_0000_0000;
    BigEndianOfLowBytes(m, Power256(8), 8);
    BigEndianOfLowBytes(n, Power256(8), 8);
  }

  lemma OrByte(n: nat, b: Byte)
    ensures BitOr(n * 256, b as nat) == n * 256 + b as nat
  {
    hide BitOr;
    assert Pow2(8) == 256;
    OrIsPlus(n, b as nat, 8);
  }

  method FromBytes(bytes: seq<Byte>) returns (r: Option<TransactionId>)
    ensures r.Some? <==> |bytes| == TRANSACTION_ID_BYTES
    ensures r.Some? ==> r.value.bytes == bytes
    ensures forall n: U64 :: bytes == EightBytesToArray(n) ==> r == Some(NewTransaction(n))
  {
    if |bytes| != TRANSACTION_ID_BYTES {
      return None;
    }
    var transId: nat := 0;
    for i := 0 to |bytes|
      invariant transId == BigEndian(bytes[..i])
    {
      OrByte(transId, bytes[i]);
      transId := BitOr(transId * 256, bytes[i] as nat);
      assert bytes[..i + 1][..i] == bytes[..i];
    }
    assert bytes[..|bytes|] == bytes;
    BigEndianFits(bytes);
    EightBytesAreLow(transId);
    LowBytesOfBigEndian(bytes);
    r := Some(NewTransaction(transId));
    forall n: U64 | bytes == EightBytesToArray(n) ensures n == transId {
      BytesIdentify(n, transId);
    }
  }

  // ----- Generators

  lemma NextBelow(wrap: nat, nextAlloc: nat, index: nat, ids: seq<nat>, blocks: nat, drawn: seq<nat>)
    requires wrap > 0 && Allocated(wrap, nextAlloc, index, ids, blocks, drawn)
    ensures |ids| == PREALLOC_LEN && index <= PREALLOC_LEN
    ensures index < PREALLOC_LEN ==> ids[index] < wrap * PREALLOC_LEN
  {
    hide DrawnInBlocks, Distinct;
  }

  /** An id composed of both fields has both fields. */
  lemma ComposedId(shifted: nat, message: nat)
    requires shifted < 0x1_0000_0000_0000_0000 && shifted % MAX_MESSAGE_ID == 0 && message < MAX_MESSAGE_ID
    ensures var id := BitOr(shifted, message);
            id < 0x1_0000_0000_0000_0000 && ActionOf(id) == ActionOf(shifted) && MessageOf(id) == message
  {
    hide BitOr, MessageOf, Pow2;
    var action := shifted / MAX_MESSAGE_ID;
    assert shifted == action * MAX_MESSAGE_ID;
    MessageBits();
    OrIsPlus(action, message, 24);
    MessageIs(shifted + message);
  }

  lemma MessageBits()
    ensures Pow2(24) == MAX_MESSAGE_ID
  {
    assert Pow2(8) == 0x100;
    assert Pow2(16) == 0x1_0000;
  }

  lemma ShiftedId(action: nat)
    requires action < MAX_ACTION_ID
    ensures action * MAX_MESSAGE_ID < 0x1_0000_0000_0000_0000
    ensures action * MAX_MESSAGE_ID % MAX_MESSAGE_ID == 0 && ActionOf(action * MAX_MESSAGE_ID) == action
  {}

  class MidGenerator {
    /** Already shifted. */
    const actionId: U64
    var nextAlloc: nat
    var currIndex: nat
    var messageIds: array<nat>
    ghost var blocks: nat
    ghost var drawn: seq<nat>

    ghost predicate Valid()
      reads this, messageIds
    {
      && actionId % MAX_MESSAGE_ID == 0
      && Allocated(MESSAGE_BLOCKS, nextAlloc, currIndex, messageIds[..], blocks, drawn)
    }

    constructor (actionId: U64)
      requires actionId % MAX_MESSAGE_ID == 0
      ensures Valid() && fresh(messageIds) && this.actionId == actionId && drawn == []
    {
      this.actionId := actionId;
      nextAlloc, currIndex := 0, PREALLOC_LEN;
      messageIds := new nat[PREALLOC_LEN](_ => 0);
      blocks, drawn := 0, [];
    }

    /** The generated id belongs to this generator's action, and carries the next message id drawn. */
    method Generate() returns (r: TransactionId)
      requires Valid()
      modifies this
      ensures Valid() && (messageIds == old(messageIds) || fresh(messageIds))
      ensures r == NewTransaction(r.transId) && ActionOf(r.transId) == ActionOf(actionId)
      ensures drawn == old(drawn) + [MessageOf(r.transId)]
      decreases currIndex >= PREALLOC_LEN
    {
      hide Allocated, IsBlock, ActionOf, MessageOf;
      NextBelow(MESSAGE_BLOCKS, nextAlloc, currIndex, messageIds[..], blocks, drawn);
      if currIndex < PREALLOC_LEN {
        var messageId := messageIds[currIndex];
        DrawKeeps(MESSAGE_BLOCKS, nextAlloc, currIndex, messageIds[..], blocks, drawn);
        currIndex := currIndex + 1;
        drawn := drawn + [messageId];
        ComposedId(actionId, messageId);
        r := NewTransaction(BitOr(actionId, messageId));
      } else {
        var next, ids := ShuffledIds(MAX_MESSAGE_ID, nextAlloc);
        RefillKeeps(MESSAGE_BLOCKS, nextAlloc, messageIds[..], blocks, drawn, ids[..]);
        nextAlloc, messageIds, currIndex := next, ids, 0;
        blocks := blocks + 1;
        r := Generate();
      }
    }
  }

  class AidGenerator {
    var nextAlloc: nat
    var currIndex: nat
    var actionIds: array<nat>
    ghost var blocks: nat
    ghost var drawn: seq<nat>

    ghost predicate Valid()
      reads this, actionIds
    {
      Allocated(ACTION_BLOCKS, nextAlloc, currIndex, actionIds[..], blocks, drawn)
    }

    constructor ()
      ensures Valid() && fresh(actionIds) && drawn == []
    {
      var next, ids := ShuffledIds(MAX_ACTION_ID, 0);
      nextAlloc, currIndex, actionIds := next, 0, ids;
      blocks, drawn := 1, [];
    }

    /** The new generator's ids belong to the next action id drawn. */
    method Generate() returns (r: MidGenerator)
      requires Valid()
      modifies this
      ensures Valid() && (actionIds == old(actionIds) || fresh(actionIds))
      ensures fresh(r) && r.Valid() && fresh(r.messageIds) && r.drawn == []
      ensures drawn == old(drawn) + [ActionOf(r.actionId)]
      decreases currIndex >= PREALLOC_LEN
    {
      hide Allocated, IsBlock, ActionOf, MessageOf;
      NextBelow(ACTION_BLOCKS, nextAlloc, currIndex, actionIds[..], blocks, drawn);
      if currIndex < PREALLOC_LEN {
        var actionId := actionIds[currIndex];
        DrawKeeps(ACTION_BLOCKS, nextAlloc, currIndex, actionIds[..], blocks, drawn);
        currIndex := currIndex + 1;
        drawn := drawn + [actionId];
        ShiftedId(actionId);
        r := new MidGenerator(actionId * MAX_MESSAGE_ID);
      } else {
        var next, ids := ShuffledIds(MAX_ACTION_ID, nextAlloc);
        RefillKeeps(ACTION_BLOCKS, nextAlloc, actionIds[..], blocks, drawn, ids[..]);
        nextAlloc, actionIds, currIndex := next, ids, 0;
        blocks := blocks + 1;
        r := Generate();
      }
    }
  }

  // ----- Whole runs

  /**
   * `actions[g]` is the id of generator g and `messages[g]` what it has drawn. Two ids in use, from actions
   * and messages whose blocks are fewer than one wrap apart, are the same only if they are the same draw.
   */
  lemma TransactionsDiffer(actions: seq<nat>, messages: seq<seq<nat>>, x: U64, y: U64, g: nat, i: nat, h: nat, j: nat)
    requires |actions| == |messages| && DrawnInBlocks(ACTION_BLOCKS, actions)
    requires forall k :: 0 <= k < |messages| ==> DrawnInBlocks(MESSAGE_BLOCKS, messages[k])
    requires g <= h < |actions| && i < |messages[g]| && j < |messages[h]|
    requires ActionOf(x) == actions[g] && MessageOf(x) == messages[g][i]
    requires ActionOf(y) == actions[h] && MessageOf(y) == messages[h][j]
    requires h / PREALLOC_LEN - g / PREALLOC_LEN < ACTION_BLOCKS
    requires g == h ==> -MESSAGE_BLOCKS < j / PREALLOC_LEN - i / PREALLOC_LEN < MESSAGE_BLOCKS
    ensures NewTransaction(x).bytes == NewTransaction(y).bytes <==> g == h && i == j
  {
    hide MessageOf;
    MessageIs(x);
    MessageIs(y);
    if g < h {
      DrawsDiffer(ACTION_BLOCKS, actions, g, h);
    } else if i < j {
      DrawsDiffer(MESSAGE_BLOCKS, messages[g], i, j);
    } else if j < i {
      DrawsDiffer(MESSAGE_BLOCKS, messages[g], j, i);
    }
    if NewTransaction(x).bytes == NewTransaction(y).bytes {
      BytesIdentify(x, y);
    }
  }
}
