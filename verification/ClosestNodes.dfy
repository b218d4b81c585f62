/** The iterator that hands out table nodes bucket by bucket around a target id. */
module ClosestNodes {
  import opened Wrappers
  import opened Sha
  import opened Bucket
  import opened Table

  // ----- The zig-zag over bucket indices

  function CheckedSub(a: nat, b: nat): Option<nat> {
    if a >= b then Some(a - b) else None
  }

  predicate IndexIsInBounds(length: nat, checkedIndex: Option<nat>) {
    checkedIndex.Some? && checkedIndex.value < length
  }

  function NextBucketIndex(numBuckets: nat, start: nat, curr: nat): Option<nat> {
    var (first, second) :=
      if curr < start then (Some(start + (start - curr) + 1), CheckedSub(curr, 1))
      else if curr == start then (Some(start + 1), CheckedSub(start, 1))
      else (CheckedSub(start, curr - start), Some(curr + 1));
    if IndexIsInBounds(numBuckets, first) then first
    else if IndexIsInBounds(numBuckets, second) then second
    else None
  }

  /** Indices the walk can stand on: the 160 buckets, and 160 itself when it starts there. */
  function Limit(start: nat): nat {
    if start >= MAX_BUCKETS then start + 1 else MAX_BUCKETS
  }

  /** The walk stands on `curr` having visited exactly the indices from `lo` to `hi`. */
  predicate Visited(start: nat, curr: nat, lo: nat, hi: nat) {
    && lo <= start <= hi < Limit(start)
    && if curr < start then
         lo == curr && hi == (if 2 * start - curr < MAX_BUCKETS then 2 * start - curr else Limit(start) - 1)
       else
         hi == curr && lo == (if curr == start then start else if start >= curr - start - 1 then start - (curr - start - 1) else 0)
  }

  ghost predicate OnWalk(start: nat, curr: nat) {
    exists lo: nat, hi: nat :: Visited(start, curr, lo, hi)
  }

  /** One step extends the visited interval by the new index, and stops only when all are visited. */
  lemma Extend(start: nat, curr: nat, lo: nat, hi: nat)
    requires start <= MAX_BUCKETS && Visited(start, curr, lo, hi)
    ensures match NextBucketIndex(MAX_BUCKETS, start, curr)
            case None => lo == 0 && hi == Limit(start) - 1
            case Some(i) => (i + 1 == lo && Visited(start, i, i, hi)) || (i == hi + 1 && Visited(start, i, lo, i))
  {}

  function Unvisited(start: nat, curr: nat): (r: nat)
    requires start <= MAX_BUCKETS && curr < Limit(start)
  {
    var hi := if curr >= start then curr else if 2 * start - curr < MAX_BUCKETS then 2 * start - curr else Limit(start) - 1;
    var lo := if curr <= start then curr else if start >= curr - start - 1 then start - (curr - start - 1) else 0;
    Limit(start) - 1 - hi + lo
  }

  /** The indices still to come. */
  function Path(start: nat, curr: nat): (r: seq<nat>)
    requires start <= MAX_BUCKETS && curr < Limit(start)
    decreases Unvisited(start, curr)
  {
    match NextBucketIndex(MAX_BUCKETS, start, curr)
    case None => []
    case Some(i) => [i] + Path(start, i)
  }

  /** `path` extends the interval `[lo, hi)` one index at a time, at either end, up to `[0, n)`. */
  predicate Grows(path: seq<nat>, lo: nat, hi: nat, n: nat) {
    if path == [] then lo == 0 && hi == n
    else (path[0] + 1 == lo && Grows(path[1..], path[0], hi, n)) || (path[0] == hi < n && Grows(path[1..], lo, hi + 1, n))
  }

  lemma {:induction false} PathGrows(start: nat, curr: nat, lo: nat, hi: nat)
    requires start <= MAX_BUCKETS && Visited(start, curr, lo, hi)
    ensures Grows(Path(start, curr), lo, hi + 1, Limit(start))
    decreases lo + Limit(start) - hi
  {
    Extend(start, curr, lo, hi);
    match NextBucketIndex(MAX_BUCKETS, start, curr)
    case None =>
    case Some(i) =>
      assert Path(start, curr)[1..] == Path(start, i);
      if i < lo {
        PathGrows(start, i, i, hi);
      } else {
        PathGrows(start, i, lo, i);
      }
  }

  lemma {:induction false} GrowsCounts(path: seq<nat>, lo: nat, hi: nat, n: nat, i: nat)
    requires lo <= hi <= n && Grows(path, lo, hi, n)
    ensures multiset(path)[i] == if i < n && !(lo <= i < hi) then 1 else 0
  {
    if path != [] {
      assert path == [path[0]] + path[1..];
      if path[0] + 1 == lo && Grows(path[1..], path[0], hi, n) {
        GrowsCounts(path[1..], path[0], hi, n, i);
      } else {
        GrowsCounts(path[1..], lo, hi + 1, n, i);
      }
    }
  }

  /** From any start, the start followed by its path holds every bucket index exactly once. */
  lemma ZigZagVisitsAllOnce(start: nat, i: nat)
    requires start <= MAX_BUCKETS
    ensures multiset([start] + Path(start, start))[i] == if i < MAX_BUCKETS || i == start then 1 else 0
  {
    PathGrows(start, start, start, start);
    GrowsCounts(Path(start, start), start, start + 1, Limit(start), i);
  }

  /** How late an index is visited: by its distance from the start, the higher of two at the same distance first. */
  function Turn(start: nat, i: nat): nat {
    if i > start then 2 * (i - start) - 1 else 2 * (start - i)
  }

  /** The walk goes by distance from the start, higher index first; with each index visited once this fixes its order. */
  lemma {:induction false} ZigZagOrder(start: nat, curr: nat, lo: nat, hi: nat, j: nat, k: nat)
    requires start <= MAX_BUCKETS && Visited(start, curr, lo, hi) && j < k <= |Path(start, curr)|
    ensures Turn(start, ([curr] + Path(start, curr))[j]) < Turn(start, ([curr] + Path(start, curr))[k])
    decreases lo + Limit(start) - hi
  {
    Extend(start, curr, lo, hi);
    var i := NextBucketIndex(MAX_BUCKETS, start, curr).value;
    assert Path(start, curr) == [i] + Path(start, i);
    assert Turn(start, curr) < Turn(start, i);
    var newLo, newHi := if i < lo then i else lo, if i < lo then hi else i;
    if j > 0 {
      ZigZagOrder(start, i, newLo, newHi, j - 1, k - 1);
    } else if k > 1 {
      ZigZagOrder(start, i, newLo, newHi, 0, k - 1);
    }
  }

  lemma PathAvoids(start: nat, curr: nat)
    requires start <= MAX_BUCKETS && OnWalk(start, curr)
    ensures curr !in Path(start, curr) && start !in Path(start, curr)
  {
    var lo: nat, hi: nat :| Visited(start, curr, lo, hi);
    PathGrows(start, curr, lo, hi);
    GrowsCounts(Path(start, curr), lo, hi + 1, Limit(start), curr);
    GrowsCounts(Path(start, curr), lo, hi + 1, Limit(start), start);
  }

  // ----- What is still to be handed out

  function Pingables(st: Liveness, nodes: seq<Node>): seq<Node> {
    if nodes == [] then []
    else (if Pingable(st, nodes[0]) then [nodes[0]] else []) + Pingables(st, nodes[1..])
  }

  /** A node of the last bucket, the bucket it will eventually get, and whether it was handed out. */
  datatype Assorted = Assorted(index: nat, node: Node, returned: bool)

  function SortedBuckets(bs: Slots): (r: Slots)
    requires Shape(bs)
  {
    if |bs| == MAX_BUCKETS then bs else bs[..|bs| - 1]
  }

  /** The slots iterated for one index: none while its bucket has not been created. */
  function BucketIterator(bs: Slots, i: nat): seq<Node>
    requires Shape(bs)
  {
    if i < |SortedBuckets(bs)| then SortedBuckets(bs)[i] else []
  }

  function Assort(self: ShaHash, nodes: seq<Node>): seq<Assorted> {
    seq(|nodes|, i requires 0 <= i < |nodes| => Assorted(CommonPrefix(self, nodes[i].id), nodes[i], false))
  }

  function PrecomputeAssortedNodes(self: ShaHash, bs: Slots): seq<Assorted>
    requires Shape(bs)
  {
    if |bs| == MAX_BUCKETS then [] else Assort(self, bs[|bs| - 1])
  }

  predicate Due(st: Liveness, a: Assorted, i: nat) {
    Pingable(st, a.node) && a.index == i && !a.returned
  }

  function AssortedAt(st: Liveness, assorted: seq<Assorted>, i: nat): seq<Node> {
    if assorted == [] then []
    else (if Due(st, assorted[0], i) then [assorted[0].node] else []) + AssortedAt(st, assorted[1..], i)
  }

  function At(st: Liveness, bs: Slots, assorted: seq<Assorted>, i: nat): seq<Node>
    requires Shape(bs)
  {
    Pingables(st, BucketIterator(bs, i)) + AssortedAt(st, assorted, i)
  }

  function Along(st: Liveness, bs: Slots, assorted: seq<Assorted>, path: seq<nat>): seq<Node>
    requires Shape(bs)
  {
    if path == [] then [] else At(st, bs, assorted, path[0]) + Along(st, bs, assorted, path[1..])
  }

  /** Everything one iteration around `target` hands out, in order. */
  function Order(st: Liveness, self: ShaHash, bs: Slots, target: ShaHash): seq<Node>
    requires Shape(bs)
  {
    var start := CommonPrefix(self, target);
    Along(st, bs, PrecomputeAssortedNodes(self, bs), [start] + Path(start, start))
  }

  lemma {:induction false} NoneDue(st: Liveness, assorted: seq<Assorted>, i: nat)
    requires forall a :: a in assorted ==> !Due(st, a, i)
    ensures AssortedAt(st, assorted, i) == []
  {
    if assorted != [] {
      NoneDue(st, assorted[1..], i);
    }
  }

  function Marked(assorted: seq<Assorted>, k: nat): seq<Assorted>
    requires k < |assorted|
  {
    assorted[k := assorted[k].(returned := true)]
  }

  /** Handing out the first due entry removes exactly that node from what is due at its index. */
  lemma {:induction false} MarkReturned(st: Liveness, assorted: seq<Assorted>, k: nat, i: nat)
    requires k < |assorted| && Due(st, assorted[k], i)
    requires forall j :: 0 <= j < k ==> !Due(st, assorted[j], i)
    ensures AssortedAt(st, assorted, i) == [assorted[k].node] + AssortedAt(st, Marked(assorted, k), i)
  {
    if k == 0 {
      assert Marked(assorted, k)[1..] == assorted[1..];
    } else {
      assert Marked(assorted, k)[1..] == Marked(assorted[1..], k - 1);
      MarkReturned(st, assorted[1..], k - 1, i);
    }
  }

  lemma {:induction false} MarkElsewhere(st: Liveness, assorted: seq<Assorted>, k: nat, i: nat)
    requires k < |assorted| && assorted[k].index != i
    ensures AssortedAt(st, Marked(assorted, k), i) == AssortedAt(st, assorted, i)
  {
    if k == 0 {
      assert Marked(assorted, k)[1..] == assorted[1..];
    } else {
      assert Marked(assorted, k)[1..] == Marked(assorted[1..], k - 1);
      MarkElsewhere(st, assorted[1..], k - 1, i);
    }
  }

  lemma {:induction false} MarkOffPath(st: Liveness, bs: Slots, assorted: seq<Assorted>, k: nat, path: seq<nat>)
    requires Shape(bs) && k < |assorted| && assorted[k].index !in path
    ensures Along(st, bs, Marked(assorted, k), path) == Along(st, bs, assorted, path)
  {
    if path != [] {
      MarkElsewhere(st, assorted, k, path[0]);
      MarkOffPath(st, bs, assorted, k, path[1..]);
    }
  }

  /** Marking the first due entry takes exactly its node off the front of what is left. */
  lemma MarkDue(st: Liveness, bs: Slots, assorted: seq<Assorted>, k: nat, start: nat, curr: nat)
    requires Shape(bs) && start <= MAX_BUCKETS && curr < Limit(start) && OnWalk(start, curr)
    requires k < |assorted| && Due(st, assorted[k], curr) && forall j :: 0 <= j < k ==> !Due(st, assorted[j], curr)
    ensures AssortedAt(st, assorted, curr) + Along(st, bs, assorted, Path(start, curr))
         == [assorted[k].node] + (AssortedAt(st, Marked(assorted, k), curr) + Along(st, bs, Marked(assorted, k), Path(start, curr)))
  {
    PathAvoids(start, curr);
    MarkReturned(st, assorted, k, curr);
    MarkOffPath(st, bs, assorted, k, Path(start, curr));
    Prepend(assorted[k].node, AssortedAt(st, Marked(assorted, k), curr), Along(st, bs, assorted, Path(start, curr)));
  }

  lemma Prepend(n: Node, a: seq<Node>, b: seq<Node>)
    ensures ([n] + a) + b == [n] + (a + b)
  {}

  // ----- The iterator in place

  method Precompute(self: ShaHash, bs: Slots) returns (assorted: seq<Assorted>)
    requires Shape(bs)
    ensures assorted == PrecomputeAssortedNodes(self, bs)
  {
    hide CommonPrefix;
    assorted := [];
    if |bs| != MAX_BUCKETS {
      var last := bs[|bs| - 1];
      for index := 0 to |last|
        invariant assorted == Assort(self, last)[..index]
      {
        var bucketIndex := LeadingBitCount(self, last[index].id);
        assorted := assorted + [Assorted(bucketIndex, last[index], false)];
      }
    }
  }

  class ClosestNodes {
    const st: Liveness
    const buckets: Slots
    const startIndex: nat
    var currentIter: seq<Node>
    var currentIndex: nat
    var assortedNodes: seq<Assorted>

    ghost predicate Valid()
      reads this
    {
      Shape(buckets) && startIndex <= MAX_BUCKETS && currentIndex < Limit(startIndex)
      && OnWalk(startIndex, currentIndex)
    }

    ghost function Remaining(): seq<Node>
      requires Valid()
      reads this
    {
      Pingables(st, currentIter)
      + (AssortedAt(st, assortedNodes, currentIndex) + Along(st, buckets, assortedNodes, Path(startIndex, currentIndex)))
    }

    constructor (st: Liveness, buckets: Slots, selfNodeId: ShaHash, otherNodeId: ShaHash)
      requires Shape(buckets)
      ensures Valid() && this.st == st
      ensures Remaining() == Order(st, selfNodeId, buckets, otherNodeId)
    {
      var start := LeadingBitCount(selfNodeId, otherNodeId);
      var assorted := Precompute(selfNodeId, buckets);
      this.st, this.buckets, startIndex, currentIndex := st, buckets, start, start;
      currentIter := BucketIterator(buckets, start);
      assortedNodes := assorted;
      new;
      assert Visited(start, start, start, start);
      assert ([start] + Path(start, start))[1..] == Path(start, start);
    }

    /** The filtered slice iterator over the slots of the current bucket. */
    method NextInBucket() returns (r: Option<Node>)
      requires Valid()
      modifies this`currentIter
      ensures r.None? ==> Pingables(st, currentIter) == [] && Remaining() == old(Remaining())
      ensures r.Some? ==> old(Remaining()) == [r.value] + Remaining()
    {
      while currentIter != []
        invariant Pingables(st, currentIter) == old(Pingables(st, currentIter))
        decreases |currentIter|
      {
        var node := currentIter[0];
        currentIter := currentIter[1..];
        if Pingable(st, node) {
          Prepend(node, Pingables(st, currentIter), Remaining()[|Pingables(st, currentIter)|..]);
          return Some(node);
        }
      }
      return None;
    }

    /** The first node of the last bucket that belongs to the current index and is not marked yet. */
    method NextAssorted() returns (r: Option<Node>)
      requires Valid() && Pingables(st, currentIter) == []
      modifies this`assortedNodes
      ensures r.None? ==> AssortedAt(st, assortedNodes, currentIndex) == [] && Remaining() == old(Remaining())
      ensures r.Some? ==> old(Remaining()) == [r.value] + Remaining()
    {
      hide Along, Path, Pingables;
      for i := 0 to |assortedNodes|
        invariant assortedNodes == old(assortedNodes)
        invariant forall j :: 0 <= j < i ==> !Due(st, assortedNodes[j], currentIndex)
      {
        if Due(st, assortedNodes[i], currentIndex) {
          MarkDue(st, buckets, assortedNodes, i, startIndex, currentIndex);
          r := Some(assortedNodes[i].node);
          assortedNodes := Marked(assortedNodes, i);
          return;
        }
      }
      NoneDue(st, assortedNodes, currentIndex);
      return None;
    }

    /** Moves to the next bucket index, unless all have been visited. */
    method Advance() returns (moved: bool)
      requires Valid()
      requires Pingables(st, currentIter) == [] && AssortedAt(st, assortedNodes, currentIndex) == []
      modifies this`currentIndex, this`currentIter
      ensures Valid() && Remaining() == old(Remaining())
      ensures if moved then Unvisited(startIndex, currentIndex) < old(Unvisited(startIndex, currentIndex)) else Remaining() == []
    {
      ghost var lo: nat, hi: nat :| Visited(startIndex, currentIndex, lo, hi);
      Extend(startIndex, currentIndex, lo, hi);
      var next := NextBucketIndex(MAX_BUCKETS, startIndex, currentIndex);
      moved := next.Some?;
      if moved {
        ghost var path := Path(startIndex, currentIndex);
        assert path[0] == next.value && path[1..] == Path(startIndex, next.value);
        currentIndex := next.value;
        currentIter := BucketIterator(buckets, currentIndex);
        assert Visited(startIndex, currentIndex, currentIndex, hi) || Visited(startIndex, currentIndex, lo, currentIndex);
      }
    }

    method Next() returns (r: Option<Node>)
      requires Valid()
      modifies this
      ensures Valid()
      ensures match r
              case None => old(Remaining()) == [] && Remaining() == []
              case Some(n) => old(Remaining()) == [n] + Remaining()
      decreases Unvisited(startIndex, currentIndex)
    {
      r := NextInBucket();
      if r.None? {
        r := NextAssorted();
        if r.None? {
          var moved := Advance();
          if moved {
            r := Next();
          }
        }
      }
    }

    /** Draining the iterator. */
    method Collect() returns (r: seq<Node>)
      requires Valid()
      modifies this
      ensures r == old(Remaining())
    {
      hide Along, AssortedAt, Pingables, Path;
      r := [];
      while true
        invariant Valid() && old(Remaining()) == r + Remaining()
        decreases |Remaining()|
      {
        var node := Next();
        if node.None? {
          return;
        }
        Append(r, node.value, Remaining());
        r := r + [node.value];
      }
    }
  }

  lemma Append(a: seq<Node>, n: Node, b: seq<Node>)
    ensures a + ([n] + b) == (a + [n]) + b
  {}

  // ----- Each pingable node exactly once

  /** The pingable nodes of the table, bucket by bucket. */
  function Everyone(st: Liveness, bs: Slots): seq<Node> {
    if bs == [] then [] else Everyone(st, bs[..|bs| - 1]) + Pingables(st, bs[|bs| - 1])
  }

  function Times(s: seq<Node>, x: Node): nat {
    if s == [] then 0 else (if s[0] == x then 1 else 0) + Times(s[1..], x)
  }

  lemma {:induction false} TimesConcat(a: seq<Node>, b: seq<Node>, x: Node)
    ensures Times(a + b, x) == Times(a, x) + Times(b, x)
  {
    if a == [] {
      assert a + b == b;
    } else {
      assert (a + b)[1..] == a[1..] + b;
      TimesConcat(a[1..], b, x);
    }
  }

  lemma {:induction false} TimesIsMultiplicity(s: seq<Node>, x: Node)
    ensures Times(s, x) == multiset(s)[x]
  {
    if s != [] {
      assert s == [s[0]] + s[1..];
      TimesIsMultiplicity(s[1..], x);
    }
  }

  /** How often `x` is handed out for each of the first `n` indices. */
  ghost function Counts(st: Liveness, bs: Slots, assorted: seq<Assorted>, n: nat, x: Node): seq<nat>
    requires Shape(bs)
  {
    seq(n, i requires 0 <= i < n => Times(At(st, bs, assorted, i), x))
  }

  function RangeSum(parts: seq<nat>, lo: nat, hi: nat): nat
    requires lo <= hi <= |parts|
    decreases hi - lo
  {
    if lo == hi then 0 else RangeSum(parts, lo, hi - 1) + parts[hi - 1]
  }

  lemma {:induction false} SumLeft(parts: seq<nat>, lo: nat, hi: nat)
    requires lo < hi <= |parts|
    ensures RangeSum(parts, lo, hi) == parts[lo] + RangeSum(parts, lo + 1, hi)
    decreases hi - lo
  {
    if lo + 1 < hi {
      SumLeft(parts, lo, hi - 1);
    }
  }

  predicate Below(path: seq<nat>, n: nat) {
    forall k :: 0 <= k < |path| ==> path[k] < n
  }

  function PathSum(parts: seq<nat>, path: seq<nat>): nat
    requires Below(path, |parts|)
  {
    if path == [] then 0 else parts[path[0]] + PathSum(parts, path[1..])
  }

  lemma PathSumCons(parts: seq<nat>, i: nat, path: seq<nat>)
    requires i < |parts| && Below(path, |parts|)
    ensures Below([i] + path, |parts|) && PathSum(parts, [i] + path) == parts[i] + PathSum(parts, path)
  {
    assert ([i] + path)[1..] == path;
  }

  lemma {:induction false} AlongCounts(st: Liveness, bs: Slots, assorted: seq<Assorted>, n: nat, path: seq<nat>, x: Node)
    requires Shape(bs) && Below(path, n)
    ensures Times(Along(st, bs, assorted, path), x) == PathSum(Counts(st, bs, assorted, n, x), path)
  {
    if path != [] {
      AlongCounts(st, bs, assorted, n, path[1..], x);
      TimesConcat(At(st, bs, assorted, path[0]), Along(st, bs, assorted, path[1..]), x);
      assert Counts(st, bs, assorted, n, x)[path[0]] == Times(At(st, bs, assorted, path[0]), x);
    }
  }

  /** Summed along a growing path, any parts give exactly those outside the interval. */
  lemma {:induction false} GrowsSum(parts: seq<nat>, path: seq<nat>, lo: nat, hi: nat)
    requires lo <= hi <= |parts| && Grows(path, lo, hi, |parts|)
    ensures Below(path, |parts|)
    ensures RangeSum(parts, lo, hi) + PathSum(parts, path) == RangeSum(parts, 0, |parts|)
    decreases |path|
  {
    if path != [] {
      if path[0] + 1 == lo && Grows(path[1..], path[0], hi, |parts|) {
        GrowsSum(parts, path[1..], path[0], hi);
        SumLeft(parts, path[0], hi);
      } else {
        GrowsSum(parts, path[1..], lo, hi + 1);
      }
      assert path == [path[0]] + path[1..];
      PathSumCons(parts, path[0], path[1..]);
    }
  }

  lemma WholeWalkSum(parts: seq<nat>, start: nat)
    requires start <= MAX_BUCKETS && |parts| == Limit(start)
    ensures Below([start] + Path(start, start), |parts|)
    ensures PathSum(parts, [start] + Path(start, start)) == RangeSum(parts, 0, |parts|)
  {
    PathGrows(start, start, start, start);
    GrowsSum(parts, Path(start, start), start, start + 1);
    PathSumCons(parts, start, Path(start, start));
    assert RangeSum(parts, start, start + 1) == parts[start];
  }

  lemma OrderCounts(st: Liveness, self: ShaHash, bs: Slots, target: ShaHash, x: Node)
    requires Shape(bs)
    ensures var n, assorted := Limit(CommonPrefix(self, target)), PrecomputeAssortedNodes(self, bs);
            Times(Order(st, self, bs, target), x) == RangeSum(Counts(st, bs, assorted, n, x), 0, n)
  {
    var start, assorted := CommonPrefix(self, target), PrecomputeAssortedNodes(self, bs);
    WholeWalkSum(Counts(st, bs, assorted, Limit(start), x), start);
    AlongCounts(st, bs, assorted, Limit(start), [start] + Path(start, start), x);
  }

  function Least(a: nat, b: nat): nat {
    if a < b then a else b
  }

  lemma EveryoneNext(st: Liveness, bs: Slots, k: nat, x: Node)
    requires k < |bs|
    ensures Times(Everyone(st, bs[..k + 1]), x) == Times(Everyone(st, bs[..k]), x) + Times(Pingables(st, bs[k]), x)
  {
    assert bs[..k + 1][..k] == bs[..k];
    TimesConcat(Everyone(st, bs[..k]), Pingables(st, bs[k]), x);
  }

  ghost function AssortedBelow(st: Liveness, assorted: seq<Assorted>, n: nat, x: Node): nat {
    if n == 0 then 0 else AssortedBelow(st, assorted, n - 1, x) + Times(AssortedAt(st, assorted, n - 1), x)
  }

  /** How often `x` is pingable in the first `k` buckets. */
  ghost function UpTo(st: Liveness, bs: Slots, k: nat, x: Node): nat {
    Times(Everyone(st, bs[..Least(k, |bs|)]), x)
  }

  /** The first `k` indices hand out the first `k` sorted buckets and the assorted nodes that belong to them. */
  lemma {:induction false} CountsSplit(st: Liveness, bs: Slots, assorted: seq<Assorted>, parts: seq<nat>, k: nat, x: Node)
    requires Shape(bs) && k <= |parts| && parts == Counts(st, bs, assorted, |parts|, x)
    ensures RangeSum(parts, 0, k) == UpTo(st, SortedBuckets(bs), k, x) + AssortedBelow(st, assorted, k, x)
    decreases k
  {
    hide Times, Counts, UpTo, SortedBuckets, BucketIterator, Pingables, AssortedAt, Shape;
    UpToNext(st, bs, k, x);
    if k > 0 {
      CountsSplit(st, bs, assorted, parts, k - 1, x);
      CountsAt(st, bs, assorted, |parts|, k - 1, x);
    }
  }

  lemma CountsAt(st: Liveness, bs: Slots, assorted: seq<Assorted>, n: nat, i: nat, x: Node)
    requires Shape(bs) && i < n
    ensures |Counts(st, bs, assorted, n, x)| == n
    ensures Counts(st, bs, assorted, n, x)[i] ==
            Times(Pingables(st, BucketIterator(bs, i)), x) + Times(AssortedAt(st, assorted, i), x)
  {
    hide Times, Pingables, AssortedAt, BucketIterator;
    TimesConcat(Pingables(st, BucketIterator(bs, i)), AssortedAt(st, assorted, i), x);
  }

  lemma UpToNext(st: Liveness, bs: Slots, k: nat, x: Node)
    requires Shape(bs)
    ensures UpTo(st, SortedBuckets(bs), 0, x) == 0
    ensures k > 0 ==> UpTo(st, SortedBuckets(bs), k, x) ==
                      UpTo(st, SortedBuckets(bs), k - 1, x) + Times(Pingables(st, BucketIterator(bs, k - 1)), x)
  {
    hide SortedBuckets, UpTo, Shape, Times, Pingables;
    UpToNone(st, SortedBuckets(bs), x);
    if 0 < k <= |SortedBuckets(bs)| {
      UpToIn(st, SortedBuckets(bs), k - 1, x);
    } else if k > 0 {
      UpToPast(st, SortedBuckets(bs), k - 1, x);
    }
  }

  lemma UpToNone(st: Liveness, bs: Slots, x: Node)
    ensures UpTo(st, bs, 0, x) == 0
  {
    assert bs[..0] == [];
  }

  lemma UpToIn(st: Liveness, bs: Slots, k: nat, x: Node)
    requires k < |bs|
    ensures UpTo(st, bs, k + 1, x) == UpTo(st, bs, k, x) + Times(Pingables(st, bs[k]), x)
  {
    hide Everyone, Times, Pingables;
    EveryoneNext(st, bs, k, x);
  }

  lemma UpToPast(st: Liveness, bs: Slots, k: nat, x: Node)
    requires |bs| <= k
    ensures UpTo(st, bs, k + 1, x) == UpTo(st, bs, k, x) && Times(Pingables(st, []), x) == 0
  {
    hide Everyone;
  }

  lemma AssortedAtHead(st: Liveness, assorted: seq<Assorted>, i: nat, x: Node)
    requires assorted != []
    ensures Times(AssortedAt(st, assorted, i), x)
         == (if Due(st, assorted[0], i) && assorted[0].node == x then 1 else 0) + Times(AssortedAt(st, assorted[1..], i), x)
  {
    TimesConcat(if Due(st, assorted[0], i) then [assorted[0].node] else [], AssortedAt(st, assorted[1..], i), x);
  }

  lemma {:induction false} AssortedHead(st: Liveness, assorted: seq<Assorted>, n: nat, x: Node)
    requires assorted != []
    ensures AssortedBelow(st, assorted, n, x) == AssortedBelow(st, assorted[1..], n, x)
            + if assorted[0].index < n && Due(st, assorted[0], assorted[0].index) && assorted[0].node == x then 1 else 0
  {
    hide Times, AssortedAt, Pingable;
    if n > 0 {
      AssortedHead(st, assorted, n - 1, x);
      AssortedAtHead(st, assorted, n - 1, x);
    }
  }

  lemma {:induction false} AssortedNone(st: Liveness, n: nat, x: Node)
    ensures AssortedBelow(st, [], n, x) == 0
  {
    if n > 0 {
      AssortedNone(st, n - 1, x);
    }
  }

  lemma {:induction false} AssortedTotal(st: Liveness, self: ShaHash, nodes: seq<Node>, n: nat, x: Node)
    requires forall m :: m in nodes && Pingable(st, m) ==> CommonPrefix(self, m.id) < n
    ensures AssortedBelow(st, Assort(self, nodes), n, x) == Times(Pingables(st, nodes), x)
  {
    if nodes == [] {
      AssortedNone(st, n, x);
    } else {
      assert Assort(self, nodes)[1..] == Assort(self, nodes[1..]);
      AssortedHead(st, Assort(self, nodes), n, x);
      AssortedTotal(st, self, nodes[1..], n, x);
      TimesConcat(if Pingable(st, nodes[0]) then [nodes[0]] else [], Pingables(st, nodes[1..]), x);
    }
  }

  lemma AssortedAll(st: Liveness, self: ShaHash, bs: Slots, n: nat, x: Node)
    requires Inv(self, bs) && n >= MAX_BUCKETS
    ensures Times(Everyone(st, SortedBuckets(bs)), x) + AssortedBelow(st, PrecomputeAssortedNodes(self, bs), n, x)
         == Times(Everyone(st, bs), x)
  {
    if |bs| == MAX_BUCKETS {
      AssortedNone(st, n, x);
    } else {
      LastPingables(st, self, bs);
      AssortedTotal(st, self, bs[|bs| - 1], n, x);
      TimesConcat(Everyone(st, bs[..|bs| - 1]), Pingables(st, bs[|bs| - 1]), x);
    }
  }

  lemma LastPingables(st: Liveness, self: ShaHash, bs: Slots)
    requires Inv(self, bs)
    ensures forall m :: m in bs[|bs| - 1] && Pingable(st, m) ==> CommonPrefix(self, m.id) < MAX_BUCKETS
  {
    LastPrefixes(self, bs);
  }

  lemma CountsTotal(st: Liveness, self: ShaHash, bs: Slots, n: nat, x: Node)
    requires Inv(self, bs) && n >= MAX_BUCKETS
    ensures RangeSum(Counts(st, bs, PrecomputeAssortedNodes(self, bs), n, x), 0, n) == Times(Everyone(st, bs), x)
  {
    CountsSplit(st, bs, PrecomputeAssortedNodes(self, bs), Counts(st, bs, PrecomputeAssortedNodes(self, bs), n, x), n, x);
    assert SortedBuckets(bs)[..|SortedBuckets(bs)|] == SortedBuckets(bs);
    AssortedAll(st, self, bs, n, x);
  }

  /** Around any target, also the table's own id, each pingable node is handed out exactly once. */
  lemma ClosestNodesExact(st: Liveness, self: ShaHash, bs: Slots, target: ShaHash)
    requires Inv(self, bs)
    ensures multiset(Order(st, self, bs, target)) == multiset(Everyone(st, bs))
  {
    var order, everyone := Order(st, self, bs, target), Everyone(st, bs);
    forall x ensures multiset(order)[x] == multiset(everyone)[x] {
      OrderCounts(st, self, bs, target, x);
      CountsTotal(st, self, bs, Limit(CommonPrefix(self, target)), x);
      TimesIsMultiplicity(order, x);
      TimesIsMultiplicity(everyone, x);
    }
  }

  /** So for every table that add_node calls can make. */
  lemma ReachableExact(st: Liveness, self: ShaHash, calls: seq<Call>, target: ShaHash)
    ensures multiset(Order(st, self, Run(self, calls), target)) == multiset(Everyone(st, Run(self, calls)))
  {
    RunInv(self, calls);
    ClosestNodesExact(st, self, Run(self, calls), target);
  }

  // ----- The first bucket is the closest

  lemma {:induction false} PingablesIn(st: Liveness, nodes: seq<Node>, m: Node)
    requires m in Pingables(st, nodes)
    ensures m in nodes && Pingable(st, m)
  {
    if m != nodes[0] || !Pingable(st, nodes[0]) {
      PingablesIn(st, nodes[1..], m);
    }
  }

  lemma {:induction false} AssortedIn(st: Liveness, self: ShaHash, nodes: seq<Node>, i: nat, m: Node)
    requires m in AssortedAt(st, Assort(self, nodes), i)
    ensures CommonPrefix(self, m.id) == i
  {
    assert nodes != [];
    assert Assort(self, nodes)[1..] == Assort(self, nodes[1..]);
    if m in AssortedAt(st, Assort(self, nodes[1..]), i) {
      AssortedIn(st, self, nodes[1..], i, m);
    }
  }

  /** Every node handed out at an index shares exactly that many leading bits with the table id. */
  lemma AtPrefix(st: Liveness, self: ShaHash, bs: Slots, i: nat, m: Node)
    requires Inv(self, bs) && m in At(st, bs, PrecomputeAssortedNodes(self, bs), i)
    ensures CommonPrefix(self, m.id) == i
  {
    if m in Pingables(st, BucketIterator(bs, i)) {
      PingablesIn(st, BucketIterator(bs, i), m);
      var j :| 0 <= j < |bs[i]| && bs[i][j] == m;
      assert Placed(self, |bs|, i, bs[i][j]);
    } else {
      AssortedIn(st, self, bs[|bs| - 1], i, m);
    }
  }

  lemma {:induction false} AlongPrefix(st: Liveness, self: ShaHash, bs: Slots, path: seq<nat>, m: Node)
    requires Inv(self, bs) && m in Along(st, bs, PrecomputeAssortedNodes(self, bs), path)
    ensures CommonPrefix(self, m.id) in path
  {
    if m in At(st, bs, PrecomputeAssortedNodes(self, bs), path[0]) {
      AtPrefix(st, self, bs, path[0], m);
    } else {
      AlongPrefix(st, self, bs, path[1..], m);
    }
  }

  /** Nodes handed out for the first index are strictly closer to the target than all later ones. */
  lemma StartBucketIsClosest(st: Liveness, self: ShaHash, bs: Slots, target: ShaHash)
    requires Inv(self, bs) && target != self
    ensures var order, first := Order(st, self, bs, target),
                                At(st, bs, PrecomputeAssortedNodes(self, bs), CommonPrefix(self, target));
            && first <= order
            && forall m, k :: m in first && |first| <= k < |order| ==> Less(Xor(m.id, target), Xor(order[k].id, target))
  {
    var start, assorted := CommonPrefix(self, target), PrecomputeAssortedNodes(self, bs);
    var first, later := At(st, bs, assorted, start), Along(st, bs, assorted, Path(start, start));
    assert ([start] + Path(start, start))[1..] == Path(start, start);
    assert Order(st, self, bs, target) == first + later;
    forall m, n | m in first && n in later ensures Less(Xor(m.id, target), Xor(n.id, target)) {
      AtPrefix(st, self, bs, start, m);
      AlongPrefix(st, self, bs, Path(start, start), n);
      assert Visited(start, start, start, start);
      PathAvoids(start, start);
      FullPrefixIsEqual(self, target);
      PrefixVia(self, m.id, target);
      PrefixVia(self, n.id, target);
      LongerPrefixIsCloser(m.id, n.id, target);
    }
  }
}
