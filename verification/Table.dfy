/** The routing table: a last bucket that splits, and the recursion add/bucket/split. */
module Table {
  import opened Sha
  import opened Bucket

  const MAX_BUCKETS := HASH_BITS

  type Slots = seq<seq<Node>>

  /** Between one and 160 buckets of eight slots. */
  predicate Shape(bs: Slots) {
    1 <= |bs| <= MAX_BUCKETS && forall i :: 0 <= i < |bs| ==> |bs[i]| == MAX_BUCKET_SIZE
  }

  /** The bucket for a prefix, or the last one while that does not exist. */
  function BucketPlacement(numSameBits: nat, numBuckets: nat): (r: nat)
    requires numBuckets > 0
    ensures r < numBuckets && r <= numSameBits && (r < numBuckets - 1 ==> r == numSameBits)
  {
    if numSameBits >= numBuckets then numBuckets - 1 else numSameBits
  }

  predicate CanSplitBucket(numBuckets: nat, bucketIndex: nat) {
    bucketIndex == numBuckets - 1 && bucketIndex != MAX_BUCKETS - 1
  }

  // ----- The table as a value

  function WithNode(st: Liveness, self: ShaHash, bs: Slots, n: Node): (r: Slots)
    requires Shape(bs)
    ensures Shape(r) && |bs| <= |r|
    decreases MAX_BUCKETS - |bs|, 3
  {
    if Status(st, n) == Bad || CommonPrefix(self, n.id) == MAX_BUCKETS then bs
    else WithNodeAt(st, self, bs, n, CommonPrefix(self, n.id))
  }

  function WithNodeAt(st: Liveness, self: ShaHash, bs: Slots, n: Node, numSameBits: nat): (r: Slots)
    requires Shape(bs)
    ensures Shape(r) && |bs| <= |r|
    decreases MAX_BUCKETS - |bs|, 2
  {
    var i := BucketPlacement(numSameBits, |bs|);
    var (b, ok) := Place(st, bs[i], n);
    if ok then bs[i := b]
    else if CanSplitBucket(|bs|, i) then WithNodeAt(st, self, Split(st, self, bs), n, numSameBits)
    else bs
  }

  /** The table right after the last bucket was popped and two fresh ones pushed. */
  function Opened(bs: Slots): Slots
    requires |bs| > 0
  {
    bs[..|bs| - 1] + [Empty(), Empty()]
  }

  function Split(st: Liveness, self: ShaHash, bs: Slots): (r: Slots)
    requires Shape(bs) && |bs| < MAX_BUCKETS
    ensures Shape(r) && |bs| < |r|
    decreases MAX_BUCKETS - |bs|, 1
  {
    WithNodes(st, self, Opened(bs), bs[|bs| - 1])
  }

  function WithNodes(st: Liveness, self: ShaHash, bs: Slots, nodes: seq<Node>): (r: Slots)
    requires Shape(bs)
    ensures Shape(r) && |bs| <= |r|
    decreases MAX_BUCKETS - |bs|, 4, |nodes|
  {
    if nodes == [] then bs else WithNodes(st, self, WithNode(st, self, bs, nodes[0]), nodes[1..])
  }

  lemma WithNodesNext(st: Liveness, self: ShaHash, bs: Slots, nodes: seq<Node>, i: nat)
    requires Shape(bs) && i <= |nodes|
    ensures WithNodes(st, self, bs, nodes[i..]) ==
            if i == |nodes| then bs else WithNodes(st, self, WithNode(st, self, bs, nodes[i]), nodes[i + 1..])
  {
    hide WithNode;
    assert i < |nodes| ==> nodes[i..][1..] == nodes[i + 1..];
  }

  // ----- The table in place

  class RoutingTable {
    var buckets: seq<Bucket>
    const nodeId: ShaHash

    /** The slot arrays owned by the table. */
    ghost function Arrays(): set<object>
      reads this
    {
      set b | b in buckets :: b.nodes
    }

    ghost predicate Valid()
      reads this
    {
      && 1 <= |buckets| <= MAX_BUCKETS
      && (forall i :: 0 <= i < |buckets| ==> buckets[i].nodes.Length == MAX_BUCKET_SIZE)
      && (forall i, j :: 0 <= i < j < |buckets| ==> buckets[i].nodes != buckets[j].nodes)
    }

    ghost function Contents(): (bs: Slots)
      requires Valid()
      reads this, Arrays()
      ensures Shape(bs) && |bs| == |buckets|
    {
      seq(|buckets|, i requires 0 <= i < |buckets| reads this, Arrays() => buckets[i].nodes[..])
    }

    constructor (nodeId: ShaHash)
      ensures Valid() && fresh(Arrays()) && this.nodeId == nodeId
      ensures Contents() == [Empty()]
    {
      this.nodeId := nodeId;
      var bucket := new Bucket();
      buckets := [bucket];
    }

    method AddNode(st: Liveness, node: Node)
      requires Valid()
      modifies this, Arrays()
      ensures Valid() && fresh(Arrays() - old(Arrays()))
      ensures Contents() == WithNode(st, nodeId, old(Contents()), node)
      decreases MAX_BUCKETS - |buckets|, 3
    {
      hide WithNodeAt;
      if Status(st, node) == Bad {
        return;
      }
      var numSameBits := LeadingBitCount(nodeId, node.id);
      if numSameBits != MAX_BUCKETS {
        BucketNode(st, node, numSameBits);
      }
    }

    method BucketNode(st: Liveness, node: Node, numSameBits: nat)
      requires Valid()
      modifies this, Arrays()
      ensures Valid() && fresh(Arrays() - old(Arrays()))
      ensures Contents() == WithNodeAt(st, nodeId, old(Contents()), node, numSameBits)
      decreases MAX_BUCKETS - |buckets|, 2
    {
      hide Place, Split, CommonPrefix;
      var bucketIndex := BucketPlacement(numSameBits, |buckets|);
      var ok := PlaceIn(st, bucketIndex, node);
      if !ok {
        var split := SplitBucket(st, bucketIndex);
        if split {
          BucketNode(st, node, numSameBits);
        }
      }
    }

    method PlaceIn(st: Liveness, bucketIndex: nat, node: Node) returns (ok: bool)
      requires Valid() && bucketIndex < |buckets|
      modifies buckets[bucketIndex].nodes
      ensures Valid() && ok == Place(st, old(Contents())[bucketIndex], node).1
      ensures Contents() == old(Contents())[bucketIndex := Place(st, old(Contents())[bucketIndex], node).0]
      ensures !ok ==> Contents() == old(Contents())
    {
      ghost var before := Contents();
      ok := buckets[bucketIndex].AddNode(st, node);
      assert Contents() == before[bucketIndex := Place(st, before[bucketIndex], node).0];
      if !ok {
        assert Contents() == before;
      }
    }

    method SplitBucket(st: Liveness, bucketIndex: nat) returns (split: bool)
      requires Valid()
      modifies this, Arrays()
      ensures Valid() && fresh(Arrays() - old(Arrays()))
      ensures split == CanSplitBucket(old(|buckets|), bucketIndex)
      ensures Contents() == if split then Split(st, nodeId, old(Contents())) else old(Contents())
      decreases MAX_BUCKETS - |buckets|, 1
    {
      if !CanSplitBucket(|buckets|, bucketIndex) {
        return false;
      }
      ghost var start := Opened(Contents());
      ghost var owned := Arrays();
      var nodes := OpenLast();
      assert nodes[0..] == nodes;
      hide WithNode, WithNodes, Opened;
      for i := 0 to |nodes|
        invariant Valid() && fresh(Arrays() - owned)
        invariant |buckets| >= |start|
        invariant WithNodes(st, nodeId, Contents(), nodes[i..]) == WithNodes(st, nodeId, start, nodes)
      {
        WithNodesNext(st, nodeId, Contents(), nodes, i);
        AddNode(st, nodes[i]);
      }
      WithNodesNext(st, nodeId, Contents(), nodes, |nodes|);
      return true;
    }

    /** Pops the last bucket, whose nodes are returned, and pushes two fresh ones. */
    method OpenLast() returns (nodes: seq<Node>)
      requires Valid() && |buckets| < MAX_BUCKETS
      modifies this
      ensures Valid() && fresh(Arrays() - old(Arrays())) && |buckets| == |old(buckets)| + 1
      ensures nodes == old(Contents())[|old(buckets)| - 1]
      ensures Contents() == Opened(old(Contents()))
    {
      nodes := buckets[|buckets| - 1].nodes[..];
      var first := new Bucket();
      var second := new Bucket();
      buckets := buckets[..|buckets| - 1] + [first, second];
    }
  }

  // ----- What every call keeps

  /** `n` may sit in bucket `i` of `count`: in its own bucket, or in the last one until its own exists. */
  predicate Placed(self: ShaHash, count: nat, i: nat, n: Node) {
    var p := CommonPrefix(self, n.id);
    p < MAX_BUCKETS && if i < count - 1 then p == i else i == count - 1 <= p
  }

  predicate Inv(self: ShaHash, bs: Slots) {
    && Shape(bs)
    && (forall i :: 0 <= i < |bs| ==> WellFormed(bs[i]))
    && (forall i, j :: 0 <= i < |bs| && 0 <= j < MAX_BUCKET_SIZE && bs[i][j].handle.Seen? ==> Placed(self, |bs|, i, bs[i][j]))
  }

  /** The bucket of `n` in a table of `count` buckets. */
  function Home(self: ShaHash, count: nat, n: Node): (i: nat)
    requires count > 0
    ensures i < count
  {
    BucketPlacement(CommonPrefix(self, n.id), count)
  }

  predicate InTable(st: Liveness, bs: Slots, n: Node) {
    exists i :: 0 <= i < |bs| && Holds(st, bs[i], n)
  }

  /** Every node Good in `bs`, and every Good one of `nodes`, is a Good node of `r`. */
  ghost predicate KeepsGood(st: Liveness, bs: Slots, nodes: seq<Node>, r: Slots) {
    forall m :: Status(st, m) == Good && (InTable(st, bs, m) || m in nodes) ==> InTable(st, r, m)
  }

  lemma ReplacedInv(self: ShaHash, bs: Slots, i: nat, b: seq<Node>)
    requires Inv(self, bs) && i < |bs| && WellFormed(b) && |b| == MAX_BUCKET_SIZE
    requires forall m :: m in b && m.handle.Seen? ==> Placed(self, |bs|, i, m)
    ensures Inv(self, bs[i := b])
  {
    hide WellFormed, Placed;
    forall j | 0 <= j < MAX_BUCKET_SIZE && b[j].handle.Seen? ensures Placed(self, |bs|, i, b[j]) {
      assert b[j] in b;
    }
  }

  lemma ReplacedKeepsGood(st: Liveness, bs: Slots, i: nat, b: seq<Node>)
    requires i < |bs| && forall m :: Status(st, m) == Good && Holds(st, bs[i], m) ==> Holds(st, b, m)
    ensures KeepsGood(st, bs, [], bs[i := b])
  {
    hide Holds;
    forall m | Status(st, m) == Good && InTable(st, bs, m) ensures InTable(st, bs[i := b], m) {
      var k :| 0 <= k < |bs| && Holds(st, bs[k], m);
      assert Holds(st, bs[i := b][k], m);
    }
  }

  lemma SeenIsPlaced(self: ShaHash, bs: Slots, i: nat, m: Node)
    requires Inv(self, bs) && i < |bs| && m in bs[i] && m.handle.Seen?
    ensures Placed(self, |bs|, i, m)
  {
    hide WellFormed, Placed;
    var j :| 0 <= j < |bs[i]| && bs[i][j] == m;
  }

  lemma PlaceInTable(st: Liveness, self: ShaHash, bs: Slots, n: Node)
    requires Inv(self, bs) && Status(st, n) != Bad && CommonPrefix(self, n.id) < MAX_BUCKETS
    ensures var i := BucketPlacement(CommonPrefix(self, n.id), |bs|);
            var r: Slots := bs[i := Place(st, bs[i], n).0];
            Inv(self, r) && KeepsGood(st, bs, [], r) && (Place(st, bs[i], n).1 ==> InTable(st, r, n))
  {
    hide Place, Holds, KeepsGood, WellFormed, CommonPrefix;
    var i := BucketPlacement(CommonPrefix(self, n.id), |bs|);
    var b := Place(st, bs[i], n).0;
    PlaceWellFormed(st, bs[i], n);
    PlaceOutcome(st, bs[i], n);
    forall m | m in b && m.handle.Seen? ensures Placed(self, |bs|, i, m) {
      if m in bs[i] {
        SeenIsPlaced(self, bs, i, m);
      }
    }
    ReplacedInv(self, bs, i, b);
    forall m | Status(st, m) == Good && Holds(st, bs[i], m) ensures Holds(st, b, m) {
      PlaceKeepsGood(st, bs[i], n, m);
    }
    ReplacedKeepsGood(st, bs, i, b);
    if Place(st, bs[i], n).1 {
      assert Holds(st, bs[i := b][i], n);
    }
  }

  /** Re-adding one node after a split places it in one of the two new buckets, without a split. */
  lemma ReaddOne(st: Liveness, self: ShaHash, bs: Slots, n: Node, k: nat)
    requires Inv(self, bs) && |bs| >= 2 && k < MAX_BUCKET_SIZE
    requires TailFree(bs[|bs| - 2], k) && TailFree(bs[|bs| - 1], k)
    requires n.handle.Seen? ==> |bs| - 2 <= CommonPrefix(self, n.id) < MAX_BUCKETS
    ensures var r := WithNode(st, self, bs, n);
            && |r| == |bs| && r[..|bs| - 2] == bs[..|bs| - 2]
            && TailFree(r[|bs| - 2], k + 1) && TailFree(r[|bs| - 1], k + 1)
            && Inv(self, r) && KeepsGood(st, bs, [n], r)
            && if Status(st, n) == Bad then r == bs else
                 var i := Home(self, |bs|, n);
                 Place(st, bs[i], n).1 && r == bs[i := Place(st, bs[i], n).0]
  {
    hide CommonPrefix, Place;
    if Status(st, n) != Bad {
      var i := BucketPlacement(CommonPrefix(self, n.id), |bs|);
      PlaceInFree(st, bs[i], n, k);
      PlaceInTable(st, self, bs, n);
      assert WithNode(st, self, bs, n) == bs[i := Place(st, bs[i], n).0];
    }
  }

  /** Re-adding the nodes of a split bucket never splits again and loses no Good node. */
  lemma {:induction false} Readd(st: Liveness, self: ShaHash, bs: Slots, nodes: seq<Node>, k: nat)
    requires Inv(self, bs) && |bs| >= 2 && k + |nodes| <= MAX_BUCKET_SIZE
    requires TailFree(bs[|bs| - 2], k) && TailFree(bs[|bs| - 1], k)
    requires forall n :: n in nodes && n.handle.Seen? ==> |bs| - 2 <= CommonPrefix(self, n.id) < MAX_BUCKETS
    ensures var r := WithNodes(st, self, bs, nodes);
            && |r| == |bs| && r[..|bs| - 2] == bs[..|bs| - 2]
            && Inv(self, r) && KeepsGood(st, bs, nodes, r)
    decreases |nodes|
  {
    hide Place, Holds, CommonPrefix, WithNode;
    if nodes != [] {
      var n := nodes[0];
      var next := WithNode(st, self, bs, n);
      ReaddOne(st, self, bs, n, k);
      Readd(st, self, next, nodes[1..], k + 1);
      forall m | Status(st, m) == Good && (InTable(st, bs, m) || m in nodes)
        ensures InTable(st, WithNodes(st, self, bs, nodes), m)
      {
        assert InTable(st, next, m) || m in nodes[1..];
      }
    }
  }

  /** A Good node of a bucket whose own Good nodes are all in the table is in the table. */
  lemma GoodFollows(st: Liveness, b: seq<Node>, r: Slots, m: Node)
    requires Status(st, m) == Good && Holds(st, b, m)
    requires forall x :: x in b && Status(st, x) == Good ==> InTable(st, r, x)
    ensures InTable(st, r, m)
  {
    var j :| 0 <= j < |b| && Same(b[j], m) && Rank(Status(st, b[j])) >= Rank(Status(st, m));
    assert b[j] in b && InTable(st, r, b[j]);
    hide Rank;
    var k :| 0 <= k < |r| && Holds(st, r[k], b[j]);
    HoldsSame(st, r[k], b[j], m);
  }

  lemma HoldsSame(st: Liveness, b: seq<Node>, n: Node, m: Node)
    requires Holds(st, b, n) && Same(n, m) && Status(st, n) == Status(st, m)
    ensures Holds(st, b, m)
  {}

  /** Good nodes of the old last bucket, and of the others, are all in `r`. */
  lemma SplitKeepsGood(st: Liveness, bs: Slots, r: Slots)
    requires |bs| > 0 && KeepsGood(st, Opened(bs), bs[|bs| - 1], r)
    ensures KeepsGood(st, bs, [], r)
  {
    hide Holds;
    forall m | Status(st, m) == Good && InTable(st, bs, m) ensures InTable(st, r, m) {
      var i :| 0 <= i < |bs| && Holds(st, bs[i], m);
      if i < |bs| - 1 {
        assert Holds(st, Opened(bs)[i], m);
      } else {
        GoodFollows(st, bs[i], r, m);
      }
    }
  }

  lemma OpenedInv(self: ShaHash, bs: Slots)
    requires Inv(self, bs) && |bs| < MAX_BUCKETS
    ensures Inv(self, Opened(bs))
  {
    var start := Opened(bs);
    assert forall i :: 0 <= i < |bs| - 1 ==> start[i] == bs[i];
    forall i, j | 0 <= i < |start| && 0 <= j < MAX_BUCKET_SIZE && start[i][j].handle.Seen?
      ensures Placed(self, |start|, i, start[i][j])
    {
      assert Placed(self, |bs|, i, bs[i][j]);
    }
  }

  lemma LastPrefixes(self: ShaHash, bs: Slots)
    requires Inv(self, bs)
    ensures forall n :: n in bs[|bs| - 1] && n.handle.Seen? ==> |bs| - 1 <= CommonPrefix(self, n.id) < MAX_BUCKETS
  {
    forall n | n in bs[|bs| - 1] && n.handle.Seen? ensures |bs| - 1 <= CommonPrefix(self, n.id) < MAX_BUCKETS {
      var j :| 0 <= j < |bs[|bs| - 1]| && bs[|bs| - 1][j] == n;
      assert Placed(self, |bs|, |bs| - 1, bs[|bs| - 1][j]);
    }
  }

  lemma SplitKeeps(st: Liveness, self: ShaHash, bs: Slots)
    requires Inv(self, bs) && |bs| < MAX_BUCKETS
    ensures var r := Split(st, self, bs);
            && |r| == |bs| + 1 && r[..|bs| - 1] == bs[..|bs| - 1]
            && Inv(self, r) && KeepsGood(st, bs, [], r)
  {
    OpenedInv(self, bs);
    LastPrefixes(self, bs);
    Readd(st, self, Opened(bs), bs[|bs| - 1], 0);
    SplitKeepsGood(st, bs, Split(st, self, bs));
  }

  /** The node is stored, or its bucket is full of nodes at least as good and is not the last, or the 160th. */
  predicate Settled(st: Liveness, self: ShaHash, bs: Slots, n: Node)
    requires Shape(bs)
  {
    var i := Home(self, |bs|, n);
    InTable(st, bs, n) || (FullOf(st, bs[i], Status(st, n)) && (i < |bs| - 1 || |bs| == MAX_BUCKETS))
  }

  lemma {:induction false} WithNodeAtKeeps(st: Liveness, self: ShaHash, bs: Slots, n: Node)
    requires Inv(self, bs) && Status(st, n) != Bad && CommonPrefix(self, n.id) < MAX_BUCKETS
    ensures var r := WithNodeAt(st, self, bs, n, CommonPrefix(self, n.id));
            Inv(self, r) && KeepsGood(st, bs, [], r) && Settled(st, self, r, n)
    decreases MAX_BUCKETS - |bs|
  {
    var i := BucketPlacement(CommonPrefix(self, n.id), |bs|);
    PlaceInTable(st, self, bs, n);
    if !Place(st, bs[i], n).1 {
      PlaceOutcome(st, bs[i], n);
      if CanSplitBucket(|bs|, i) {
        SplitKeeps(st, self, bs);
        WithNodeAtKeeps(st, self, Split(st, self, bs), n);
      }
    }
  }

  /** One call: the invariant stands, no Good node is lost, and the new node is settled. */
  lemma WithNodeKeeps(st: Liveness, self: ShaHash, bs: Slots, n: Node)
    requires Inv(self, bs)
    ensures var r := WithNode(st, self, bs, n);
            && Inv(self, r) && KeepsGood(st, bs, [], r)
            && if Status(st, n) == Bad || n.id == self then r == bs else Settled(st, self, r, n)
  {
    if Status(st, n) != Bad && CommonPrefix(self, n.id) < MAX_BUCKETS {
      WithNodeAtKeeps(st, self, bs, n);
    }
    FullPrefixIsEqual(self, n.id);
  }

  /** One add_node call of a run, with the statuses it sees. */
  datatype Call = Call(st: Liveness, node: Node)

  function Run(self: ShaHash, calls: seq<Call>): (r: Slots)
    ensures Shape(r)
  {
    if calls == [] then [Empty()]
    else WithNode(calls[|calls| - 1].st, self, Run(self, calls[..|calls| - 1]), calls[|calls| - 1].node)
  }

  lemma {:induction false} RunInv(self: ShaHash, calls: seq<Call>)
    ensures Inv(self, Run(self, calls))
  {
    if calls != [] {
      var last := calls[|calls| - 1];
      RunInv(self, calls[..|calls| - 1]);
      WithNodeKeeps(last.st, self, Run(self, calls[..|calls| - 1]), last.node);
    }
  }

  /** After any run, a node equal to another seen node sits in the same slot of the same bucket. */
  lemma RunUnique(self: ShaHash, calls: seq<Call>, i: nat, j: nat, k: nat, l: nat)
    requires var bs := Run(self, calls);
             && i < |bs| && k < |bs| && j < MAX_BUCKET_SIZE && l < MAX_BUCKET_SIZE
             && bs[i][j].handle.Seen? && bs[k][l].handle.Seen? && Same(bs[i][j], bs[k][l])
    ensures i == k && j == l
  {
    RunInv(self, calls);
    var bs := Run(self, calls);
    assert Placed(self, |bs|, i, bs[i][j]) && Placed(self, |bs|, k, bs[k][l]);
  }
}
