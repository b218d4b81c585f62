/** What a split does to the nodes that are not Good, and what makes the table grow. */
module TableSplits {
  import opened Sha
  import opened Bucket
  import opened Table

  // ----- Where a node can be

  /** A node that is not Bad can only be held by the bucket of its prefix. */
  lemma HeldAtHome(st: Liveness, self: ShaHash, bs: Slots, m: Node)
    requires Inv(self, bs) && Status(st, m) != Bad
    ensures InTable(st, bs, m) <==> Holds(st, bs[Home(self, |bs|, m)], m)
  {
    hide CommonPrefix;
    if InTable(st, bs, m) {
      var i :| 0 <= i < |bs| && Holds(st, bs[i], m);
      var j :| 0 <= j < |bs[i]| && Same(bs[i][j], m) && Rank(Status(st, bs[i][j])) >= Rank(Status(st, m));
      assert Placed(self, |bs|, i, bs[i][j]);
    }
  }

  /** `n` sits in some slot of the table. */
  predicate Occurs(bs: Slots, n: Node) {
    exists i :: 0 <= i < |bs| && n in bs[i]
  }

  // ----- One node of a split after the other

  /** The nodes still to be re-added, with room for them in the last two buckets. */
  predicate Refilling(self: ShaHash, bs: Slots, nodes: seq<Node>, k: nat) {
    && Inv(self, bs) && |bs| >= 2 && k + |nodes| <= MAX_BUCKET_SIZE
    && TailFree(bs[|bs| - 2], k) && TailFree(bs[|bs| - 1], k)
    && forall n :: n in nodes && n.handle.Seen? ==> |bs| - 2 <= CommonPrefix(self, n.id) < MAX_BUCKETS
  }

  lemma RefillStarts(self: ShaHash, bs: Slots)
    requires Inv(self, bs) && |bs| < MAX_BUCKETS
    ensures Refilling(self, Opened(bs), bs[|bs| - 1], 0)
  {
    hide CommonPrefix;
    OpenedInv(self, bs);
    LastPrefixes(self, bs);
  }

  lemma RefillNext(st: Liveness, self: ShaHash, bs: Slots, nodes: seq<Node>, k: nat)
    requires Refilling(self, bs, nodes, k) && nodes != []
    ensures var next := WithNode(st, self, bs, nodes[0]);
            && Refilling(self, next, nodes[1..], k + 1) && |next| == |bs| && k < MAX_BUCKET_SIZE
            && WithNodes(st, self, bs, nodes) == WithNodes(st, self, next, nodes[1..])
            && if Status(st, nodes[0]) == Bad then next == bs else
                 var i := Home(self, |bs|, nodes[0]);
                 next == bs[i := Place(st, bs[i], nodes[0]).0] && Place(st, bs[i], nodes[0]).1
  {
    hide CommonPrefix, Place, KeepsGood, Inv, TailFree, Home, WithNode;
    ReaddOne(st, self, bs, nodes[0], k);
  }

  /** The nodes can be re-added in two goes. */
  lemma {:induction false} RefillInParts(st: Liveness, self: ShaHash, bs: Slots, nodes: seq<Node>, k: nat, j: nat)
    requires Shape(bs) && Refilling(self, bs, nodes, k) && j <= |nodes|
    ensures var mid := WithNodes(st, self, bs, nodes[..j]);
            && Refilling(self, mid, nodes[j..], k + j) && |mid| == |bs|
            && WithNodes(st, self, bs, nodes) == WithNodes(st, self, mid, nodes[j..])
    decreases j
  {
    hide Refilling, WithNode;
    assert nodes[0..] == nodes;
    if j > 0 {
      RefillNext(st, self, bs, nodes, k);
      RefillInParts(st, self, WithNode(st, self, bs, nodes[0]), nodes[1..], k + 1, j - 1);
      assert nodes[1..][..j - 1] == nodes[..j][1..] && nodes[1..][j - 1..] == nodes[j..];
    }
  }

  // ----- A node no Good node follows

  /** A held node stays held while no better node comes to its bucket. */
  lemma {:induction false} RefillKeeps(st: Liveness, self: ShaHash, bs: Slots, nodes: seq<Node>, k: nat, m: Node)
    requires Shape(bs) && Refilling(self, bs, nodes, k) && Holds(st, bs[Home(self, |bs|, m)], m)
    requires forall n :: n in nodes && Rank(Status(st, n)) > Rank(Status(st, m)) ==> Home(self, |bs|, n) != Home(self, |bs|, m)
    ensures var r := WithNodes(st, self, bs, nodes);
            |r| == |bs| && Holds(st, r[Home(self, |bs|, m)], m)
    decreases |nodes|
  {
    hide Refilling, WithNode, Place, Holds, Rank, Home;
    if nodes != [] {
      assert nodes[0] in nodes;
      RefillNext(st, self, bs, nodes, k);
      if Home(self, |bs|, nodes[0]) == Home(self, |bs|, m) {
        PlaceKeepsNoWorse(st, bs[Home(self, |bs|, m)], nodes[0], m);
      }
      RefillKeeps(st, self, WithNode(st, self, bs, nodes[0]), nodes[1..], k + 1, m);
    }
  }

  /** The Good nodes behind slot `j` of a bucket that is split all go to the other half. */
  predicate Unfollowed(st: Liveness, self: ShaHash, bs: Slots, j: nat)
    requires Shape(bs) && j < MAX_BUCKET_SIZE
  {
    var last := bs[|bs| - 1];
    forall k :: j < k < MAX_BUCKET_SIZE && Status(st, last[k]) == Good ==>
      Home(self, |bs| + 1, last[k]) != Home(self, |bs| + 1, last[j])
  }

  /** A node of the split bucket that no Good node of the same half follows is still in the table. */
  lemma SplitKeepsUnfollowed(st: Liveness, self: ShaHash, bs: Slots, j: nat)
    requires Inv(self, bs) && |bs| < MAX_BUCKETS && j < MAX_BUCKET_SIZE
    requires Status(st, bs[|bs| - 1][j]) == Questionable && Unfollowed(st, self, bs, j)
    ensures InTable(st, Split(st, self, bs), bs[|bs| - 1][j])
  {
    hide Refilling, WithNode, WithNodes, Place, Home, Holds, WellFormed, Placed;
    var last, start := bs[|bs| - 1], Opened(bs);
    var m := last[j];
    RefillStarts(self, bs);
    RefillInParts(st, self, start, last, 0, j);
    var mid := WithNodes(st, self, start, last[..j]);
    assert last[j..][0] == m && last[j..][1..] == last[j + 1..];
    RefillNext(st, self, mid, last[j..], j);
    var next, i := WithNode(st, self, mid, m), Home(self, |mid|, m);
    PlaceOutcome(st, mid[i], m);
    forall n | n in last[j + 1..] && Rank(Status(st, n)) > Rank(Status(st, m)) ensures Home(self, |next|, n) != i {
      var k :| 0 <= k < |last[j + 1..]| && last[j + 1..][k] == n;
      assert last[j + 1 + k] == n;
    }
    RefillKeeps(st, self, next, last[j + 1..], j + 1, m);
  }

  /** Every pingable node of `bs` is one of `r`. */
  ghost predicate KeepsPingable(st: Liveness, bs: Slots, r: Slots) {
    forall m :: Pingable(st, m) && InTable(st, bs, m) ==> InTable(st, r, m)
  }

  predicate NoGoodLast(st: Liveness, bs: Slots)
    requires |bs| > 0
  {
    forall n :: n in bs[|bs| - 1] ==> Status(st, n) != Good
  }

  /** Splitting a bucket without Good nodes loses nobody who can be pinged. */
  lemma SplitKeepsPingable(st: Liveness, self: ShaHash, bs: Slots)
    requires Inv(self, bs) && |bs| < MAX_BUCKETS && NoGoodLast(st, bs)
    ensures KeepsPingable(st, bs, Split(st, self, bs))
  {
    hide Split, Home, WellFormed, Placed;
    var r, last := Split(st, self, bs), bs[|bs| - 1];
    SplitKeeps(st, self, bs);
    forall m | Pingable(st, m) && InTable(st, bs, m) ensures InTable(st, r, m) {
      var i :| 0 <= i < |bs| && Holds(st, bs[i], m);
      if i < |bs| - 1 {
        assert r[i] == r[..|bs| - 1][i];
      } else {
        var j :| 0 <= j < |last| && Same(last[j], m) && Rank(Status(st, last[j])) >= Rank(Status(st, m));
        assert forall k :: 0 <= k < |last| ==> last[k] in last;
        SplitKeepsUnfollowed(st, self, bs, j);
        var k :| 0 <= k < |r| && Holds(st, r[k], last[j]);
        HoldsSame(st, r[k], last[j], m);
      }
    }
  }

  // ----- Nothing appears from nowhere

  lemma {:induction false} RefillOnly(st: Liveness, self: ShaHash, bs: Slots, nodes: seq<Node>, k: nat, i: nat, x: Node)
    requires Shape(bs) && Refilling(self, bs, nodes, k) && i < |bs| == |WithNodes(st, self, bs, nodes)|
    requires x in WithNodes(st, self, bs, nodes)[i]
    ensures x in bs[i] || x in nodes
    decreases |nodes|
  {
    hide Refilling, WithNode, Place, WellFormed;
    if nodes != [] {
      RefillNext(st, self, bs, nodes, k);
      RefillOnly(st, self, WithNode(st, self, bs, nodes[0]), nodes[1..], k + 1, i, x);
      RefilledFrom(self, bs, nodes, k, i);
      PlaceWellFormed(st, bs[i], nodes[0]);
    }
  }

  lemma RefilledFrom(self: ShaHash, bs: Slots, nodes: seq<Node>, k: nat, i: nat)
    requires Refilling(self, bs, nodes, k) && i < |bs|
    ensures WellFormed(bs[i])
  {
    hide WellFormed, CommonPrefix;
  }

  /** The two halves hold nothing but nodes of the bucket that was split. */
  lemma SplitOnly(st: Liveness, self: ShaHash, bs: Slots, i: nat, x: Node)
    requires Inv(self, bs) && |bs| < MAX_BUCKETS && |bs| - 1 <= i <= |bs| == |Split(st, self, bs)| - 1
    requires x in Split(st, self, bs)[i] && x.handle.Seen?
    ensures x in bs[|bs| - 1]
  {
    hide Refilling, WithNodes, WellFormed, Placed;
    RefillStarts(self, bs);
    RefillOnly(st, self, Opened(bs), bs[|bs| - 1], 0, i, x);
  }

  lemma {:induction false} WithNodeAtOnly(st: Liveness, self: ShaHash, bs: Slots, n: Node, x: Node)
    requires Inv(self, bs) && Status(st, n) != Bad && CommonPrefix(self, n.id) < MAX_BUCKETS && x.handle.Seen?
    requires Occurs(WithNodeAt(st, self, bs, n, CommonPrefix(self, n.id)), x)
    ensures Occurs(bs, x) || x == n
    decreases MAX_BUCKETS - |bs|
  {
    hide Place, Split, CommonPrefix, WellFormed, KeepsGood;
    var i := Home(self, |bs|, n);
    PlaceWellFormed(st, bs[i], n);
    if !Place(st, bs[i], n).1 && CanSplitBucket(|bs|, i) {
      var r := Split(st, self, bs);
      SplitKeeps(st, self, bs);
      WithNodeAtOnly(st, self, r, n, x);
      if x != n {
        var k :| 0 <= k < |r| && x in r[k];
        if k < |bs| - 1 {
          assert r[k] == r[..|bs| - 1][k];
        } else {
          SplitOnly(st, self, bs, k, x);
        }
      }
    }
  }

  /** After any run, every node in the table was added by one of the calls. */
  lemma {:induction false} RunOnlyAdded(self: ShaHash, calls: seq<Call>, x: Node)
    requires Occurs(Run(self, calls), x) && x.handle.Seen?
    ensures exists k :: 0 <= k < |calls| && calls[k].node == x
  {
    hide WithNodeAt, CommonPrefix, Inv;
    if calls != [] {
      var last, bs := calls[|calls| - 1], Run(self, calls[..|calls| - 1]);
      RunInv(self, calls[..|calls| - 1]);
      if Status(last.st, last.node) != Bad && CommonPrefix(self, last.node.id) < MAX_BUCKETS {
        WithNodeAtOnly(last.st, self, bs, last.node, x);
      }
      if Occurs(bs, x) {
        RunOnlyAdded(self, calls[..|calls| - 1], x);
      }
    }
  }

  // ----- Exactly which nodes a split loses

  /** Good nodes first, then Questionable ones, then free slots. */
  predicate Stacked(st: Liveness, b: seq<Node>, goods: nat, waiting: nat) {
    && goods + waiting <= |b| == MAX_BUCKET_SIZE
    && (forall i :: 0 <= i < goods ==> Status(st, b[i]) == Good)
    && (forall i :: goods <= i < goods + waiting ==> Status(st, b[i]) == Questionable)
    && TailFree(b, goods + waiting)
  }

  /** No two of the nodes, and none of them and a slot, are the same contact. */
  predicate Strangers(b: seq<Node>, nodes: seq<Node>) {
    && (forall x, n :: x in b && n in nodes && n.handle.Seen? ==> !Same(x, n))
    && (forall i, j :: 0 <= i < j < |nodes| && nodes[i].handle.Seen? && nodes[j].handle.Seen? ==> !Same(nodes[i], nodes[j]))
  }

  /** A Good node takes the place of the first Questionable one; a Questionable one queues up behind the others. */
  lemma StackOne(st: Liveness, b: seq<Node>, goods: nat, waiting: nat, n: Node)
    requires Stacked(st, b, goods, waiting) && goods + waiting < MAX_BUCKET_SIZE && Status(st, n) != Bad
    requires forall x :: x in b ==> !Same(x, n)
    ensures var r := Place(st, b, n).0;
            if Status(st, n) == Good
            then r == b[goods := n] && Stacked(st, r, goods + 1, if waiting > 0 then waiting - 1 else 0)
            else r == b[goods + waiting := n] && Stacked(st, r, goods, waiting + 1)
  {
    hide Same, Place;
    var k := if Status(st, n) == Good then goods else goods + waiting;
    assert forall j :: 0 <= j < |b| ==> b[j] in b;
    PlaceFirstLower(st, b, n, k);
  }

  /** `n` comes to bucket `home` of a table of `count` buckets with this status. */
  predicate Comes(st: Liveness, self: ShaHash, count: nat, home: nat, n: Node, s: NodeStatus) {
    count > 0 && Status(st, n) == s && Home(self, count, n) == home
  }

  /** How many of the nodes come to a bucket with this status. */
  function Arrivals(st: Liveness, self: ShaHash, count: nat, home: nat, nodes: seq<Node>, s: NodeStatus): (r: nat)
    ensures r <= |nodes|
  {
    if nodes == [] then 0
    else (if Comes(st, self, count, home, nodes[0], s) then 1 else 0) + Arrivals(st, self, count, home, nodes[1..], s)
  }

  /** How many Questionable nodes wait in a bucket once the nodes have come: each Good one ends one wait. */
  function Waiting(st: Liveness, self: ShaHash, count: nat, home: nat, waiting: nat, nodes: seq<Node>): nat
    decreases |nodes|
  {
    if nodes == [] then waiting
    else if Comes(st, self, count, home, nodes[0], Questionable) then Waiting(st, self, count, home, waiting + 1, nodes[1..])
    else if Comes(st, self, count, home, nodes[0], Good) && waiting > 0 then Waiting(st, self, count, home, waiting - 1, nodes[1..])
    else Waiting(st, self, count, home, waiting, nodes[1..])
  }

  /** At least `x` wait exactly if, from the start or from some node on, so many more have come than were relieved. */
  lemma {:induction false} WaitingIff(st: Liveness, self: ShaHash, count: nat, home: nat, waiting: nat, nodes: seq<Node>, x: nat)
    ensures x <= Waiting(st, self, count, home, waiting, nodes) <==>
            || x + Arrivals(st, self, count, home, nodes, Good) <= waiting + Arrivals(st, self, count, home, nodes, Questionable)
            || exists i :: 0 <= i <= |nodes| && Outnumbered(st, self, count, home, nodes[i..], nodes[i..], x)
    decreases |nodes|
  {
    hide Home;
    if nodes == [] {
      assert nodes[0..] == [];
      assert x == 0 ==> Outnumbered(st, self, count, home, nodes[0..], nodes[0..], x);
    } else {
      var rest := nodes[1..];
      var more := if Comes(st, self, count, home, nodes[0], Questionable) then waiting + 1
                  else if Comes(st, self, count, home, nodes[0], Good) && waiting > 0 then waiting - 1 else waiting;
      WaitingIff(st, self, count, home, more, rest, x);
      assert forall i :: 0 <= i <= |rest| ==> rest[i..] == nodes[i + 1..];
      assert rest[0..] == rest && nodes[0..] == nodes;
      if i :| 0 <= i <= |rest| && Outnumbered(st, self, count, home, rest[i..], rest[i..], x) {
        assert Outnumbered(st, self, count, home, nodes[i + 1..], nodes[i + 1..], x);
      } else if i :| 0 < i <= |nodes| && Outnumbered(st, self, count, home, nodes[i..], nodes[i..], x) {
        assert Outnumbered(st, self, count, home, rest[i - 1..], rest[i - 1..], x);
      } else {
        assert !Outnumbered(st, self, count, home, rest[0..], rest[0..], x);
      }
    }
  }

  /** With `x` more, as many Good ones of `later` come at most as Questionable ones of `before`. */
  predicate Outnumbered(st: Liveness, self: ShaHash, count: nat, home: nat, later: seq<Node>, before: seq<Node>, x: nat) {
    x + Arrivals(st, self, count, home, later, Good) <= Arrivals(st, self, count, home, before, Questionable)
  }

  /** One more node stacks its bucket up, or leaves it alone. */
  lemma StackNext(st: Liveness, self: ShaHash, bs: Slots, nodes: seq<Node>, k: nat, home: nat, goods: nat, waiting: nat)
    requires Shape(bs) && Refilling(self, bs, nodes, k) && nodes != [] && home < |bs|
    requires Stacked(st, bs[home], goods, waiting) && goods + waiting <= k && Strangers(bs[home], nodes)
    ensures var next := WithNode(st, self, bs, nodes[0]);
            && |next| == |bs| && Strangers(next[home], nodes[1..])
            && if Comes(st, self, |bs|, home, nodes[0], Good) then
                 next[home] == bs[home][goods := nodes[0]] && Stacked(st, next[home], goods + 1, if waiting > 0 then waiting - 1 else 0)
               else if Comes(st, self, |bs|, home, nodes[0], Questionable) then
                 next[home] == bs[home][goods + waiting := nodes[0]] && Stacked(st, next[home], goods, waiting + 1)
               else next[home] == bs[home]
  {
    hide Refilling, WithNode, Home, Place;
    var n := nodes[0];
    RefillNext(st, self, bs, nodes, k);
    if Status(st, n) != Bad && Home(self, |bs|, n) == home {
      StackOne(st, bs[home], goods, waiting, n);
    }
  }

  lemma {:induction false} ArrivalsAppend(st: Liveness, self: ShaHash, count: nat, home: nat, a: seq<Node>, b: seq<Node>, s: NodeStatus)
    ensures Arrivals(st, self, count, home, a + b, s) ==
            Arrivals(st, self, count, home, a, s) + Arrivals(st, self, count, home, b, s)
  {
    hide Comes;
    if a == [] {
      assert a + b == b;
    } else {
      assert (a + b)[1..] == a[1..] + b;
      ArrivalsAppend(st, self, count, home, a[1..], b, s);
    }
  }

  /** A contact that is in no slot and among no later nodes is not held afterwards. */
  lemma RefillWithout(st: Liveness, self: ShaHash, bs: Slots, nodes: seq<Node>, k: nat, home: nat, m: Node)
    requires Shape(bs) && Refilling(self, bs, nodes, k) && home < |bs| && Status(st, m) != Bad
    requires forall x :: (x in bs[home] || x in nodes) && Same(x, m) ==> Status(st, x) == Bad
    ensures |WithNodes(st, self, bs, nodes)| == |bs| && !Holds(st, WithNodes(st, self, bs, nodes)[home], m)
  {
    hide Refilling, WithNodes;
    assert nodes[..|nodes|] == nodes;
    RefillInParts(st, self, bs, nodes, k, |nodes|);
    var r := WithNodes(st, self, bs, nodes);
    forall x | x in r[home] && Same(x, m) ensures Status(st, x) == Bad {
      RefillOnly(st, self, bs, nodes, k, home, x);
    }
    assert forall i :: 0 <= i < |r[home]| ==> r[home][i] in r[home];
  }

  /** A node with `c` others waiting before it outlasts exactly `c` Good ones that come to its bucket. */
  lemma {:induction false} OutlastsIff(st: Liveness, self: ShaHash, bs: Slots, nodes: seq<Node>, k: nat, home: nat,
                                       goods: nat, waiting: nat, c: nat)
    requires Shape(bs) && Refilling(self, bs, nodes, k) && home < |bs| && c < waiting
    requires Stacked(st, bs[home], goods, waiting) && goods + waiting <= k && Strangers(bs[home], nodes)
    ensures var r := WithNodes(st, self, bs, nodes);
            |r| == |bs| && (Holds(st, r[home], bs[home][goods + c]) <==> Arrivals(st, self, |bs|, home, nodes, Good) <= c)
    decreases |nodes|
  {
    hide Refilling, WithNode, Home, Place, Strangers;
    var m := bs[home][goods + c];
    if nodes != [] {
      var next := WithNode(st, self, bs, nodes[0]);
      RefillNext(st, self, bs, nodes, k);
      StackNext(st, self, bs, nodes, k, home, goods, waiting);
      if Comes(st, self, |bs|, home, nodes[0], Good) {
        if c == 0 {
          FirstIsRelieved(st, self, bs, nodes, k, home, goods, m);
          RefillWithout(st, self, next, nodes[1..], k + 1, home, m);
        } else {
          OutlastsIff(st, self, next, nodes[1..], k + 1, home, goods + 1, waiting - 1, c - 1);
        }
      } else if Comes(st, self, |bs|, home, nodes[0], Questionable) {
        OutlastsIff(st, self, next, nodes[1..], k + 1, home, goods, waiting + 1, c);
      } else {
        OutlastsIff(st, self, next, nodes[1..], k + 1, home, goods, waiting, c);
      }
    }
  }

  /** Once overwritten, a node has no equal in its bucket or among the nodes to come. */
  lemma FirstIsRelieved(st: Liveness, self: ShaHash, bs: Slots, nodes: seq<Node>, k: nat, home: nat, i: nat, m: Node)
    requires Shape(bs) && Refilling(self, bs, nodes, k) && home < |bs| && Strangers(bs[home], nodes) && nodes != []
    requires i < MAX_BUCKET_SIZE && bs[home][i] == m && m.handle.Seen? && nodes[0].handle.Seen?
    ensures forall x :: (x in bs[home][i := nodes[0]] || x in nodes[1..]) && Same(x, m) ==> Status(st, x) == Bad
  {
    hide Refilling;
    RefilledFrom(self, bs, nodes, k, home);
    assert m in bs[home] && nodes[0] in nodes;
    forall x | x in bs[home][i := nodes[0]] && Same(x, m) ensures Status(st, x) == Bad {
      var j :| 0 <= j < |bs[home]| && bs[home][i := nodes[0]][j] == x;
    }
  }

  /** The fate of one node to be re-added: the Good ones behind it against the Questionable ones that wait before it. */
  lemma {:induction false} RefillFate(st: Liveness, self: ShaHash, bs: Slots, nodes: seq<Node>, k: nat, home: nat,
                                      goods: nat, waiting: nat, j: nat)
    requires Shape(bs) && Refilling(self, bs, nodes, k) && home < |bs| && j < |nodes|
    requires Stacked(st, bs[home], goods, waiting) && goods + waiting <= k && Strangers(bs[home], nodes)
    requires Comes(st, self, |bs|, home, nodes[j], Questionable)
    ensures var r := WithNodes(st, self, bs, nodes);
            |r| == |bs| && (Holds(st, r[home], nodes[j]) <==>
              Arrivals(st, self, |bs|, home, nodes[j + 1..], Good) <= Waiting(st, self, |bs|, home, waiting, nodes[..j]))
    decreases |nodes|
  {
    hide Refilling, WithNode, Home, Place, Holds, Stacked, Strangers;
    var next := WithNode(st, self, bs, nodes[0]);
    RefillNext(st, self, bs, nodes, k);
    StackNext(st, self, bs, nodes, k, home, goods, waiting);
    if j == 0 {
      OutlastsIff(st, self, next, nodes[1..], k + 1, home, goods, waiting + 1, waiting);
    } else {
      var more := if Comes(st, self, |bs|, home, nodes[0], Good) then goods + 1 else goods;
      var left := if Comes(st, self, |bs|, home, nodes[0], Questionable) then waiting + 1
                  else if Comes(st, self, |bs|, home, nodes[0], Good) && waiting > 0 then waiting - 1 else waiting;
      RefillFate(st, self, next, nodes[1..], k + 1, home, more, left, j - 1);
      assert nodes[..j][1..] == nodes[1..][..j - 1] && nodes[..j][0] == nodes[0];
      assert nodes[1..][j..] == nodes[j + 1..];
    }
  }

  /** From some slot `i` on, no more Good nodes of the half of slot `j` come than Questionable ones before slot `j`. */
  ghost predicate Relieved(st: Liveness, self: ShaHash, bs: Slots, j: nat)
    requires Shape(bs) && j < MAX_BUCKET_SIZE
  {
    var last, home := bs[|bs| - 1], Home(self, |bs| + 1, bs[|bs| - 1][j]);
    exists i :: 0 <= i <= j && Outnumbered(st, self, |bs| + 1, home, last[i..], last[i..j], 0)
  }

  /**
   * A Questionable node of the bucket is lost by a split exactly when, counted from every slot up to its own, more Good
   * nodes of its half are re-added than Questionable ones before it.
   */
  lemma SplitKeepsIff(st: Liveness, self: ShaHash, bs: Slots, j: nat)
    requires Inv(self, bs) && |bs| < MAX_BUCKETS && j < MAX_BUCKET_SIZE && Status(st, bs[|bs| - 1][j]) == Questionable
    requires forall n :: n in bs[|bs| - 1] && n.handle.Seen? ==> !Same(n, PLACEHOLDER)
    ensures InTable(st, Split(st, self, bs), bs[|bs| - 1][j]) <==> Relieved(st, self, bs, j)
  {
    hide Refilling, WithNodes, Home, Placed, Holds;
    var last, start := bs[|bs| - 1], Opened(bs);
    var m, home := last[j], Home(self, |bs| + 1, last[j]);
    RefillStarts(self, bs);
    StartsEmpty(st, self, bs, j);
    RefillFate(st, self, start, last, 0, home, 0, 0, j);
    SplitKeeps(st, self, bs);
    HeldAtHome(st, self, Split(st, self, bs), m);
    RelievedIff(st, self, bs, j);
  }

  lemma StartsEmpty(st: Liveness, self: ShaHash, bs: Slots, j: nat)
    requires Inv(self, bs) && |bs| < MAX_BUCKETS && j < MAX_BUCKET_SIZE && bs[|bs| - 1][j].handle.Seen?
    requires forall n :: n in bs[|bs| - 1] && n.handle.Seen? ==> !Same(n, PLACEHOLDER)
    ensures var home := Home(self, |bs| + 1, bs[|bs| - 1][j]);
            home < |Opened(bs)| && Stacked(st, Opened(bs)[home], 0, 0) && Strangers(Opened(bs)[home], bs[|bs| - 1])
  {
    hide CommonPrefix;
    LastPrefixes(self, bs);
    assert bs[|bs| - 1][j] in bs[|bs| - 1];
  }

  lemma RelievedIff(st: Liveness, self: ShaHash, bs: Slots, j: nat)
    requires Shape(bs) && j < MAX_BUCKET_SIZE && Status(st, bs[|bs| - 1][j]) == Questionable
    ensures var last, home := bs[|bs| - 1], Home(self, |bs| + 1, bs[|bs| - 1][j]);
            Relieved(st, self, bs, j) <==>
            Arrivals(st, self, |bs| + 1, home, last[j + 1..], Good) <= Waiting(st, self, |bs| + 1, home, 0, last[..j])
  {
    hide Home, Arrivals, Waiting;
    var last, count, home := bs[|bs| - 1], |bs| + 1, Home(self, |bs| + 1, bs[|bs| - 1][j]);
    var x := Arrivals(st, self, count, home, last[j + 1..], Good);
    WaitingIff(st, self, count, home, 0, last[..j], x);
    assert last[..j][0..] == last[..j];
    forall i | 0 <= i <= j
      ensures Outnumbered(st, self, count, home, last[i..], last[i..j], 0) <==>
              Outnumbered(st, self, count, home, last[..j][i..], last[..j][i..], x)
    {
      assert last[i..] == last[i..j] + ([last[j]] + last[j + 1..]) && last[..j][i..] == last[i..j];
      ArrivalsAppend(st, self, count, home, last[i..j], [last[j]] + last[j + 1..], Good);
      ArrivalsAppend(st, self, count, home, [last[j]], last[j + 1..], Good);
      NotGood(st, self, count, home, last[j]);
    }
  }

  lemma NotGood(st: Liveness, self: ShaHash, count: nat, home: nat, n: Node)
    requires Status(st, n) != Good
    ensures Arrivals(st, self, count, home, [n], Good) == 0
  {}

  // ----- When the table grows

  /** A bucket turns a node away exactly when it is full of other nodes at least as good. */
  predicate TurnsAway(st: Liveness, b: seq<Node>, n: Node) {
    FullOf(st, b, Status(st, n)) && forall j :: 0 <= j < |b| ==> !Same(b[j], n)
  }

  lemma RefusedIff(st: Liveness, b: seq<Node>, n: Node)
    requires Status(st, n) != Bad
    ensures !Place(st, b, n).1 <==> TurnsAway(st, b, n)
  {}

  /** The table grows exactly when the last bucket, not yet the 160th, turns the node away. */
  lemma GrowsIff(st: Liveness, self: ShaHash, bs: Slots, n: Node)
    requires Inv(self, bs)
    ensures |WithNode(st, self, bs, n)| > |bs| <==>
              && Status(st, n) != Bad && n.id != self
              && CommonPrefix(self, n.id) >= |bs| - 1 && |bs| < MAX_BUCKETS && TurnsAway(st, bs[|bs| - 1], n)
  {
    hide Place, Split, CommonPrefix, TurnsAway;
    FullPrefixIsEqual(self, n.id);
    if Status(st, n) != Bad {
      RefusedIff(st, bs[Home(self, |bs|, n)], n);
    }
  }

  /**
   * A Questionable node offered to a table whose last bucket has no Good node drives nobody out, through any number of
   * splits.
   */
  lemma QuestionableKeepsAll(st: Liveness, self: ShaHash, bs: Slots, n: Node)
    requires Inv(self, bs) && Status(st, n) == Questionable && NoGoodLast(st, bs)
    ensures KeepsPingable(st, bs, WithNode(st, self, bs, n))
  {
    hide CommonPrefix, WithNodeAt, KeepsPingable;
    if CommonPrefix(self, n.id) < MAX_BUCKETS {
      QuestionableKeepsAllAt(st, self, bs, n);
    } else {
      AllStay(st, bs);
    }
  }

  lemma AllStay(st: Liveness, bs: Slots)
    ensures KeepsPingable(st, bs, bs)
  {}

  lemma {:induction false} QuestionableKeepsAllAt(st: Liveness, self: ShaHash, bs: Slots, n: Node)
    requires Inv(self, bs) && Status(st, n) == Questionable && CommonPrefix(self, n.id) < MAX_BUCKETS && NoGoodLast(st, bs)
    ensures KeepsPingable(st, bs, WithNodeAt(st, self, bs, n, CommonPrefix(self, n.id)))
    decreases MAX_BUCKETS - |bs|
  {
    hide Place, Split, CommonPrefix, KeepsGood, WellFormed, Holds, Rank;
    var i := Home(self, |bs|, n);
    if Place(st, bs[i], n).1 {
      var r: Slots := bs[i := Place(st, bs[i], n).0];
      forall m | Pingable(st, m) && InTable(st, bs, m) ensures InTable(st, r, m) {
        var k :| 0 <= k < |bs| && Holds(st, bs[k], m);
        NotAbove(st, n, m);
        if k == i {
          PlaceKeepsNoWorse(st, bs[i], n, m);
        }
        assert Holds(st, r[k], m);
      }
    } else if CanSplitBucket(|bs|, i) {
      var r := Split(st, self, bs);
      SplitKeeps(st, self, bs);
      SplitKeepsPingable(st, self, bs);
      forall x | x in r[|r| - 1] ensures Status(st, x) != Good {
        if x.handle.Seen? {
          SplitOnly(st, self, bs, |bs|, x);
        }
      }
      QuestionableKeepsAllAt(st, self, r, n);
    }
  }

  lemma NotAbove(st: Liveness, n: Node, m: Node)
    requires Status(st, n) == Questionable && Pingable(st, m)
    ensures Rank(Status(st, n)) <= Rank(Status(st, m))
  {}
}
