/** Nodes, their status, and the eight-slot bucket with status-ordered replacement. */
module Bucket {
  import opened Sha

  const MAX_BUCKET_SIZE := 8

  datatype NodeStatus = Bad | Questionable | Good

  function Rank(s: NodeStatus): nat {
    match s case Bad => 0 case Questionable => 1 case Good => 2
  }

  /** The shared liveness record behind a node: clones of one node share one record. */
  datatype Handle = Never | Seen(key: nat)

  type SocketAddr = nat

  datatype Node = Node(id: ShaHash, addr: SocketAddr, handle: Handle)

  /** What each liveness record says while one call runs; it may differ freely between calls. */
  type Liveness = nat -> NodeStatus

  /** A node that never responded is Bad; any other has the status of its record. */
  function Status(st: Liveness, n: Node): NodeStatus {
    match n.handle case Never => Bad case Seen(k) => st(k)
  }

  /** Node equality: the id and the address, whatever the liveness record. */
  predicate Same(a: Node, b: Node) {
    a.id == b.id && a.addr == b.addr
  }

  predicate Pingable(st: Liveness, n: Node) {
    Status(st, n) != Bad
  }

  /** What a fresh slot holds: the zero id on port 0 of the local host, never heard from. */
  const PLACEHOLDER := Node(ZeroId(), 0, Never)

  function Empty(): (b: seq<Node>)
    ensures |b| == MAX_BUCKET_SIZE && forall j :: 0 <= j < MAX_BUCKET_SIZE ==> b[j] == PLACEHOLDER
  {
    seq(MAX_BUCKET_SIZE, _ => PLACEHOLDER)
  }

  function FirstSame(b: seq<Node>, n: Node, i: nat): (r: nat)
    requires i <= |b|
    ensures i <= r <= |b|
    ensures forall j :: i <= j < r ==> !Same(b[j], n)
    ensures r < |b| ==> Same(b[r], n)
    decreases |b| - i
  {
    if i == |b| || Same(b[i], n) then i else FirstSame(b, n, i + 1)
  }

  function FirstBelow(st: Liveness, b: seq<Node>, s: NodeStatus, i: nat): (r: nat)
    requires i <= |b|
    ensures i <= r <= |b|
    ensures forall j :: i <= j < r ==> Rank(Status(st, b[j])) >= Rank(s)
    ensures r < |b| ==> Rank(Status(st, b[r])) < Rank(s)
    decreases |b| - i
  {
    if i == |b| || Rank(Status(st, b[i])) < Rank(s) then i else FirstBelow(st, b, s, i + 1)
  }

  /** A bucket after offering it `n`, and whether the bucket took care of it. */
  function Place(st: Liveness, b: seq<Node>, n: Node): (r: (seq<Node>, bool))
    ensures |r.0| == |b|
  {
    if Status(st, n) == Bad then
      (b, true)
    else if FirstSame(b, n, 0) < |b| then
      var i := FirstSame(b, n, 0);
      (if Rank(Status(st, n)) >= Rank(Status(st, b[i])) then b[i := n] else b, true)
    else if FirstBelow(st, b, Status(st, n), 0) < |b| then
      (b[FirstBelow(st, b, Status(st, n), 0) := n], true)
    else
      (b, false)
  }

  class Bucket {
    const nodes: array<Node>

    constructor ()
      ensures fresh(nodes) && nodes[..] == Empty()
    {
      nodes := new Node[MAX_BUCKET_SIZE](_ => PLACEHOLDER);
    }

    method AddNode(st: Liveness, newNode: Node) returns (ok: bool)
      modifies nodes
      ensures (nodes[..], ok) == Place(st, old(nodes[..]), newNode)
    {
      var newNodeStatus := Status(st, newNode);
      if newNodeStatus == Bad {
        return true;
      }
      var index := 0;
      while index < nodes.Length && !Same(nodes[index], newNode)
        invariant 0 <= index <= nodes.Length
        invariant FirstSame(nodes[..], newNode, 0) == FirstSame(nodes[..], newNode, index)
      {
        index := index + 1;
      }
      if index < nodes.Length {
        if Rank(newNodeStatus) >= Rank(Status(st, nodes[index])) {
          nodes[index] := newNode;
        }
        return true;
      }
      index := 0;
      while index < nodes.Length && Rank(Status(st, nodes[index])) >= Rank(newNodeStatus)
        invariant 0 <= index <= nodes.Length
        invariant FirstBelow(st, nodes[..], newNodeStatus, 0) == FirstBelow(st, nodes[..], newNodeStatus, index)
      {
        index := index + 1;
      }
      ok := index < nodes.Length;
      if ok {
        nodes[index] := newNode;
      }
    }
  }

  // ----- What one placement keeps

  /** Eight slots: seen nodes, pairwise different, and then the unused placeholders. */
  predicate WellFormed(b: seq<Node>) {
    && |b| == MAX_BUCKET_SIZE
    && (forall i :: 0 <= i < |b| && b[i].handle.Never? ==> b[i] == PLACEHOLDER)
    && (forall i, j :: 0 <= i < j < |b| && b[i].handle.Never? ==> b[j].handle.Never?)
    && (forall i, j :: 0 <= i < j < |b| && b[i].handle.Seen? && b[j].handle.Seen? ==> !Same(b[i], b[j]))
  }

  /** `b` holds a node equal to `n` whose status is at least that of `n`. */
  predicate Holds(st: Liveness, b: seq<Node>, n: Node) {
    exists i :: 0 <= i < |b| && Same(b[i], n) && Rank(Status(st, b[i])) >= Rank(Status(st, n))
  }

  predicate TailFree(b: seq<Node>, k: nat) {
    forall j :: k <= j < |b| ==> b[j] == PLACEHOLDER
  }

  /** Every slot holds a node of status at least `s`. */
  predicate FullOf(st: Liveness, b: seq<Node>, s: NodeStatus) {
    forall i :: 0 <= i < |b| ==> Rank(Status(st, b[i])) >= Rank(s)
  }

  lemma PlaceWellFormed(st: Liveness, b: seq<Node>, n: Node)
    requires WellFormed(b)
    ensures WellFormed(Place(st, b, n).0)
    ensures forall m :: m in Place(st, b, n).0 ==> m in b || (m == n && Status(st, n) != Bad)
  {}

  lemma PlaceKeepsGood(st: Liveness, b: seq<Node>, n: Node, m: Node)
    requires Status(st, m) == Good && Holds(st, b, m)
    ensures Holds(st, Place(st, b, n).0, m)
  {
    var r := Place(st, b, n).0;
    var i :| 0 <= i < |b| && Same(b[i], m) && Rank(Status(st, b[i])) >= Rank(Status(st, m));
    assert Same(r[i], m) && Status(st, r[i]) == Good;
  }

  /** A newcomer drives out only nodes of a lower status than its own: one that is not Good, no Questionable node. */
  lemma PlaceKeepsNoWorse(st: Liveness, b: seq<Node>, n: Node, m: Node)
    requires Rank(Status(st, n)) <= Rank(Status(st, m)) && Holds(st, b, m)
    ensures Holds(st, Place(st, b, n).0, m)
  {
    var r := Place(st, b, n).0;
    var i :| 0 <= i < |b| && Same(b[i], m) && Rank(Status(st, b[i])) >= Rank(Status(st, m));
    assert Same(r[i], m) && Rank(Status(st, r[i])) >= Rank(Status(st, m));
  }

  /** Of two records of one contact the one with the higher status stays, and of equal ones the newer. */
  lemma PlaceRenews(st: Liveness, b: seq<Node>, n: Node, i: nat)
    requires WellFormed(b) && i < |b| && b[i].handle.Seen? && Same(b[i], n) && Status(st, n) != Bad
    ensures Place(st, b, n) == (b[i := if Rank(Status(st, b[i])) > Rank(Status(st, n)) then b[i] else n], true)
  {
    assert FirstSame(b, n, 0) == i && b[i := b[i]] == b;
  }

  /** A new contact takes the first slot of a lower status, and every other slot keeps its node. */
  lemma PlaceFirstLower(st: Liveness, b: seq<Node>, n: Node, k: nat)
    requires k < |b| && Rank(Status(st, b[k])) < Rank(Status(st, n)) && forall j :: 0 <= j < |b| ==> !Same(b[j], n)
    requires forall j :: 0 <= j < k ==> Rank(Status(st, b[j])) >= Rank(Status(st, n))
    ensures Place(st, b, n) == (b[k := n], true)
  {
    assert FirstBelow(st, b, Status(st, n), 0) == k;
  }

  /** A node that is not Bad ends up held, or the bucket is left alone and full of nodes as good. */
  lemma PlaceOutcome(st: Liveness, b: seq<Node>, n: Node)
    requires Status(st, n) != Bad
    ensures var (r, ok) := Place(st, b, n);
            if ok then Holds(st, r, n) else r == b && FullOf(st, b, Status(st, n)) && !Holds(st, b, n)
  {
    var (r, ok) := Place(st, b, n);
    if ok {
      var i := if FirstSame(b, n, 0) < |b| then FirstSame(b, n, 0) else FirstBelow(st, b, Status(st, n), 0);
      assert Same(r[i], n);
    }
  }

  /** A new Good node drives out a Questionable one exactly when only Good nodes precede it,
      even while placeholders are free. */
  lemma QuestionableLost(st: Liveness, b: seq<Node>, n: Node, i: nat)
    requires WellFormed(b) && i < |b| && Status(st, b[i]) == Questionable
    requires Status(st, n) == Good && forall j :: 0 <= j < |b| ==> !Same(b[j], n)
    ensures Holds(st, Place(st, b, n).0, b[i]) <==> exists j :: 0 <= j < i && Status(st, b[j]) != Good
  {
    var r, k := Place(st, b, n).0, FirstBelow(st, b, Good, 0);
    assert r == b[k := n];
    if k < i {
      assert Same(r[i], b[i]);
    } else {
      assert forall j :: 0 <= j < |b| && j != i && Same(b[j], b[i]) ==> Status(st, b[j]) == Bad;
    }
  }

  /** Seven placeholders are free, and still the one Questionable node is lost. */
  lemma QuestionableLostExample(st: Liveness, q: Node, n: Node)
    requires Status(st, q) == Questionable && Status(st, n) == Good && !Same(q, n) && !Same(PLACEHOLDER, n)
    ensures WellFormed(Empty()[0 := q]) && !Holds(st, Place(st, Empty()[0 := q], n).0, q)
  {
    QuestionableLost(st, Empty()[0 := q], n, 0);
  }

  /** While a placeholder is left, a node that is not Bad is always taken, by slot `k` at the latest. */
  lemma PlaceInFree(st: Liveness, b: seq<Node>, n: Node, k: nat)
    requires WellFormed(b) && k < MAX_BUCKET_SIZE && TailFree(b, k) && Status(st, n) != Bad
    ensures Place(st, b, n).1 && TailFree(Place(st, b, n).0, k + 1)
  {
    assert b[k] == PLACEHOLDER;
  }
}
