/** The three nodes a round asks: always the closest candidate, but not always the three closest. */
module LookupPicks {
  import opened Wrappers
  import opened Sha
  import opened Lookup

  predicate Closer(env: Env, a: Contact, b: Contact) {
    Less(Distance(env, a), Distance(env, b))
  }

  lemma CloserTotal(env: Env, a: Contact, b: Contact)
    ensures Closer(env, a, b) || Closer(env, b, a) || Distance(env, a) == Distance(env, b)
    ensures !(Closer(env, a, b) && Closer(env, b, a)) && (Closer(env, a, b) ==> a != b)
  {
    hide Less, Distance;
    LessTotal(Distance(env, a), Distance(env, b));
  }

  lemma CloserTransitive(env: Env, a: Contact, b: Contact, c: Contact)
    requires Closer(env, a, b) && Closer(env, b, c)
    ensures Closer(env, a, c)
  {
    hide LessFrom, Distance;
    LessFromTransitive(Distance(env, a), Distance(env, b), Distance(env, c), 0);
  }

  // ----- One insertion

  /** A slot gives way: it is unused, or its node is farther. */
  predicate Yields(env: Env, p: Pick, x: Contact) {
    p.used ==> Closer(env, x, p.node)
  }

  /** The first slot that gives way is overwritten, whatever it held. */
  lemma InsertThree(env: Env, p: seq<Pick>, x: Contact)
    requires |p| == ITERATIVE_PICK_NUM
    ensures InsertClosest(env, p, x) ==
            if Yields(env, p[0], x) then p[0 := Pick(x, true)]
            else if Yields(env, p[1], x) then p[1 := Pick(x, true)]
            else if Yields(env, p[2], x) then p[2 := Pick(x, true)]
            else p
  {
    hide Less, Distance, InsertClosest;
    InsertHead(env, p, x);
    InsertHead(env, p[1..], x);
    InsertHead(env, p[1..][1..], x);
    assert p[1..][0] == p[1] && p[1..][1..][0] == p[2] && p[1..][1..][1..] == [];
    assert InsertClosest(env, [], x) == [];
    assert p == [p[0], p[1], p[2]];
  }

  lemma InsertHead(env: Env, p: seq<Pick>, x: Contact)
    requires p != []
    ensures InsertClosest(env, p, x) ==
            if Yields(env, p[0], x) then [Pick(x, true)] + p[1..] else [p[0]] + InsertClosest(env, p[1..], x)
  {
    hide Less, Distance;
  }

  function Picks(env: Env, nodes: seq<Contact>, k: nat): (r: seq<Pick>)
    requires k <= |nodes|
    ensures |r| == ITERATIVE_PICK_NUM
  {
    PickIterate(env, nodes[..k])
  }

  lemma PicksNext(env: Env, nodes: seq<Contact>, k: nat)
    requires k < |nodes|
    ensures Picks(env, nodes, k + 1) == InsertClosest(env, Picks(env, nodes, k), nodes[k])
  {
    hide InsertClosest;
    assert nodes[..k + 1][..k] == nodes[..k];
  }

  lemma PicksFirst(env: Env, nodes: seq<Contact>)
    ensures forall i :: 0 <= i < ITERATIVE_PICK_NUM ==> !Picks(env, nodes, 0)[i].used
    ensures Picks(env, nodes, |nodes|) == PickIterate(env, nodes)
  {
    hide InsertClosest;
    assert nodes[..|nodes|] == nodes;
  }

  // ----- The closest is always picked

  /** The first slot always holds a closest candidate. */
  lemma {:induction false} FirstIsClosest(env: Env, nodes: seq<Contact>, k: nat)
    requires 0 < k <= |nodes|
    ensures var p := Picks(env, nodes, k)[0];
            p.used && p.node in nodes[..k] && forall j :: 0 <= j < k ==> !Closer(env, nodes[j], p.node)
  {
    hide Closer, PickIterate, InsertClosest;
    var x, p := nodes[k - 1], Picks(env, nodes, k - 1);
    PicksFirst(env, nodes);
    PicksNext(env, nodes, k - 1);
    InsertThree(env, p, x);
    assert nodes[..k] == nodes[..k - 1] + [x];
    CloserTotal(env, x, x);
    if k > 1 {
      FirstIsClosest(env, nodes, k - 1);
      if Closer(env, x, p[0].node) {
        forall j | 0 <= j < k - 1 ensures !Closer(env, nodes[j], x) {
          if Closer(env, nodes[j], x) {
            CloserTransitive(env, nodes[j], x, p[0].node);
          }
        }
      }
    }
  }

  /** Only candidates are picked. */
  lemma {:induction false} PickedAreCandidates(env: Env, nodes: seq<Contact>, k: nat, i: nat)
    requires k <= |nodes| && i < ITERATIVE_PICK_NUM && Picks(env, nodes, k)[i].used
    ensures Picks(env, nodes, k)[i].node in nodes[..k]
  {
    hide Yields, PickIterate, InsertClosest;
    PicksFirst(env, nodes);
    if k > 0 {
      PicksNext(env, nodes, k - 1);
      InsertThree(env, Picks(env, nodes, k - 1), nodes[k - 1]);
      assert nodes[..k] == nodes[..k - 1] + [nodes[k - 1]];
      if Picks(env, nodes, k)[i] != Pick(nodes[k - 1], true) {
        PickedAreCandidates(env, nodes, k - 1, i);
      }
    }
  }

  /** The distance to beat is the least of the old one and those of the candidates. */
  lemma {:induction false} ClosestIsLeast(env: Env, dist: ShaHash, nodes: seq<Contact>)
    ensures var c := Closest(env, dist, nodes);
            && !Less(dist, c) && (forall n :: n in nodes ==> !Less(Distance(env, n), c))
            && (c == dist || exists n :: n in nodes && Distance(env, n) == c)
  {
    hide LessFrom, Distance;
    LessTotal(dist, dist);
    if nodes != [] {
      var front, x := nodes[..|nodes| - 1], nodes[|nodes| - 1];
      var b, d := Closest(env, dist, front), Distance(env, x);
      ClosestIsLeast(env, dist, front);
      LessTotal(d, d);
      assert nodes == front + [x];
      if Less(d, b) {
        forall e | !Less(e, b) ensures !Less(e, d) {
          if Less(e, d) {
            LessFromTransitive(e, d, b, 0);
          }
        }
      }
    }
  }

  lemma {:induction false} UsedAre(picks: seq<Pick>, n: Contact)
    requires n in UsedNodes(picks)
    ensures Pick(n, true) in picks
  {
    if !(picks[0].used && picks[0].node == n) {
      UsedAre(picks[1..], n);
    }
  }

  lemma {:induction false} NotRequestedAre(s: State, nodes: seq<Contact>, n: Contact)
    requires n in NotRequested(s, nodes)
    ensures n in nodes && n !in s.requested
  {
    if !(nodes[0] !in s.requested && nodes[0] == n) {
      NotRequestedAre(s, nodes[1..], n);
    }
  }

  lemma {:induction false} AllNotRequested(s: State, nodes: seq<Contact>, n: Contact)
    requires n in nodes && n !in s.requested
    ensures n in NotRequested(s, nodes)
  {
    if nodes[0] != n {
      AllNotRequested(s, nodes[1..], n);
    }
  }

  /** The node is listed, was not asked before, and is closer than the distance to beat. */
  predicate Beats(env: Env, s: State, dist: ShaHash, info: Info, n: Contact) {
    NodesOf(info).Some? && n in NodesOf(info).value && n !in s.requested && Less(Distance(env, n), dist)
  }

  /** A response starts a round exactly if it lists a node that beats the distance; no such node is closer than the next. */
  lemma RoundStartsIff(env: Env, s: State, dist: ShaHash, info: Info)
    ensures NextPicks(env, s, dist, info).Some? <==> exists n :: Beats(env, s, dist, info, n)
    ensures forall n :: Beats(env, s, dist, info, n) ==> !Less(Distance(env, n), NextDistance(env, s, dist, info))
    ensures NextPicks(env, s, dist, info).None? ==> NextDistance(env, s, dist, info) == dist
  {
    hide LessFrom, Distance, PickIterate, NotRequested, Closest;
    if NodesOf(info).Some? {
      var nodes := NotRequested(s, NodesOf(info).value);
      var c := Closest(env, dist, nodes);
      ClosestIsLeast(env, dist, nodes);
      LessTotal(c, dist);
      forall n | Beats(env, s, dist, info, n) ensures !Less(Distance(env, n), c) && Less(c, dist) {
        AllNotRequested(s, NodesOf(info).value, n);
      }
      if Less(c, dist) {
        var n :| n in nodes && Distance(env, n) == c;
        NotRequestedAre(s, NodesOf(info).value, n);
        assert Beats(env, s, dist, info, n);
      }
    }
  }

  /**
   * A response that beats the distance asks at most three nodes, all of them from the response and not asked before, and
   * the first of them is at exactly the new distance to beat.
   */
  lemma RoundAsksClosest(env: Env, s: State, dist: ShaHash, info: Info)
    requires NextPicks(env, s, dist, info).Some?
    ensures var used := UsedNodes(NextPicks(env, s, dist, info).value);
            && 0 < |used| <= ITERATIVE_PICK_NUM
            && Distance(env, used[0]) == NextDistance(env, s, dist, info)
            && forall n :: n in used ==> n in NodesOf(info).value && n !in s.requested
  {
    hide Less, Distance, PickIterate, NotRequested;
    var nodes := NotRequested(s, NodesOf(info).value);
    var picks := PickIterate(env, nodes);
    var used := UsedNodes(picks);
    PicksFirst(env, nodes);
    ClosestIsLeast(env, dist, nodes);
    var c := Closest(env, dist, nodes);
    LessTotal(dist, dist);
    var m :| m in nodes && Distance(env, m) == c;
    FirstIsClosest(env, nodes, |nodes|);
    assert nodes[..|nodes|] == nodes;
    LessTotal(Distance(env, picks[0].node), c);
    forall n | n in used ensures n in NodesOf(info).value && n !in s.requested {
      UsedAre(picks, n);
      var i :| 0 <= i < |picks| && picks[i] == Pick(n, true);
      PickedAreCandidates(env, nodes, |nodes|, i);
      NotRequestedAre(s, NodesOf(info).value, n);
    }
  }

  // ----- The three closest are not always picked

  predicate IsPicked(picks: seq<Pick>, n: Contact) {
    exists i :: 0 <= i < |picks| && picks[i] == Pick(n, true)
  }

  /** Candidates a, b and c are the three closest, in this order. */
  predicate Nearest(env: Env, nodes: seq<Contact>, a: nat, b: nat, c: nat) {
    && a < |nodes| && b < |nodes| && c < |nodes|
    && Closer(env, nodes[a], nodes[b]) && Closer(env, nodes[b], nodes[c])
    && forall j :: 0 <= j < |nodes| && j != a && j != b && j != c ==> Closer(env, nodes[c], nodes[j])
  }

  /** All candidates before `k` but the one at `x` and those in `near` are farther than it. */
  predicate FartherThan(env: Env, nodes: seq<Contact>, x: nat, near: set<nat>, k: nat) {
    && x < |nodes| && k <= |nodes|
    && forall j :: 0 <= j < k && j != x && j !in near ==> Closer(env, nodes[x], nodes[j])
  }

  /** A slot that is unused or holds a node farther than `x`; what is closer than `x` takes it too. */
  lemma YieldsTo(env: Env, p: Pick, x: Contact, y: Contact)
    requires Yields(env, p, x) && (y == x || Closer(env, y, x))
    ensures Yields(env, p, y)
  {
    hide Closer;
    if p.used && y != x {
      CloserTransitive(env, y, x, p.node);
    }
  }

  lemma Holds(env: Env, x: Contact, y: Contact)
    requires x == y || Closer(env, x, y)
    ensures !Yields(env, Pick(x, true), y)
  {
    hide Closer;
    CloserTotal(env, x, y);
  }

  /** With a before b, both closer than the rest, a stays in the first slot and b in the second. */
  lemma {:induction false} TwoSlots(env: Env, nodes: seq<Contact>, a: nat, b: nat, n: nat, k: nat)
    requires a < b < |nodes| && Closer(env, nodes[a], nodes[b]) && FartherThan(env, nodes, b, {a}, n) && k <= n
    ensures var p := Picks(env, nodes, k);
            && (if k <= a then Yields(env, p[0], nodes[b]) else p[0] == Pick(nodes[a], true))
            && (if k <= b then Yields(env, p[1], nodes[b]) else p[1] == Pick(nodes[b], true))
  {
    hide Closer, PickIterate, InsertClosest;
    if k == 0 {
      PicksFirst(env, nodes);
    } else {
      var x, p: seq<Pick> := nodes[k - 1], Picks(env, nodes, k - 1);
      TwoSlots(env, nodes, a, b, n, k - 1);
      PicksNext(env, nodes, k - 1);
      InsertThree(env, p, x);
      if k - 1 == a {
        YieldsTo(env, p[0], nodes[b], nodes[a]);
      } else if k - 1 == b {
        Holds(env, nodes[a], x);
      } else {
        assert Closer(env, nodes[b], x);
        CloserTransitive(env, nodes[a], nodes[b], x);
        Holds(env, nodes[a], x);
        Holds(env, nodes[b], x);
      }
    }
  }

  /** In ascending order, the third closest stays in the third slot. */
  lemma {:induction false} ThirdSlot(env: Env, nodes: seq<Contact>, a: nat, b: nat, c: nat, k: nat)
    requires Nearest(env, nodes, a, b, c) && a < b < c && k <= |nodes|
    ensures var p := Picks(env, nodes, k);
            if k <= c then Yields(env, p[2], nodes[c]) else p[2] == Pick(nodes[c], true)
  {
    hide Closer, PickIterate, InsertClosest;
    if k == 0 {
      PicksFirst(env, nodes);
    } else {
      var x, p: seq<Pick> := nodes[k - 1], Picks(env, nodes, k - 1);
      ThirdSlot(env, nodes, a, b, c, k - 1);
      RestIsFarther(env, nodes, a, b, c);
      TwoSlots(env, nodes, a, b, |nodes|, k - 1);
      PicksNext(env, nodes, k - 1);
      InsertThree(env, p, x);
      if k - 1 == a {
        YieldsTo(env, p[0], nodes[b], nodes[a]);
      } else if k - 1 == c {
        CloserTransitive(env, nodes[a], nodes[b], nodes[c]);
        Holds(env, nodes[a], x);
        Holds(env, nodes[b], x);
      } else if k - 1 != b {
        Holds(env, nodes[c], x);
      } else {
        Holds(env, nodes[a], x);
      }
    }
  }

  lemma RestIsFarther(env: Env, nodes: seq<Contact>, a: nat, b: nat, c: nat)
    requires Nearest(env, nodes, a, b, c)
    ensures FartherThan(env, nodes, b, {a}, |nodes|) && FartherThan(env, nodes, c, {a, b}, |nodes|)
  {
    hide Closer;
    forall j | 0 <= j < |nodes| && j != b && j !in {a} ensures Closer(env, nodes[b], nodes[j]) {
      if j != c {
        CloserTransitive(env, nodes[b], nodes[c], nodes[j]);
      }
    }
  }

  /** A candidate that occurs once is in at most one slot, and in none before its turn. */
  lemma {:induction false} InOneSlot(env: Env, nodes: seq<Contact>, x: nat, k: nat, i: nat, j: nat)
    requires x < |nodes| && k <= |nodes| && i < ITERATIVE_PICK_NUM && j < ITERATIVE_PICK_NUM
    requires forall m :: 0 <= m < |nodes| && m != x ==> nodes[m] != nodes[x]
    ensures Picks(env, nodes, k)[i] == Pick(nodes[x], true) ==> x < k
    ensures Picks(env, nodes, k)[i] == Picks(env, nodes, k)[j] == Pick(nodes[x], true) ==> i == j
  {
    hide Yields, PickIterate, InsertClosest;
    PicksFirst(env, nodes);
    if k > 0 {
      PicksNext(env, nodes, k - 1);
      InsertThree(env, Picks(env, nodes, k - 1), nodes[k - 1]);
      InOneSlot(env, nodes, x, k - 1, i, j);
      InOneSlot(env, nodes, x, k - 1, j, i);
    }
  }

  /** Once gone, a candidate does not come back. */
  lemma {:induction false} StaysGone(env: Env, nodes: seq<Contact>, x: nat, m: nat, k: nat)
    requires x < m <= k <= |nodes| && !IsPicked(Picks(env, nodes, m), nodes[x])
    requires forall j :: 0 <= j < |nodes| && j != x ==> nodes[j] != nodes[x]
    ensures !IsPicked(Picks(env, nodes, k), nodes[x])
    decreases k
  {
    hide Yields, PickIterate, InsertClosest;
    if m < k {
      StaysGone(env, nodes, x, m, k - 1);
      PicksNext(env, nodes, k - 1);
      InsertThree(env, Picks(env, nodes, k - 1), nodes[k - 1]);
    }
  }

  /** A candidate in slot `i` that a closer one reaches is gone for good. */
  lemma Displaced(env: Env, nodes: seq<Contact>, x: nat, y: nat, i: nat)
    requires x < y < |nodes| && i < 2 && Closer(env, nodes[y], nodes[x])
    requires forall j :: 0 <= j < |nodes| && j != x ==> nodes[j] != nodes[x]
    requires Picks(env, nodes, y)[i] == Pick(nodes[x], true)
    requires i == 1 ==> !Yields(env, Picks(env, nodes, y)[0], nodes[y])
    ensures !IsPicked(PickIterate(env, nodes), nodes[x])
  {
    hide Closer, PickIterate, InsertClosest;
    PicksFirst(env, nodes);
    PicksNext(env, nodes, y);
    InsertThree(env, Picks(env, nodes, y), nodes[y]);
    InOneSlot(env, nodes, x, y, i, 0);
    InOneSlot(env, nodes, x, y, i, 1);
    InOneSlot(env, nodes, x, y, i, 2);
    StaysGone(env, nodes, x, y + 1, |nodes|);
  }

  /** With x alone closest before y's turn, x is in the first slot then. */
  lemma FirstSlotIs(env: Env, nodes: seq<Contact>, x: nat, y: nat)
    requires x < y && FartherThan(env, nodes, x, {}, y)
    ensures Picks(env, nodes, y)[0] == Pick(nodes[x], true)
  {
    hide Closer, PickIterate;
    FirstIsClosest(env, nodes, y);
    var p := Picks(env, nodes, y)[0];
    var j :| 0 <= j < |nodes[..y]| && nodes[..y][j] == p.node;
    assert nodes[j] == p.node;
  }

  lemma NearestOnce(env: Env, nodes: seq<Contact>, a: nat, b: nat, c: nat)
    requires Nearest(env, nodes, a, b, c)
    ensures forall j :: 0 <= j < |nodes| ==>
              (j != a ==> nodes[j] != nodes[a]) && (j != b ==> nodes[j] != nodes[b]) && (j != c ==> nodes[j] != nodes[c])
  {
    hide Closer;
    CloserTransitive(env, nodes[a], nodes[b], nodes[c]);
    forall j | 0 <= j < |nodes|
      ensures (j != a ==> nodes[j] != nodes[a]) && (j != b ==> nodes[j] != nodes[b]) && (j != c ==> nodes[j] != nodes[c])
    {
      CloserTotal(env, nodes[a], nodes[b]);
      CloserTotal(env, nodes[b], nodes[c]);
      CloserTotal(env, nodes[a], nodes[c]);
      if j != a && j != b && j != c {
        CloserTransitive(env, nodes[b], nodes[c], nodes[j]);
        CloserTransitive(env, nodes[a], nodes[c], nodes[j]);
        CloserTotal(env, nodes[c], nodes[j]);
        CloserTotal(env, nodes[b], nodes[j]);
        CloserTotal(env, nodes[a], nodes[j]);
      }
    }
  }

  /** Out of ascending order, one of the three is driven out by a closer one. */
  lemma OutOfOrderIsLost(env: Env, nodes: seq<Contact>, a: nat, b: nat, c: nat)
    requires Nearest(env, nodes, a, b, c) && !(a < b < c)
    ensures !IsPicked(PickIterate(env, nodes), nodes[b]) || !IsPicked(PickIterate(env, nodes), nodes[c])
  {
    hide Closer, PickIterate, IsPicked;
    NearestOnce(env, nodes, a, b, c);
    RestIsFarther(env, nodes, a, b, c);
    CloserTransitive(env, nodes[a], nodes[b], nodes[c]);
    CloserTotal(env, nodes[a], nodes[b]);
    CloserTotal(env, nodes[b], nodes[c]);
    CloserTotal(env, nodes[a], nodes[c]);
    if b < a {
      FirstSlotIs(env, nodes, b, a);
      Displaced(env, nodes, b, a, 0);
    } else if c < a {
      FirstSlotIs(env, nodes, c, a);
      Displaced(env, nodes, c, a, 0);
    } else {
      TwoSlots(env, nodes, a, c, b, b);
      Holds(env, nodes[a], nodes[b]);
      Displaced(env, nodes, c, b, 1);
    }
  }

  /** The three closest candidates are picked exactly when the response lists them closest first. */
  lemma ThreeClosestIff(env: Env, nodes: seq<Contact>, a: nat, b: nat, c: nat)
    requires Nearest(env, nodes, a, b, c)
    ensures var picks := PickIterate(env, nodes);
            IsPicked(picks, nodes[a]) && IsPicked(picks, nodes[b]) && IsPicked(picks, nodes[c]) <==> a < b < c
  {
    hide Closer, PickIterate;
    if a < b < c {
      PicksFirst(env, nodes);
      RestIsFarther(env, nodes, a, b, c);
      TwoSlots(env, nodes, a, b, |nodes|, |nodes|);
      ThirdSlot(env, nodes, a, b, c, |nodes|);
    } else {
      OutOfOrderIsLost(env, nodes, a, b, c);
    }
  }

  function LastByte(b: bv8): ShaHash {
    ZeroId()[SHA_HASH_LEN - 1 := b]
  }

  lemma LastByteOrder(env: Env, x: bv8, y: bv8)
    requires env.target == ZeroId() && x < y
    ensures Closer(env, Contact(LastByte(x), 0), Contact(LastByte(y), 0))
  {
    LessAt(Xor(env.target, LastByte(x)), Xor(env.target, LastByte(y)), 0, SHA_HASH_LEN - 1);
  }

  /** Three candidates, all of them among the three closest; the middle one, listed first, is not picked. */
  lemma ThreeClosestExample(env: Env)
    requires env.target == ZeroId()
    ensures var near, mid, far := Contact(LastByte(1), 0), Contact(LastByte(2), 0), Contact(LastByte(3), 0);
            !IsPicked(PickIterate(env, [mid, near, far]), mid)
  {
    hide Closer, PickIterate, IsPicked, LastByte;
    var near, mid, far := Contact(LastByte(1), 0), Contact(LastByte(2), 0), Contact(LastByte(3), 0);
    LastByteOrder(env, 1, 2);
    LastByteOrder(env, 2, 3);
    var nodes := [mid, near, far];
    NearestOnce(env, nodes, 1, 0, 2);
    FirstSlotIs(env, nodes, 0, 1);
    Displaced(env, nodes, 0, 1, 0);
  }
}
