/** What one event does to a lookup, and where the tokens it announces with come from. */
module LookupRuns {
  import opened Wrappers
  import opened Bytes
  import opened Sha
  import opened Lookup
  import opened LookupProofs
  import opened LookupPicks

  // ----- Rounds of requests

  predicate SameNodes(a: seq<Entry>, b: seq<Entry>) {
    |a| == |b| && forall i :: 0 <= i < |a| ==> a[i].node == b[i].node && a[i].dist == b[i].dist
  }

  /** The id was drawn between two counts. */
  ghost predicate DrawnIn(env: Env, lo: nat, hi: nat, id: TransactionID) {
    exists k :: lo <= k < hi && env.ids(k) == id
  }

  /** Requests under ids not drawn in between are the same. */
  ghost predicate SameRequests(env: Env, before: map<TransactionID, ShaHash>, lo: nat, hi: nat, after: map<TransactionID, ShaHash>) {
    forall id :: !DrawnIn(env, lo, hi, id) ==> (id in after <==> id in before) && (id in before ==> after[id] == before[id])
  }

  /** Between `s` and `t` requests were made and nothing else happened; `ok` if all their sends succeeded. */
  ghost predicate Asks(env: Env, s: State, t: State, ok: bool) {
    && s.drawn <= t.drawn && s.sent <= t.sent && (ok <==> SendsAll(env, s.sent, t.sent - s.sent))
    && SameRequests(env, s.active, s.drawn, t.drawn, t.active)
    && t.tokens == s.tokens && t.recvValues == s.recvValues && SameNodes(s.sorted, t.sorted)
  }

  lemma AsksNothing(env: Env, s: State)
    ensures Asks(env, s, s, true)
  {}

  lemma AsksThen(env: Env, s: State, t: State, u: State, ok: bool)
    requires Asks(env, s, t, true) && Asks(env, t, u, ok)
    ensures Asks(env, s, u, ok)
  {
    forall id | !DrawnIn(env, s.drawn, u.drawn, id)
      ensures (id in u.active <==> id in s.active) && (id in s.active ==> u.active[id] == s.active[id])
    {
      assert !DrawnIn(env, s.drawn, t.drawn, id) && !DrawnIn(env, t.drawn, u.drawn, id);
    }
    if ok {
      assert forall k :: s.sent <= k < u.sent ==> env.sends(k);
    }
  }

  /** One more request under the next id. */
  lemma AsksOne(env: Env, s: State, r: Request, requested: set<Contact>)
    ensures Asks(env, s, Asking(env, s, r).(requested := requested), env.sends(s.sent))
  {
    assert SendsAll(env, s.sent, 1) <==> env.sends(s.sent);
    assert DrawnIn(env, s.drawn, s.drawn + 1, env.ids(s.drawn));
  }

  /** The node is the target of a request whose send, like all before it, succeeded. */
  ghost predicate Reached(env: Env, sent: nat, reqs: seq<Request>, n: Contact) {
    exists k :: 0 <= k < |reqs| && reqs[k].node == n && SendsAll(env, sent, k + 1)
  }

  lemma ReachedNext(env: Env, sent: nat, reqs: seq<Request>, n: Contact)
    requires reqs != []
    ensures Reached(env, sent, reqs, n) <==> env.sends(sent) && (reqs[0].node == n || Reached(env, sent + 1, reqs[1..], n))
  {
    hide SendsAll;
    SendsFirst(env, sent);
    if k :| 0 <= k < |reqs| && reqs[k].node == n && SendsAll(env, sent, k + 1) {
      SendsOneMore(env, sent, k);
      assert k > 0 ==> reqs[1..][k - 1] == reqs[k];
    }
    if k :| 0 <= k < |reqs[1..]| && reqs[1..][k].node == n && SendsAll(env, sent + 1, k + 1) && env.sends(sent) {
      SendsOneMore(env, sent, k + 1);
      assert reqs[k + 1].node == n;
    }
    if env.sends(sent) && reqs[0].node == n {
      SendsOneMore(env, sent, 0);
    }
  }

  lemma SendsFirst(env: Env, sent: nat)
    ensures SendsAll(env, sent, 0) && SendsAll(env, sent + 1, 0)
  {}

  /** A round of requests, up to the first whose send fails: those reached before are now among the requested nodes. */
  lemma {:induction false} RequestsAre(env: Env, s: State, reqs: seq<Request>)
    ensures var (t, ok) := Requests(env, s, reqs);
            && Asks(env, s, t, ok) && t.inEndgame == s.inEndgame && t.sorted == s.sorted
            && (forall n :: n in t.requested <==> n in s.requested || Reached(env, s.sent, reqs, n))
            && (reqs != [] ==> t.active != map[])
            && (ok <==> SendsAll(env, s.sent, |reqs|))
    decreases |reqs|
  {
    hide Asks, Reached, SendsAll;
    if reqs == [] {
      AsksNothing(env, s);
      SendsFirst(env, s.sent);
      NobodyReached(env, s.sent);
    } else {
      var r := reqs[0];
      var next := Asking(env, s, r).(requested := s.requested + {r.node});
      SendsOneMore(env, s.sent, |reqs| - 1);
      AsksOne(env, s, r, s.requested);
      AsksOne(env, s, r, next.requested);
      forall n ensures Reached(env, s.sent, reqs, n) <==> env.sends(s.sent) && (r.node == n || Reached(env, s.sent + 1, reqs[1..], n)) {
        ReachedNext(env, s.sent, reqs, n);
      }
      assert env.ids(s.drawn) in next.active;
      if env.sends(s.sent) {
        RequestsAre(env, next, reqs[1..]);
        AsksThen(env, s, next, Requests(env, s, reqs).0, Requests(env, s, reqs).1);
      }
    }
  }

  lemma NobodyReached(env: Env, sent: nat)
    ensures forall n :: !Reached(env, sent, [], n)
  {}

  /** With fresh ids each request that was tried is outstanding under its own id, at its own distance. */
  lemma {:induction false} RequestsRegister(env: Env, s: State, reqs: seq<Request>, k: nat)
    requires FreshIds(env, s.drawn, |reqs|) && k < |reqs| && (k == 0 || SendsAll(env, s.sent, k))
    ensures var t := Requests(env, s, reqs).0;
            env.ids(s.drawn + k) in t.active && t.active[env.ids(s.drawn + k)] == reqs[k].dist
    decreases |reqs|
  {
    hide SendsAll;
    var next := Asking(env, s, reqs[0]).(requested := s.requested + {reqs[0].node});
    if env.sends(s.sent) {
      if k == 0 {
        RequestsElsewhere(env, next, reqs[1..], env.ids(s.drawn));
      } else {
        SendsOneMore(env, s.sent, k - 1);
        RequestsRegister(env, next, reqs[1..], k - 1);
      }
    } else if k > 0 {
      SendsOneMore(env, s.sent, k - 1);
    }
  }

  lemma {:induction false} RequestsElsewhere(env: Env, s: State, reqs: seq<Request>, id: TransactionID)
    requires forall k :: s.drawn <= k < s.drawn + |reqs| ==> env.ids(k) != id
    ensures id in Requests(env, s, reqs).0.active <==> id in s.active
    ensures id in s.active ==> Requests(env, s, reqs).0.active[id] == s.active[id]
    decreases |reqs|
  {
    if reqs != [] && env.sends(s.sent) {
      RequestsElsewhere(env, Asking(env, s, reqs[0]).(requested := s.requested + {reqs[0].node}), reqs[1..], id);
    }
  }

  // ----- The endgame

  lemma {:induction false} RegisterAsks(env: Env, s: State, i: nat)
    ensures var t := RegisterEndgame(env, s, i);
            && Asks(env, s, t, true) && t.requested == s.requested && t.inEndgame == s.inEndgame
            && t.sorted == s.sorted && t.sent == s.sent
    decreases |s.sorted| - i
  {
    hide Asks;
    AsksNothing(env, s);
    if i < |s.sorted| {
      if s.sorted[i].pinged {
        RegisterAsks(env, s, i + 1);
      } else {
        var next := s.(drawn := s.drawn + 1, active := s.active[env.ids(s.drawn) := s.sorted[i].dist]);
        RegisterOne(env, s, s.sorted[i].dist);
        RegisterAsks(env, next, i + 1);
        AsksThen(env, s, next, RegisterEndgame(env, s, i), true);
      }
    }
  }

  lemma RegisterOne(env: Env, s: State, dist: ShaHash)
    ensures Asks(env, s, s.(drawn := s.drawn + 1, active := s.active[env.ids(s.drawn) := dist]), true)
  {
    assert DrawnIn(env, s.drawn, s.drawn + 1, env.ids(s.drawn));
  }

  lemma SendOne(env: Env, s: State, es: seq<Entry>)
    requires SameNodes(s.sorted, es)
    ensures Asks(env, s, s.(sent := s.sent + 1, sorted := es), env.sends(s.sent))
  {
    assert SendsAll(env, s.sent, 1) <==> env.sends(s.sent);
  }

  lemma {:induction false} SendAsks(env: Env, s: State, i: nat)
    ensures var (t, ok) := SendEndgame(env, s, i);
            Asks(env, s, t, ok) && t.requested == s.requested && t.inEndgame == s.inEndgame
    decreases |s.sorted| - i
  {
    hide Asks;
    AsksNothing(env, s);
    if i < |s.sorted| {
      if s.sorted[i].pinged {
        SendAsks(env, s, i + 1);
      } else {
        var next := s.(sent := s.sent + 1, sorted := s.sorted[i := s.sorted[i].(pinged := true)]);
        SendOne(env, s, next.sorted);
        SendOne(env, s, s.sorted);
        if env.sends(s.sent) {
          SendAsks(env, next, i + 1);
          AsksThen(env, s, next, SendEndgame(env, s, i).0, SendEndgame(env, s, i).1);
        }
      }
    }
  }

  /** An idle lookup enters the endgame; no lookup is idle afterwards. */
  lemma IdleAsks(env: Env, s: State)
    ensures var (t, status) := EndgameIfIdle(env, s);
            && Asks(env, s, t, status != Failed) && t.requested == s.requested && (status == Searching || status == Failed)
            && (t.inEndgame <==> s.inEndgame || s.active == map[]) && (!t.inEndgame ==> t == s)
            && (t.inEndgame || t.active != map[])
  {
    hide Asks, RegisterEndgame, SendEndgame;
    AsksNothing(env, s);
    if !s.inEndgame && s.active == map[] {
      var s1 := s.(inEndgame := true);
      var s2 := RegisterEndgame(env, s1, 0);
      EnteringAsks(env, s);
      RegisterAsks(env, s1, 0);
      SendAsks(env, s2, 0);
      AsksThen(env, s, s1, s1, true);
      AsksThen(env, s, s1, s2, true);
      AsksThen(env, s, s2, SendEndgame(env, s2, 0).0, SendEndgame(env, s2, 0).1);
    }
  }

  lemma EnteringAsks(env: Env, s: State)
    ensures var s1 := s.(inEndgame := true); Asks(env, s, s1, true) && Asks(env, s1, s1, true)
  {}

  // ----- One response

  /** The nodes a response makes the lookup ask. */
  function RoundNodes(env: Env, s: State, picks: Option<seq<Pick>>): seq<Contact> {
    if s.inEndgame || picks.None? then [] else UsedNodes(picks.value)
  }

  lemma AfterMergeAsks(env: Env, s: State, dist: ShaHash, picks: Option<seq<Pick>>)
    requires picks.Some? ==> UsedNodes(picks.value) != []
    ensures var (t, status) := AfterMerge(env, s, dist, picks);
            && Asks(env, s, t, status != Failed) && (status == Searching || status == Failed)
            && (forall n :: n in t.requested <==>
                  n in s.requested || Reached(env, s.sent, RequestAll(RoundNodes(env, s, picks), dist), n))
            && (t.inEndgame || t.active != map[]) && (s.inEndgame ==> t.inEndgame)
            && (t.inEndgame == s.inEndgame ==> t.sorted == s.sorted)
  {
    hide Asks, Reached, Requests, EndgameIfIdle, UsedNodes;
    AsksNothing(env, s);
    NobodyReached(env, s.sent);
    if !s.inEndgame {
      if picks.Some? {
        var reqs := RequestAll(UsedNodes(picks.value), dist);
        var (u, ok) := Requests(env, s, reqs);
        RequestsAre(env, s, reqs);
        IdleAsks(env, u);
        if ok {
          AsksThen(env, s, u, EndgameIfIdle(env, u).0, EndgameIfIdle(env, u).1 != Failed);
        }
      } else {
        IdleAsks(env, s);
      }
    }
  }

  predicate Known(es: seq<Entry>, n: Contact) {
    exists i :: 0 <= i < |es| && es[i].node == n
  }

  /** The entries afterwards are those before and some of the merged ones, of which every node is there. */
  lemma {:induction false} MergedAre(before: seq<Entry>, es: seq<Entry>, after: seq<Entry>, e: Entry)
    requires InsertedAll(before, es, after)
    ensures e in before ==> e in after
    ensures e in after ==> e in before || e in es
    ensures e in es ==> Known(after, e.node)
    decreases |es|
  {
    hide SearchAnswer;
    if es != [] {
      var i: nat :| i <= |before| && SearchAnswer(before, es[0].dist, i) && InsertedAll(InsertAt(before, es[0], i), es[1..], after) by {
        SearchInRange(before, es, after);
      }
      var next := InsertAt(before, es[0], i);
      MergedAre(next, es[1..], after, e);
      InsertedIn(before, es[0], i, e);
      if e == es[0] {
        var x :| x in next && x.node == e.node;
        MergedAre(next, es[1..], after, x);
        var k :| 0 <= k < |after| && after[k] == x;
      }
    }
  }

  lemma SearchInRange(before: seq<Entry>, es: seq<Entry>, after: seq<Entry>)
    requires es != [] && InsertedAll(before, es, after)
    ensures exists i: nat :: i <= |before| && SearchAnswer(before, es[0].dist, i)
                              && InsertedAll(InsertAt(before, es[0], i), es[1..], after)
  {}

  lemma InsertedIn(es: seq<Entry>, e: Entry, i: nat, x: Entry)
    requires i <= |es|
    ensures x in es ==> x in InsertAt(es, e, i)
    ensures x in InsertAt(es, e, i) ==> x in es || x == e
    ensures exists y :: y in InsertAt(es, e, i) && y.node == e.node
  {
    var r := InsertAt(es, e, i);
    assert es == es[..i] + es[i..];
    assert r[i] in r;
  }

  lemma SameKnown(a: seq<Entry>, b: seq<Entry>, n: Contact)
    requires SameNodes(a, b)
    ensures Known(a, n) <==> Known(b, n)
  {}

  function ListedNodes(info: Info): seq<Contact> {
    match info case Nodes(n) => n case Values(_) => [] case Both(n, _) => n
  }

  predicate IsPick(picks: Option<seq<Pick>>, n: Contact) {
    picks.Some? && exists k :: 0 <= k < |picks.value| && picks.value[k].node == n
  }

  lemma MergingAre(env: Env, s: State, dist: ShaHash, info: Info, n: Contact)
    ensures (exists e :: e in Merging(env, s, dist, info) && e.node == n) <==> n in ListedNodes(info)
    ensures forall e :: e in Merging(env, s, dist, info) ==> (e.pinged <==> IsPick(NextPicks(env, s, dist, info), e.node))
  {
    hide NextPicks, Distance;
    var es, nodes := Merging(env, s, dist, info), ListedNodes(info);
    assert |es| == |nodes| && forall i :: 0 <= i < |nodes| ==> es[i].node == nodes[i];
    if n in nodes {
      var i :| 0 <= i < |nodes| && nodes[i] == n;
      assert es[i] in es;
    }
  }

  /** Each listed node is known afterwards, beside those known before, and no other. */
  lemma MergeKnows(env: Env, s: State, dist: ShaHash, info: Info, before: seq<Entry>, after: seq<Entry>, n: Contact)
    requires InsertedAll(before, Merging(env, s, dist, info), after)
    ensures Known(after, n) <==> Known(before, n) || n in ListedNodes(info)
  {
    hide InsertedAll, Merging, Known;
    var es := Merging(env, s, dist, info);
    MergingAre(env, s, dist, info, n);
    KnownIs(after, n);
    KnownIs(before, n);
    if e :| e in after && e.node == n {
      MergedAre(before, es, after, e);
    }
    if e :| e in before && e.node == n {
      MergedAre(before, es, after, e);
    }
    if e :| e in es && e.node == n {
      MergedAre(before, es, after, e);
    }
  }

  lemma KnownIs(es: seq<Entry>, n: Contact)
    ensures Known(es, n) <==> exists e :: e in es && e.node == n
  {
    if i :| 0 <= i < |es| && es[i].node == n {
      assert es[i] in es;
    }
  }

  /** What a response to an outstanding request answers when every send succeeds. */
  function Reply(info: Info): LookupStatus {
    match info case Nodes(_) => Searching case Values(v) => ValuesFound(v) case Both(_, v) => ValuesFound(v)
  }

  /**
   * One response to an outstanding request. Its token replaces that of the node, values alone are remembered, and its
   * nodes become known. The picked nodes that are reached become requested ones. The request is no longer outstanding
   * and the others are. The answer is the values or that the search goes on, unless a send failed, and never that the
   * lookup is complete: with nothing outstanding the endgame has begun.
   */
  lemma ResponseDoes(env: Env, s: State, node: Contact, tid: TransactionID, msg: Response, t: State, status: LookupStatus)
    requires tid in s.active && ResponseStep(env, s, node, tid, msg, t, status)
    ensures t.tokens == if msg.token.Some? then s.tokens[node := msg.token.value] else s.tokens
    ensures t.recvValues <==> s.recvValues || msg.info.Values?
    ensures forall n :: Known(t.sorted, n) <==> Known(s.sorted, n) || n in ListedNodes(msg.info)
    ensures var picks, dist := NextPicks(env, s, s.active[tid], msg.info), NextDistance(env, s, s.active[tid], msg.info);
            forall n :: n in t.requested <==>
              n in s.requested || Reached(env, s.sent, RequestAll(RoundNodes(env, s, picks), dist), n)
    ensures s.drawn <= t.drawn && SameRequests(env, s.active - {tid}, s.drawn, t.drawn, t.active)
    ensures s.sent <= t.sent && status == if SendsAll(env, s.sent, t.sent - s.sent) then Reply(msg.info) else Failed
    ensures t.inEndgame || t.active != map[]
  {
    hide InsertedAll, Merging, NextDistance, NextPicks, AfterMerge, SameRequests, SendsAll, Reached, RequestAll, UsedNodes;
    var dist, s1, info := s.active[tid], Accepted(s, node, tid, msg), msg.info;
    var d, picks := NextDistance(env, s1, dist, info), NextPicks(env, s1, dist, info);
    var merged, st :| InsertedAll(s.sorted, Merging(env, s1, dist, info), merged) &&
      (t, st) == AfterMerge(env, s1.(sorted := merged), d, picks) && status == Answer(t, st, info);
    SameRequested(env, s, s1, dist, info);
    if picks.Some? {
      RoundAsksClosest(env, s1, dist, info);
    }
    AfterMergeAsks(env, s1.(sorted := merged), d, picks);
    forall n ensures Known(t.sorted, n) <==> Known(s.sorted, n) || n in ListedNodes(info) {
      MergeKnows(env, s1, dist, info, s.sorted, merged, n);
      SameKnown(merged, t.sorted, n);
    }
  }

  /** The round depends only on the nodes requested before. */
  lemma SameRequested(env: Env, s: State, t: State, dist: ShaHash, info: Info)
    requires s.requested == t.requested
    ensures NextDistance(env, s, dist, info) == NextDistance(env, t, dist, info)
    ensures NextPicks(env, s, dist, info) == NextPicks(env, t, dist, info)
  {
    hide Closest, PickIterate, Less;
    if NodesOf(info).Some? {
      SameCandidates(s, t, NodesOf(info).value);
    }
  }

  lemma {:induction false} SameCandidates(s: State, t: State, nodes: seq<Contact>)
    requires s.requested == t.requested
    ensures NotRequested(s, nodes) == NotRequested(t, nodes)
  {
    if nodes != [] {
      SameCandidates(s, t, nodes[1..]);
    }
  }

  /** An entry for a node that was not known is marked asked if and only if the node was picked, unless the endgame began. */
  lemma ResponseMarks(env: Env, s: State, node: Contact, tid: TransactionID, msg: Response, t: State, status: LookupStatus, e: Entry)
    requires tid in s.active && ResponseStep(env, s, node, tid, msg, t, status)
    requires t.inEndgame == s.inEndgame && e in t.sorted && !Known(s.sorted, e.node)
    ensures e.pinged <==> IsPick(NextPicks(env, s, s.active[tid], msg.info), e.node)
  {
    hide InsertedAll, Merging, NextDistance, NextPicks, AfterMerge, Known, IsPick, UsedNodes;
    var dist, s1, info := s.active[tid], Accepted(s, node, tid, msg), msg.info;
    var d, picks := NextDistance(env, s1, dist, info), NextPicks(env, s1, dist, info);
    var merged, st :| InsertedAll(s.sorted, Merging(env, s1, dist, info), merged) &&
      (t, st) == AfterMerge(env, s1.(sorted := merged), d, picks);
    SameRequested(env, s, s1, dist, info);
    if picks.Some? {
      RoundAsksClosest(env, s1, dist, info);
    }
    AfterMergeAsks(env, s1.(sorted := merged), d, picks);
    MergedAre(s.sorted, Merging(env, s1, dist, info), merged, e);
    KnownIs(s.sorted, e.node);
    MergingAre(env, s1, dist, info, e.node);
  }

  /** A timeout ends its request and, with nothing else outstanding, begins the endgame. */
  lemma TimeoutDoes(env: Env, s: State, tid: TransactionID)
    requires tid in s.active
    ensures var (t, status) := TimeoutResult(env, s, tid);
            && t.tokens == s.tokens && t.recvValues == s.recvValues && t.requested == s.requested
            && SameNodes(s.sorted, t.sorted)
            && s.drawn <= t.drawn && SameRequests(env, s.active - {tid}, s.drawn, t.drawn, t.active)
            && s.sent <= t.sent && status == (if SendsAll(env, s.sent, t.sent - s.sent) then Searching else Failed)
            && (t.inEndgame <==> s.inEndgame || s.active.Keys == {tid}) && (t.inEndgame || t.active != map[])
  {
    hide EndgameIfIdle, SameRequests, SendsAll;
    IdleAsks(env, s.(active := s.active - {tid}));
    assert (s.active - {tid}).Keys == s.active.Keys - {tid};
    assert s.active.Keys == {tid} <==> s.active.Keys - {tid} == {};
  }

  // ----- The first round

  lemma {:induction false} MarkedAre(es: seq<Entry>, i: nat, j: nat)
    requires i <= |es| && i <= INITIAL_PICK_NUM && j < |es|
    ensures MarkInitial(es, i)[j] == if i <= j < INITIAL_PICK_NUM then es[j].(pinged := true) else es[j]
    decreases |es| - i
  {
    if i < |es| && i < INITIAL_PICK_NUM {
      MarkedAre(es[i := es[i].(pinged := true)], i + 1, j);
    }
  }

  /**
   * A lookup starts by knowing exactly the given nodes. The first four of them, closest first, are marked asked, and
   * those reached are requested. It fails if a send does, and is complete at once only without nodes.
   */
  lemma StartDoes(env: Env, closest: seq<Contact>, t: State, status: LookupStatus)
    requires StartStep(env, closest, t, status)
    ensures forall n :: Known(t.sorted, n) <==> n in closest
    ensures forall j :: 0 <= j < |t.sorted| ==> (t.sorted[j].pinged <==> j < INITIAL_PICK_NUM)
    ensures forall n :: n in t.requested <==> Reached(env, 0, InitialRequests(env, t.sorted), n)
    ensures |t.sorted| == 0 <==> closest == []
    ensures status == if closest == [] then Completed
                      else if SendsAll(env, 0, |InitialRequests(env, t.sorted)|) then Searching else Failed
    ensures t.tokens == map[] && !t.recvValues && !t.inEndgame && (closest != [] ==> t.active != map[])
  {
    hide InsertedAll, Requests, Reached, SendsAll, InitialRequests, Distance;
    var merged: seq<Entry> :| InsertedAll([], EntriesFor(env, closest, []), merged) &&
      (t, status) == RequestRound(env, Fresh().(sorted := MarkInitial(merged, 0)), InitialRequests(env, merged));
    var start: State, reqs := Fresh().(sorted := MarkInitial(merged, 0)), InitialRequests(env, merged);
    RequestsAre(env, start, reqs);
    SendsFirst(env, 0);
    forall j | 0 <= j < |merged| ensures start.sorted[j] == if j < INITIAL_PICK_NUM then merged[j].(pinged := true) else merged[j] {
      MarkedAre(merged, 0, j);
    }
    SameInitial(env, merged, start.sorted);
    StartMerge(env, closest, merged);
    forall n ensures Known(start.sorted, n) <==> n in closest {
      SameKnown(merged, start.sorted, n);
    }
  }

  lemma XorCommutes(a: ShaHash, b: ShaHash)
    ensures Xor(a, b) == Xor(b, a)
  {
    assert forall i :: 0 <= i < SHA_HASH_LEN ==> Xor(a, b)[i] == Xor(b, a)[i];
  }

  /** With fresh ids, the request to each of the first nodes that was tried is outstanding at the node's distance. */
  lemma StartRegisters(env: Env, closest: seq<Contact>, t: State, status: LookupStatus, k: nat)
    requires StartStep(env, closest, t, status) && FreshIds(env, 0, INITIAL_PICK_NUM)
    requires k < |t.sorted| && k < INITIAL_PICK_NUM && (k == 0 || SendsAll(env, 0, k))
    ensures env.ids(k) in t.active && t.active[env.ids(k)] == t.sorted[k].dist
  {
    hide InsertedAll, Requests, SendsAll, Ordered, Xor;
    StartIsOrdered(env, closest, t, status);
    OrderedAt(env, t.sorted, k);
    var merged: seq<Entry> :| InsertedAll([], EntriesFor(env, closest, []), merged) &&
      (t, status) == RequestRound(env, Fresh().(sorted := MarkInitial(merged, 0)), InitialRequests(env, merged));
    var start: State, reqs := Fresh().(sorted := MarkInitial(merged, 0)), InitialRequests(env, merged);
    RequestsAre(env, start, reqs);
    MarkedAre(merged, 0, k);
    XorCommutes(merged[k].node.id, env.target);
    RequestsRegister(env, start, reqs, k);
  }

  lemma OrderedAt(env: Env, es: seq<Entry>, k: nat)
    requires Ordered(env, es) && k < |es|
    ensures es[k].dist == Distance(env, es[k].node)
  {}

  lemma SameInitial(env: Env, a: seq<Entry>, b: seq<Entry>)
    requires SameNodes(a, b)
    ensures InitialRequests(env, a) == InitialRequests(env, b) && (InitialRequests(env, a) == [] <==> a == [])
  {}

  lemma StartMerge(env: Env, closest: seq<Contact>, merged: seq<Entry>)
    requires InsertedAll([], EntriesFor(env, closest, []), merged)
    ensures forall n :: Known(merged, n) <==> n in closest
    ensures forall e :: e in merged ==> !e.pinged
    ensures merged == [] <==> closest == []
  {
    hide InsertedAll, Distance;
    var es := EntriesFor(env, closest, []);
    forall e ensures (e in merged ==> e in es) && (e in es ==> Known(merged, e.node)) {
      MergedAre([], es, merged, e);
    }
    forall n | n in closest ensures Known(merged, n) {
      var i :| 0 <= i < |closest| && closest[i] == n;
      assert es[i] in es;
    }
    assert forall e :: e in merged ==> e.node in closest;
    if closest != [] {
      assert Known(merged, closest[0]);
    }
    if merged != [] {
      assert merged[0] in merged;
    }
  }

  // ----- Where the tokens come from

  /** An event, or the end of the lookup. */
  ghost predicate Happens(env: Env, s: State, ev: Option<Event>, t: State) {
    match ev case None => FinishStep(s, t) case Some(e) => Step(env, s, e, t)
  }

  ghost predicate IsLookup(env: Env, closest: seq<Contact>, run: seq<State>, events: seq<Option<Event>>) {
    && |run| == |events| + 1
    && (exists status :: StartStep(env, closest, run[0], status))
    && forall k :: 0 <= k < |events| ==> Happens(env, run[k], events[k], run[k + 1])
  }

  /** Event k is a response of the node to an outstanding request, with a token. */
  predicate Gives(run: seq<State>, events: seq<Option<Event>>, k: nat, node: Contact) {
    && k < |run| && k < |events| && events[k].Some? && events[k].value.OnResponse?
    && events[k].value.node == node && events[k].value.tid in run[k].active && events[k].value.msg.token.Some?
  }

  predicate GivesToken(run: seq<State>, events: seq<Option<Event>>, k: nat, node: Contact, token: seq<Byte>) {
    Gives(run, events, k, node) && events[k].value.msg.token.value == token
  }

  /** The token is that of the last such response before event `i`. */
  ghost predicate LastToken(run: seq<State>, events: seq<Option<Event>>, i: nat, node: Contact, token: seq<Byte>) {
    exists k :: 0 <= k < i && GivesToken(run, events, k, node, token) && forall j :: k < j < i ==> !Gives(run, events, j, node)
  }

  lemma StepTokens(env: Env, run: seq<State>, events: seq<Option<Event>>, i: nat, node: Contact)
    requires i < |events| < |run| && Happens(env, run[i], events[i], run[i + 1])
    ensures if Gives(run, events, i, node)
            then node in run[i + 1].tokens && run[i + 1].tokens[node] == events[i].value.msg.token.value
            else (node in run[i + 1].tokens <==> node in run[i].tokens) &&
                 (node in run[i].tokens ==> run[i + 1].tokens[node] == run[i].tokens[node])
  {
    hide ResponseStep, TimeoutResult;
    var s, t := run[i], run[i + 1];
    match events[i]
    case None =>
    case Some(OnResponse(n, tid, msg)) =>
      var status :| ResponseStep(env, s, n, tid, msg, t, status);
      if tid in s.active {
        ResponseDoes(env, s, n, tid, msg, t, status);
      } else {
        RejectedStays(env, s, OnResponse(n, tid, msg), t);
      }
    case Some(OnTimeout(tid)) =>
      if tid in s.active {
        TimeoutDoes(env, s, tid);
      } else {
        RejectedStays(env, s, OnTimeout(tid), t);
      }
  }

  /** In every run a node has a token exactly if an accepted response of it carried one, and then the last of these. */
  lemma {:induction false} TokensAreLast(env: Env, closest: seq<Contact>, run: seq<State>, events: seq<Option<Event>>, i: nat, node: Contact)
    requires IsLookup(env, closest, run, events) && i < |run|
    ensures node in run[i].tokens <==> exists k :: 0 <= k < i && Gives(run, events, k, node)
    ensures node in run[i].tokens ==> LastToken(run, events, i, node, run[i].tokens[node])
  {
    hide Happens, StartStep, Gives;
    if i == 0 {
      var status :| StartStep(env, closest, run[0], status);
      StartDoes(env, closest, run[0], status);
    } else {
      TokensAreLast(env, closest, run, events, i - 1, node);
      assert Happens(env, run[i - 1], events[i - 1], run[i - 1 + 1]);
      StepTokens(env, run, events, i - 1, node);
      if Gives(run, events, i - 1, node) {
        assert GivesToken(run, events, i - 1, node, run[i].tokens[node]);
      } else if node in run[i].tokens {
        var k :| 0 <= k < i - 1 && GivesToken(run, events, k, node, run[i].tokens[node])
                 && forall j :: k < j < i - 1 ==> !Gives(run, events, j, node);
        assert forall j :: k < j < i ==> !Gives(run, events, j, node);
      }
    }
  }

  lemma RunIsOrdered(env: Env, closest: seq<Contact>, run: seq<State>, events: seq<Option<Event>>, i: nat)
    requires IsLookup(env, closest, run, events) && i < |run|
    ensures Ordered(env, run[i].sorted)
  {
    hide StartStep, Step, Ordered;
    var status :| StartStep(env, closest, run[0], status);
    forall k | 0 <= k < |run| - 1 ensures AnyStep(env, run[k], run[k + 1]) {
      assert Happens(env, run[k], events[k], run[k + 1]);
      if events[k].Some? {
        assert Step(env, run[k], events[k].value, run[k + 1]);
      }
    }
    RunsStayOrdered(env, closest, run, status, i);
  }

  /**
   * The announces of a lookup that finishes in any state of any run: at most eight, each with the token of the last
   * token-bearing response accepted from its node; and a known node that gave a token is left out only when eight nodes
   * at least as close are announced to.
   */
  lemma FinishAnnounces(env: Env, closest: seq<Contact>, run: seq<State>, events: seq<Option<Event>>, i: nat)
    requires IsLookup(env, closest, run, events) && i < |run|
    ensures var picks := AnnouncePicks(run[i], 0, ANNOUNCE_PICK_NUM);
            && |picks| <= ANNOUNCE_PICK_NUM
            && (forall p :: p in picks ==> Known(run[i].sorted, p.0) && LastToken(run, events, i, p.0, p.1))
            && (forall n, k :: Known(run[i].sorted, n) && 0 <= k < i && Gives(run, events, k, n)
                               && (forall p :: p in picks ==> p.0 != n) ==>
                  |picks| == ANNOUNCE_PICK_NUM && forall p :: p in picks ==> !Less(Distance(env, n), Distance(env, p.0)))
  {
    hide IsLookup, AnnouncePicks, Less, Distance, Gives, LastToken;
    var s, picks := run[i], AnnouncePicks(run[i], 0, ANNOUNCE_PICK_NUM);
    RunIsOrdered(env, closest, run, events, i);
    AnnouncesClosest(env, s);
    forall p | p in picks ensures Known(s.sorted, p.0) && LastToken(run, events, i, p.0, p.1) {
      TokensAreLast(env, closest, run, events, i, p.0);
      KnownIs(s.sorted, p.0);
    }
    forall n, k | Known(s.sorted, n) && 0 <= k < i && Gives(run, events, k, n) && (forall p :: p in picks ==> p.0 != n)
      ensures |picks| == ANNOUNCE_PICK_NUM && forall p :: p in picks ==> !Less(Distance(env, n), Distance(env, p.0))
    {
      TokensAreLast(env, closest, run, events, i, n);
      KnownIs(s.sorted, n);
      var e :| e in s.sorted && e.node == n;
    }
  }

  // ----- No node is listed twice

  predicate StrictlySorted(es: seq<Entry>) {
    forall i, j :: 0 <= i < j < |es| ==> Less(es[i].dist, es[j].dist)
  }

  lemma InsertStaysStrict(es: seq<Entry>, e: Entry, i: nat)
    requires StrictlySorted(es) && SearchAnswer(es, e.dist, i) && forall x :: x in es && x.dist == e.dist ==> x.node == e.node
    ensures StrictlySorted(InsertAt(es, e, i))
  {
    hide Less;
  }

  /** Among the entries and those merged into them, equal distances belong to the same node. */
  ghost predicate OneNodePerDist(before: seq<Entry>, es: seq<Entry>) {
    forall x, y :: (x in before || x in es) && y in es && x.dist == y.dist ==> x.node == y.node
  }

  lemma {:induction false} MergeStaysStrict(before: seq<Entry>, es: seq<Entry>, after: seq<Entry>)
    requires StrictlySorted(before) && InsertedAll(before, es, after) && OneNodePerDist(before, es)
    ensures StrictlySorted(after)
    decreases |es|
  {
    hide SearchAnswer, StrictlySorted, InsertAt;
    if es != [] {
      var i: nat :| i <= |before| && SearchAnswer(before, es[0].dist, i) && InsertedAll(InsertAt(before, es[0], i), es[1..], after) by {
        SearchInRange(before, es, after);
      }
      var next := InsertAt(before, es[0], i);
      InsertStaysStrict(before, es[0], i);
      forall x, y | (x in next || x in es[1..]) && y in es[1..] && x.dist == y.dist ensures x.node == y.node {
        InsertedIn(before, es[0], i, x);
      }
      MergeStaysStrict(next, es[1..], after);
    }
  }

  /** The lookup was given the node at the start or in one of the responses. */
  ghost predicate Heard(closest: seq<Contact>, events: seq<Option<Event>>, n: Contact) {
    n in closest ||
    exists k :: 0 <= k < |events| && events[k].Some? && events[k].value.OnResponse? && n in ListedNodes(events[k].value.msg.info)
  }

  /** No two contacts heard of share an id. */
  ghost predicate UniqueIds(closest: seq<Contact>, events: seq<Option<Event>>) {
    forall m, n :: Heard(closest, events, m) && Heard(closest, events, n) && m.id == n.id ==> m == n
  }

  lemma XorCancels(t: ShaHash, a: ShaHash, b: ShaHash)
    requires Xor(t, a) == Xor(t, b)
    ensures a == b
  {
    hide Xor, CommonPrefix, Bit;
    var n := CommonPrefix(a, b);
    FullPrefixIsEqual(a, b);
    if n < HASH_BITS {
      XorBit(t, a, n);
      XorBit(t, b, n);
    }
  }

  /** Sorted strictly, at true distances, and only of nodes heard of. */
  ghost predicate Tidy(env: Env, closest: seq<Contact>, events: seq<Option<Event>>, es: seq<Entry>) {
    StrictlySorted(es) && Ordered(env, es) && forall e :: e in es ==> Heard(closest, events, e.node)
  }

  lemma MergeStaysTidy(env: Env, closest: seq<Contact>, events: seq<Option<Event>>, before: seq<Entry>, es: seq<Entry>, after: seq<Entry>)
    requires UniqueIds(closest, events) && Tidy(env, closest, events, before) && InsertedAll(before, es, after)
    requires forall e :: e in es ==> Heard(closest, events, e.node) && e.dist == Distance(env, e.node)
    ensures Tidy(env, closest, events, after)
  {
    hide Heard, InsertedAll, Xor, StrictlySorted, Less;
    forall x, y | (x in before || x in es) && y in es && x.dist == y.dist ensures x.node == y.node {
      if x in before {
        var i :| 0 <= i < |before| && before[i] == x;
      }
      XorCancels(env.target, x.node.id, y.node.id);
    }
    MergeStaysStrict(before, es, after);
    MergeKeepsOrder(env, before, es, after);
    forall e | e in after ensures Heard(closest, events, e.node) {
      MergedAre(before, es, after, e);
    }
  }

  lemma SameStaysTidy(env: Env, closest: seq<Contact>, events: seq<Option<Event>>, es: seq<Entry>, fs: seq<Entry>)
    requires Tidy(env, closest, events, es) && SameNodes(es, fs)
    ensures Tidy(env, closest, events, fs)
  {
    hide Heard, Distance, Less;
    forall e | e in fs ensures Heard(closest, events, e.node) {
      var i :| 0 <= i < |fs| && fs[i] == e;
      assert es[i] in es;
    }
  }

  lemma ResponseStaysTidy(env: Env, closest: seq<Contact>, events: seq<Option<Event>>, s: State, ev: Event, t: State, k: nat)
    requires k < |events| && events[k] == Some(ev) && ev.OnResponse? && ev.tid in s.active && Step(env, s, ev, t)
    requires UniqueIds(closest, events) && Tidy(env, closest, events, s.sorted)
    ensures Tidy(env, closest, events, t.sorted)
  {
    hide InsertedAll, Merging, NextDistance, NextPicks, AfterMerge, UsedNodes, Tidy, Distance, UniqueIds;
    var dist, s1, info := s.active[ev.tid], Accepted(s, ev.node, ev.tid, ev.msg), ev.msg.info;
    var d, picks := NextDistance(env, s1, dist, info), NextPicks(env, s1, dist, info);
    var es := Merging(env, s1, dist, info);
    var merged, st :| InsertedAll(s.sorted, es, merged) && (t, st) == AfterMerge(env, s1.(sorted := merged), d, picks);
    if picks.Some? {
      RoundAsksClosest(env, s1, dist, info);
    }
    AfterMergeAsks(env, s1.(sorted := merged), d, picks);
    MergingDistances(env, s1, dist, info);
    forall e | e in es ensures Heard(closest, events, e.node) && e.dist == Distance(env, e.node) {
      MergingAre(env, s1, dist, info, e.node);
      var i :| 0 <= i < |es| && es[i] == e;
    }
    MergeStaysTidy(env, closest, events, s.sorted, es, merged);
    SameStaysTidy(env, closest, events, merged, t.sorted);
  }

  lemma StartIsTidy(env: Env, closest: seq<Contact>, events: seq<Option<Event>>, t: State, status: LookupStatus)
    requires StartStep(env, closest, t, status) && UniqueIds(closest, events)
    ensures Tidy(env, closest, events, t.sorted)
  {
    hide InsertedAll, RequestRound, Tidy, Distance, UniqueIds;
    var merged: seq<Entry> :| InsertedAll([], EntriesFor(env, closest, []), merged) &&
      (t, status) == RequestRound(env, Fresh().(sorted := MarkInitial(merged, 0)), InitialRequests(env, merged));
    var es, marked := EntriesFor(env, closest, []), MarkInitial(merged, 0);
    NoneIsTidy(env, closest, events);
    MergeStaysTidy(env, closest, events, [], es, merged);
    RoundKeepsList(env, Fresh().(sorted := marked), InitialRequests(env, merged));
    forall j | 0 <= j < |merged| ensures marked[j].node == merged[j].node && marked[j].dist == merged[j].dist {
      MarkedAre(merged, 0, j);
    }
    SameStaysTidy(env, closest, events, merged, marked);
  }

  lemma RoundKeepsList(env: Env, s: State, reqs: seq<Request>)
    ensures RequestRound(env, s, reqs).0.sorted == s.sorted
  {
    hide Requests;
    RequestsKeepList(env, s, reqs);
  }

  lemma NoneIsTidy(env: Env, closest: seq<Contact>, events: seq<Option<Event>>)
    ensures Tidy(env, closest, events, [])
  {}

  lemma {:induction false} RunStaysTidy(env: Env, closest: seq<Contact>, run: seq<State>, events: seq<Option<Event>>, i: nat)
    requires IsLookup(env, closest, run, events) && UniqueIds(closest, events) && i < |run|
    ensures Tidy(env, closest, events, run[i].sorted)
  {
    hide Tidy, UniqueIds, StartStep, Step;
    if i == 0 {
      var status :| StartStep(env, closest, run[0], status);
      StartIsTidy(env, closest, events, run[0], status);
    } else {
      RunStaysTidy(env, closest, run, events, i - 1);
      var s, t, ev := run[i - 1], run[i - 1 + 1], events[i - 1];
      assert Happens(env, s, ev, t);
      if ev.Some? {
        if !Accepts(s, ev.value) {
          RejectedStays(env, s, ev.value, t);
        } else if ev.value.OnResponse? {
          ResponseStaysTidy(env, closest, events, s, ev.value, t, i - 1);
        } else {
          TimedOutList(env, s, ev.value, t);
          SameStaysTidy(env, closest, events, s.sorted, t.sorted);
        }
      }
    }
  }

  lemma TimedOutList(env: Env, s: State, ev: Event, t: State)
    requires ev.OnTimeout? && ev.tid in s.active && Step(env, s, ev, t)
    ensures SameNodes(s.sorted, t.sorted)
  {
    hide TimeoutResult;
    TimeoutDoes(env, s, ev.tid);
  }

  /** If no two contacts a lookup hears of share an id, it never lists a node twice. */
  lemma RunNoRepeats(env: Env, closest: seq<Contact>, run: seq<State>, events: seq<Option<Event>>, i: nat, j: nat, k: nat)
    requires IsLookup(env, closest, run, events) && UniqueIds(closest, events) && i < |run| && j < k < |run[i].sorted|
    ensures run[i].sorted[j].node != run[i].sorted[k].node
  {
    hide IsLookup, UniqueIds, Heard, Less, Distance;
    RunStaysTidy(env, closest, run, events, i);
    LessTotal(run[i].sorted[j].dist, run[i].sorted[k].dist);
  }
}
