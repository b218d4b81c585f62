/** Lookups over whole runs: sorted nodes, the closest announces, and only finitely many events. */
module LookupProofs {
  import opened Wrappers
  import opened Bytes
  import opened Sha
  import opened Lookup

  // ----- The list of known nodes

  /** Sorted by distance, and every distance is the true one. */
  predicate Ordered(env: Env, es: seq<Entry>) {
    SortedByDist(es) && forall i :: 0 <= i < |es| ==> es[i].dist == Distance(env, es[i].node)
  }

  lemma InsertKeepsOrder(env: Env, es: seq<Entry>, e: Entry, i: nat)
    requires Ordered(env, es) && e.dist == Distance(env, e.node) && SearchAnswer(es, e.dist, i)
    ensures Ordered(env, InsertAt(es, e, i))
  {
    hide Less, Distance, SortedByDist;
    InsertKeepsSorted(es, e, i);
  }

  lemma {:induction false} MergeKeepsOrder(env: Env, before: seq<Entry>, es: seq<Entry>, after: seq<Entry>)
    requires Ordered(env, before) && InsertedAll(before, es, after)
    requires forall i :: 0 <= i < |es| ==> es[i].dist == Distance(env, es[i].node)
    ensures Ordered(env, after)
    decreases |es|
  {
    hide Less, Distance, SortedByDist;
    if es != [] {
      var i: nat :| SearchAnswer(before, es[0].dist, i) && InsertedAll(InsertAt(before, es[0], i), es[1..], after);
      InsertKeepsOrder(env, before, es[0], i);
      hide Ordered, SearchAnswer, InsertAt;
      MergeKeepsOrder(env, InsertAt(before, es[0], i), es[1..], after);
    }
  }

  lemma {:induction false} RequestsKeepList(env: Env, s: State, reqs: seq<Request>)
    ensures Requests(env, s, reqs).0.sorted == s.sorted && Requests(env, s, reqs).0.inEndgame == s.inEndgame
    ensures Requests(env, s, reqs).0.tokens == s.tokens
    decreases |reqs|
  {
    if reqs != [] && env.sends(s.sent) {
      RequestsKeepList(env, Asking(env, s, reqs[0]).(requested := s.requested + {reqs[0].node}), reqs[1..]);
    }
  }

  lemma {:induction false} RegisterKeepsList(env: Env, s: State, i: nat)
    ensures RegisterEndgame(env, s, i).sorted == s.sorted && RegisterEndgame(env, s, i).inEndgame == s.inEndgame
    decreases |s.sorted| - i
  {
    if i < |s.sorted| {
      if s.sorted[i].pinged {
        RegisterKeepsList(env, s, i + 1);
      } else {
        RegisterKeepsList(env, s.(drawn := s.drawn + 1, active := s.active[env.ids(s.drawn) := s.sorted[i].dist]), i + 1);
      }
    }
  }

  lemma {:induction false} SendKeepsOrder(env: Env, s: State, i: nat)
    requires Ordered(env, s.sorted)
    ensures Ordered(env, SendEndgame(env, s, i).0.sorted)
    ensures SendEndgame(env, s, i).0.inEndgame == s.inEndgame && SendEndgame(env, s, i).0.active == s.active
    decreases |s.sorted| - i
  {
    hide Less, Distance;
    if i < |s.sorted| {
      if s.sorted[i].pinged {
        SendKeepsOrder(env, s, i + 1);
      } else if env.sends(s.sent) {
        SendKeepsOrder(env, s.(sent := s.sent + 1, sorted := s.sorted[i := s.sorted[i].(pinged := true)]), i + 1);
      }
    }
  }

  lemma EndgameKeepsOrder(env: Env, s: State)
    requires Ordered(env, s.sorted)
    ensures Ordered(env, EndgameIfIdle(env, s).0.sorted)
  {
    hide Ordered, RegisterEndgame, SendEndgame;
    var s1 := s.(inEndgame := true);
    RegisterKeepsList(env, s1, 0);
    SendKeepsOrder(env, RegisterEndgame(env, s1, 0), 0);
  }

  // ----- What the endgame asks

  /** The entries from index `i` on that were not asked, in order. */
  function Unasked(es: seq<Entry>, i: nat): (r: seq<Entry>)
    decreases |es| - i
  {
    if i >= |es| then [] else if es[i].pinged then Unasked(es, i + 1) else [es[i]] + Unasked(es, i + 1)
  }

  /** A request registered for each entry in turn, under the ids drawn from `drawn` on. */
  function Registered(env: Env, active: map<TransactionID, ShaHash>, drawn: nat, es: seq<Entry>): map<TransactionID, ShaHash>
    decreases |es|
  {
    if es == [] then active else Registered(env, active[env.ids(drawn) := es[0].dist], drawn + 1, es[1..])
  }

  lemma {:induction false} RegisterIs(env: Env, s: State, i: nat)
    ensures var us := Unasked(s.sorted, i);
            RegisterEndgame(env, s, i) == s.(drawn := s.drawn + |us|, active := Registered(env, s.active, s.drawn, us))
    decreases |s.sorted| - i
  {
    if i < |s.sorted| {
      if s.sorted[i].pinged {
        RegisterIs(env, s, i + 1);
      } else {
        RegisterIs(env, s.(drawn := s.drawn + 1, active := s.active[env.ids(s.drawn) := s.sorted[i].dist]), i + 1);
        assert Unasked(s.sorted, i)[1..] == Unasked(s.sorted, i + 1);
      }
    }
  }

  ghost predicate FreshIds(env: Env, drawn: nat, n: nat) {
    forall j, k :: drawn <= j < k < drawn + n ==> env.ids(j) != env.ids(k)
  }

  /** A request under another id is left alone. */
  lemma {:induction false} RegisteredElsewhere(env: Env, active: map<TransactionID, ShaHash>, drawn: nat, es: seq<Entry>, id: TransactionID)
    requires forall k :: drawn <= k < drawn + |es| ==> env.ids(k) != id
    ensures id in Registered(env, active, drawn, es) <==> id in active
    ensures id in active ==> Registered(env, active, drawn, es)[id] == active[id]
    decreases |es|
  {
    if es != [] {
      RegisteredElsewhere(env, active[env.ids(drawn) := es[0].dist], drawn + 1, es[1..], id);
    }
  }

  /** With fresh ids each entry has its own request, at its own distance. */
  lemma {:induction false} RegisteredEach(env: Env, active: map<TransactionID, ShaHash>, drawn: nat, es: seq<Entry>, k: nat)
    requires FreshIds(env, drawn, |es|) && k < |es|
    ensures env.ids(drawn + k) in Registered(env, active, drawn, es)
    ensures Registered(env, active, drawn, es)[env.ids(drawn + k)] == es[k].dist
    decreases |es|
  {
    var more := active[env.ids(drawn) := es[0].dist];
    if k == 0 {
      RegisteredElsewhere(env, more, drawn + 1, es[1..], env.ids(drawn));
    } else {
      RegisteredEach(env, more, drawn + 1, es[1..], k - 1);
    }
  }

  /** The same entries, of which all from `i` on have been asked. */
  predicate AllAsked(before: seq<Entry>, after: seq<Entry>, i: nat) {
    && |before| == |after|
    && (forall j :: 0 <= j < |after| ==> after[j].node == before[j].node && after[j].dist == before[j].dist)
    && (forall j :: 0 <= j < |after| && (i <= j || before[j].pinged) ==> after[j].pinged)
  }

  lemma SendsOneMore(env: Env, sent: nat, n: nat)
    ensures SendsAll(env, sent, n + 1) <==> env.sends(sent) && SendsAll(env, sent + 1, n)
  {}

  /** All unasked entries are sent to exactly if every send succeeds, and are then marked asked. */
  lemma {:induction false} SendIs(env: Env, s: State, i: nat)
    ensures var (t, ok) := SendEndgame(env, s, i);
            && (ok <==> SendsAll(env, s.sent, |Unasked(s.sorted, i)|))
            && (ok ==> AllAsked(s.sorted, t.sorted, i) && t == s.(sent := s.sent + |Unasked(s.sorted, i)|, sorted := t.sorted))
    decreases |s.sorted| - i
  {
    hide SendsAll, AllAsked;
    if i >= |s.sorted| {
      AskedNone(env, s, i);
    } else if s.sorted[i].pinged {
      SendIs(env, s, i + 1);
      AskedOneMore(s.sorted, s.sorted, SendEndgame(env, s, i).0.sorted, i);
    } else {
      var es := s.sorted[i := s.sorted[i].(pinged := true)];
      SendsOneMore(env, s.sent, |Unasked(s.sorted, i + 1)|);
      SameUnasked(s.sorted, es, i + 1);
      if env.sends(s.sent) {
        SendIs(env, s.(sent := s.sent + 1, sorted := es), i + 1);
        AskedOneMore(s.sorted, es, SendEndgame(env, s, i).0.sorted, i);
      }
    }
  }

  lemma AskedNone(env: Env, s: State, i: nat)
    requires i >= |s.sorted|
    ensures AllAsked(s.sorted, s.sorted, i) && SendsAll(env, s.sent, 0)
  {}

  lemma AskedOneMore(before: seq<Entry>, es: seq<Entry>, after: seq<Entry>, i: nat)
    requires i < |before| && es == before[i := before[i].(pinged := true)]
    ensures AllAsked(es, after, i + 1) ==> AllAsked(before, after, i)
  {}

  lemma {:induction false} SameUnasked(es: seq<Entry>, fs: seq<Entry>, i: nat)
    requires |es| == |fs| && forall j :: i <= j < |es| ==> es[j] == fs[j]
    ensures Unasked(es, i) == Unasked(fs, i)
    decreases |es| - i
  {
    if i < |es| {
      SameUnasked(es, fs, i + 1);
    }
  }

  /**
   * The endgame round: nothing is asked once values were received; otherwise each entry not asked before is registered
   * under its own id at its own distance, and the round succeeds, with every entry asked, exactly if every send does.
   */
  lemma EndgameAsksAll(env: Env, s: State, k: nat)
    requires FreshIds(env, s.drawn, |Unasked(s.sorted, 0)|)
    ensures var (t, status) := EndgameRound(env, s);
            && (s.recvValues ==> t == s.(inEndgame := true) && status == Searching)
            && (!s.recvValues ==>
                  && (status == Searching <==> SendsAll(env, s.sent, |Unasked(s.sorted, 0)|))
                  && (status == Searching ==> AllAsked(s.sorted, t.sorted, 0))
                  && (status == Searching && k < |Unasked(s.sorted, 0)| ==>
                        env.ids(s.drawn + k) in t.active && t.active[env.ids(s.drawn + k)] == Unasked(s.sorted, 0)[k].dist))
  {
    hide Unasked, SendEndgame, RegisterEndgame, Registered, SendsAll, AllAsked;
    var s1 := s.(inEndgame := true);
    RegisterIs(env, s1, 0);
    SendIs(env, RegisterEndgame(env, s1, 0), 0);
    if k < |Unasked(s.sorted, 0)| {
      RegisteredEach(env, s.active, s.drawn, Unasked(s.sorted, 0), k);
    }
  }

  // ----- Runs

  datatype Event = OnResponse(node: Contact, tid: TransactionID, msg: Response) | OnTimeout(tid: TransactionID)

  ghost predicate Step(env: Env, s: State, ev: Event, t: State) {
    match ev
    case OnResponse(node, tid, msg) => exists status :: ResponseStep(env, s, node, tid, msg, t, status)
    case OnTimeout(tid) => t == TimeoutResult(env, s, tid).0
  }

  /** A lookup finishes, with whatever announces. */
  ghost predicate FinishStep(s: State, t: State) {
    exists announced :: FinishedAs(s, announced, t)
  }

  ghost predicate AnyStep(env: Env, s: State, t: State) {
    FinishStep(s, t) || exists ev :: Step(env, s, ev, t)
  }

  lemma RoundKeepsOrder(env: Env, s: State, reqs: seq<Request>)
    requires Ordered(env, s.sorted)
    ensures Ordered(env, RequestRound(env, s, reqs).0.sorted)
  {
    hide Ordered, Requests;
    RequestsKeepList(env, s, reqs);
  }

  lemma MergingDistances(env: Env, s: State, dist: ShaHash, info: Info)
    ensures forall i :: 0 <= i < |Merging(env, s, dist, info)| ==>
              Merging(env, s, dist, info)[i].dist == Distance(env, Merging(env, s, dist, info)[i].node)
  {
    hide NextPicks, Distance;
  }

  lemma AfterMergeKeepsOrder(env: Env, s: State, dist: ShaHash, picks: Option<seq<Pick>>)
    requires Ordered(env, s.sorted)
    ensures Ordered(env, AfterMerge(env, s, dist, picks).0.sorted)
  {
    hide Ordered, RequestRound, EndgameIfIdle, UsedNodes, RequestAll;
    if picks.Some? {
      RoundKeepsOrder(env, s, RequestAll(UsedNodes(picks.value), dist));
      EndgameKeepsOrder(env, RequestRound(env, s, RequestAll(UsedNodes(picks.value), dist)).0);
    }
    EndgameKeepsOrder(env, s);
  }

  lemma StepKeepsOrder(env: Env, s: State, ev: Event, t: State)
    requires Ordered(env, s.sorted) && Step(env, s, ev, t)
    ensures Ordered(env, t.sorted)
  {
    hide Ordered, AfterMerge, InsertedAll, Merging, NextDistance, NextPicks, EndgameIfIdle;
    match ev
    case OnResponse(node, tid, msg) =>
      if tid in s.active {
        var dist, s1 := s.active[tid], Accepted(s, node, tid, msg);
        var merged :| InsertedAll(s.sorted, Merging(env, s1, dist, msg.info), merged) &&
          t == AfterMerge(env, s1.(sorted := merged), NextDistance(env, s1, dist, msg.info), NextPicks(env, s1, dist, msg.info)).0;
        MergingDistances(env, s1, dist, msg.info);
        MergeKeepsOrder(env, s.sorted, Merging(env, s1, dist, msg.info), merged);
        AfterMergeKeepsOrder(env, s1.(sorted := merged), NextDistance(env, s1, dist, msg.info), NextPicks(env, s1, dist, msg.info));
      }
    case OnTimeout(tid) =>
      if tid in s.active {
        EndgameKeepsOrder(env, s.(active := s.active - {tid}));
      }
  }

  lemma {:induction false} MarkKeepsOrder(env: Env, es: seq<Entry>, i: nat)
    requires Ordered(env, es) && i <= |es|
    ensures Ordered(env, MarkInitial(es, i))
    decreases |es| - i
  {
    hide Less, Distance;
    if i < |es| && i != INITIAL_PICK_NUM {
      MarkKeepsOrder(env, es[i := es[i].(pinged := true)], i + 1);
    }
  }

  lemma StartIsOrdered(env: Env, closest: seq<Contact>, t: State, status: LookupStatus)
    requires StartStep(env, closest, t, status)
    ensures Ordered(env, t.sorted)
  {
    hide Ordered, InsertedAll, RequestRound, MarkInitial, Distance;
    assert Ordered(env, []) by { NothingIsOrdered(env); }
    var merged :| InsertedAll([], EntriesFor(env, closest, []), merged) &&
      (t, status) == RequestRound(env, Fresh().(sorted := MarkInitial(merged, 0)), InitialRequests(env, merged));
    MergeKeepsOrder(env, [], EntriesFor(env, closest, []), merged);
    MarkKeepsOrder(env, merged, 0);
    RoundKeepsOrder(env, Fresh().(sorted := MarkInitial(merged, 0)), InitialRequests(env, merged));
  }

  lemma NothingIsOrdered(env: Env)
    ensures Ordered(env, [])
  {}

  /** Whatever answers, timeouts and finishes arrive, the known nodes stay sorted by true distance. */
  lemma {:induction false} RunsStayOrdered(env: Env, closest: seq<Contact>, run: seq<State>, status: LookupStatus, i: nat)
    requires i < |run| && StartStep(env, closest, run[0], status)
    requires forall k :: 0 <= k < |run| - 1 ==> AnyStep(env, run[k], run[k + 1])
    ensures Ordered(env, run[i].sorted)
  {
    hide Ordered, StartStep, Step;
    if i == 0 {
      StartIsOrdered(env, closest, run[0], status);
    } else {
      RunsStayOrdered(env, closest, run, status, i - 1);
      var s, t := run[i - 1], run[i - 1 + 1];
      assert AnyStep(env, s, t);
      if !FinishStep(s, t) {
        var ev :| Step(env, s, ev, t);
        StepKeepsOrder(env, s, ev, t);
      }
    }
  }

  // ----- Announcing to the closest

  function PickIndices(s: State, i: nat, n: nat): (r: seq<nat>)
    ensures |r| <= n
    ensures forall k :: 0 <= k < |r| ==> i <= r[k] < |s.sorted| && s.sorted[r[k]].node in s.tokens
    decreases |s.sorted| - i
  {
    if i >= |s.sorted| || n == 0 then []
    else if s.sorted[i].node in s.tokens then [i] + PickIndices(s, i + 1, n - 1)
    else PickIndices(s, i + 1, n)
  }

  lemma {:induction false} PicksAre(s: State, i: nat, n: nat)
    ensures |AnnouncePicks(s, i, n)| == |PickIndices(s, i, n)|
    ensures forall k :: 0 <= k < |PickIndices(s, i, n)| ==>
              var e := s.sorted[PickIndices(s, i, n)[k]]; AnnouncePicks(s, i, n)[k] == (e.node, s.tokens[e.node])
    decreases |s.sorted| - i
  {
    if i < |s.sorted| && n > 0 {
      if s.sorted[i].node in s.tokens {
        PicksAre(s, i + 1, n - 1);
      } else {
        PicksAre(s, i + 1, n);
      }
    }
  }

  /** An entry with a token is passed over only after `n` picks, all before it. */
  lemma {:induction false} PassedOver(s: State, i: nat, n: nat, k: nat)
    requires i <= k < |s.sorted| && s.sorted[k].node in s.tokens && k !in PickIndices(s, i, n)
    ensures |PickIndices(s, i, n)| == n && forall j :: j in PickIndices(s, i, n) ==> j < k
    decreases |s.sorted| - i
  {
    if n > 0 {
      if s.sorted[i].node in s.tokens {
        PassedOver(s, i + 1, n - 1, k);
      } else {
        PassedOver(s, i + 1, n, k);
      }
    }
  }

  /** At most eight announces, each with the node's own token; a node with a token that is left
      out is at least as far as every node announced to, and then all eight are used. */
  lemma AnnouncesClosest(env: Env, s: State)
    requires Ordered(env, s.sorted)
    ensures var picks := AnnouncePicks(s, 0, ANNOUNCE_PICK_NUM);
            && |picks| <= ANNOUNCE_PICK_NUM
            && (forall p :: p in picks ==> p.0 in s.tokens && p.1 == s.tokens[p.0] && exists e :: e in s.sorted && e.node == p.0)
            && (forall e :: e in s.sorted && e.node in s.tokens && (e.node, s.tokens[e.node]) !in picks ==>
                  |picks| == ANNOUNCE_PICK_NUM && forall p :: p in picks ==> !Less(e.dist, Distance(env, p.0)))
  {
    hide Less, Distance;
    var picks := AnnouncePicks(s, 0, ANNOUNCE_PICK_NUM);
    PicksAre(s, 0, ANNOUNCE_PICK_NUM);
    forall p | p in picks ensures p.0 in s.tokens && p.1 == s.tokens[p.0] && exists e :: e in s.sorted && e.node == p.0 {
      var k :| 0 <= k < |picks| && picks[k] == p;
      assert s.sorted[PickIndices(s, 0, ANNOUNCE_PICK_NUM)[k]] in s.sorted;
    }
    forall e | e in s.sorted && e.node in s.tokens && (e.node, s.tokens[e.node]) !in picks
      ensures |picks| == ANNOUNCE_PICK_NUM && forall p :: p in picks ==> !Less(e.dist, Distance(env, p.0))
    {
      var k :| 0 <= k < |s.sorted| && s.sorted[k] == e;
      LeftOutIsFarther(env, s, k);
    }
  }

  lemma LeftOutIsFarther(env: Env, s: State, k: nat)
    requires Ordered(env, s.sorted) && k < |s.sorted| && s.sorted[k].node in s.tokens
    requires (s.sorted[k].node, s.tokens[s.sorted[k].node]) !in AnnouncePicks(s, 0, ANNOUNCE_PICK_NUM)
    ensures |AnnouncePicks(s, 0, ANNOUNCE_PICK_NUM)| == ANNOUNCE_PICK_NUM
    ensures forall p :: p in AnnouncePicks(s, 0, ANNOUNCE_PICK_NUM) ==> !Less(s.sorted[k].dist, Distance(env, p.0))
  {
    hide Less, Distance, PickIndices, AnnouncePicks;
    var picks, indices: seq<nat> := AnnouncePicks(s, 0, ANNOUNCE_PICK_NUM), PickIndices(s, 0, ANNOUNCE_PICK_NUM);
    PicksAre(s, 0, ANNOUNCE_PICK_NUM);
    forall j | 0 <= j < |indices| ensures indices[j] != k {
      assert picks[j] in picks;
    }
    PassedOver(s, 0, ANNOUNCE_PICK_NUM, k);
    forall p | p in picks ensures !Less(s.sorted[k].dist, Distance(env, p.0)) {
      var j :| 0 <= j < |picks| && picks[j] == p;
      assert indices[j] in indices;
    }
  }

  // ----- Distances as numbers

  /** The big-endian value of the bytes from `i` on. */
  function ValueFrom(h: ShaHash, i: nat): (r: nat)
    requires i <= SHA_HASH_LEN
    decreases SHA_HASH_LEN - i
  {
    if i == SHA_HASH_LEN then 0 else Digit(h[i]) * Power256(SHA_HASH_LEN - 1 - i) + ValueFrom(h, i + 1)
  }

  function Digit(b: bv8): (r: nat)
    ensures r < 256
  {
    b as nat
  }

  lemma {:induction false} ValueBound(h: ShaHash, i: nat)
    requires i <= SHA_HASH_LEN
    ensures ValueFrom(h, i) < Power256(SHA_HASH_LEN - i)
    decreases SHA_HASH_LEN - i
  {
    hide Digit;
    if i < SHA_HASH_LEN {
      ValueBound(h, i + 1);
      DigitStep(Digit(h[i]), 256, Power256(SHA_HASH_LEN - 1 - i), ValueFrom(h, i + 1));
    }
  }

  lemma DigitStep(x: nat, y: nat, p: nat, v: nat)
    requires x < y && v < p
    ensures x * p + v < y * p
  {
    assert (x + 1) * p <= y * p;
    assert (x + 1) * p == x * p + p;
  }

  lemma DigitGrows(x: bv8, y: bv8)
    ensures x < y ==> Digit(x) < Digit(y)
  {}

  lemma {:induction false} LessIsSmaller(a: ShaHash, b: ShaHash, i: nat)
    requires i <= SHA_HASH_LEN && LessFrom(a, b, i)
    ensures ValueFrom(a, i) < ValueFrom(b, i)
    decreases SHA_HASH_LEN - i
  {
    hide Power256, Digit;
    if a[i] == b[i] {
      LessIsSmaller(a, b, i + 1);
    } else {
      ValueBound(a, i + 1);
      DigitGrows(a[i], b[i]);
      DigitStep(Digit(a[i]), Digit(b[i]), Power256(SHA_HASH_LEN - 1 - i), ValueFrom(a, i + 1));
    }
  }

  function Pow4(n: nat): (r: nat)
    ensures r > 0
  {
    if n == 0 then 1 else 4 * Pow4(n - 1)
  }

  lemma {:induction false} Pow4Grows(m: nat, n: nat)
    requires m < n
    ensures 4 * Pow4(m) <= Pow4(n)
    decreases n
  {
    if m < n - 1 {
      Pow4Grows(m, n - 1);
    }
  }

  function Weight(d: ShaHash): (r: nat)
    ensures r > 0
  {
    Pow4(ValueFrom(d, 0))
  }

  lemma CloserIsLighter(a: ShaHash, b: ShaHash)
    requires Less(a, b)
    ensures 3 * Weight(a) < Weight(b)
  {
    LessIsSmaller(a, b, 0);
    Pow4Grows(ValueFrom(a, 0), ValueFrom(b, 0));
  }

  // ----- Finitely many events

  /** The weight of all outstanding requests. */
  ghost function Total(m: map<TransactionID, ShaHash>): nat
    decreases |m|
  {
    if m == map[] then 0 else
      var k :| k in m;
      assert |m - {k}| < |m| by { Shrinks(m, k); }
      Weight(m[k]) + Total(m - {k})
  }

  lemma Shrinks(m: map<TransactionID, ShaHash>, k: TransactionID)
    requires k in m
    ensures |m - {k}| < |m|
  {
    assert (m - {k}).Keys == m.Keys - {k};
    assert |m.Keys - {k}| == |m.Keys| - 1;
  }

  lemma {:induction false} TotalRemove(m: map<TransactionID, ShaHash>, k: TransactionID)
    requires k in m
    ensures Total(m) == Weight(m[k]) + Total(m - {k})
    decreases |m|
  {
    hide Weight;
    var j :| j in m && Total(m) == Weight(m[j]) + Total(m - {j});
    if j != k {
      Shrinks(m, j);
      Shrinks(m, k);
      TotalRemove(m - {j}, k);
      TotalRemove(m - {k}, j);
      assert m - {j} - {k} == m - {k} - {j};
    }
  }

  lemma TotalInsert(m: map<TransactionID, ShaHash>, k: TransactionID, d: ShaHash)
    ensures Total(m[k := d]) <= Total(m) + Weight(d)
  {
    hide Weight;
    TotalRemove(m[k := d], k);
    assert m[k := d] - {k} == m - {k};
    if k in m {
      TotalRemove(m, k);
    } else {
      assert m - {k} == m;
    }
  }

  lemma {:induction false} RequestsWeigh(env: Env, s: State, reqs: seq<Request>, d: ShaHash)
    requires forall i :: 0 <= i < |reqs| ==> reqs[i].dist == d
    ensures Total(Requests(env, s, reqs).0.active) <= Total(s.active) + |reqs| * Weight(d)
    decreases |reqs|
  {
    hide Weight, Total;
    if reqs != [] {
      TotalInsert(s.active, env.ids(s.drawn), d);
      RequestsWeigh(env, Asking(env, s, reqs[0]).(requested := s.requested + {reqs[0].node}), reqs[1..], d);
      assert |reqs| * Weight(d) == Weight(d) + |reqs[1..]| * Weight(d);
    }
  }

  predicate Accepts(s: State, ev: Event) {
    ev.tid in s.active
  }

  /** In lexicographic order: entering the endgame, or less outstanding weight. */
  ghost predicate Falls(s: State, t: State) {
    || (!s.inEndgame && t.inEndgame)
    || (s.inEndgame == t.inEndgame && Total(t.active) < Total(s.active))
  }

  lemma IdleFalls(env: Env, s: State, before: State)
    requires Total(s.active) < Total(before.active) && s.inEndgame == before.inEndgame
    ensures Falls(before, EndgameIfIdle(env, s).0)
  {
    hide Total, RegisterEndgame, SendEndgame;
    if !s.inEndgame && s.active == map[] {
      var s1 := s.(inEndgame := true);
      RegisterKeepsList(env, s1, 0);
      SendKeepsEndgame(env, RegisterEndgame(env, s1, 0), 0);
    }
  }

  lemma {:induction false} SendKeepsEndgame(env: Env, s: State, i: nat)
    ensures SendEndgame(env, s, i).0.inEndgame == s.inEndgame
    decreases |s.sorted| - i
  {
    if i < |s.sorted| {
      if s.sorted[i].pinged {
        SendKeepsEndgame(env, s, i + 1);
      } else if env.sends(s.sent) {
        SendKeepsEndgame(env, s.(sent := s.sent + 1, sorted := s.sorted[i := s.sorted[i].(pinged := true)]), i + 1);
      }
    }
  }

  lemma AtMostThree(n: nat, w: nat)
    requires n <= 3
    ensures n * w <= 3 * w
  {}

  /** The request round of a beaten distance weighs less than the request just answered. */
  lemma RoundFalls(env: Env, s: State, before: State, reqs: seq<Request>, d: ShaHash, beaten: ShaHash)
    requires |reqs| <= ITERATIVE_PICK_NUM && Less(d, beaten) && forall i :: 0 <= i < |reqs| ==> reqs[i].dist == d
    requires Total(before.active) == Total(s.active) + Weight(beaten)
    ensures Total(RequestRound(env, s, reqs).0.active) < Total(before.active)
    ensures RequestRound(env, s, reqs).0.inEndgame == s.inEndgame
  {
    hide Less, Weight, Requests;
    RequestsWeigh(env, s, reqs, d);
    RequestsKeepList(env, s, reqs);
    CloserIsLighter(d, beaten);
    AtMostThree(|reqs|, Weight(d));
  }

  lemma AfterMergeFalls(env: Env, s: State, before: State, d: ShaHash, picks: Option<seq<Pick>>, beaten: ShaHash)
    requires s.inEndgame == before.inEndgame && Total(before.active) == Total(s.active) + Weight(beaten)
    requires picks.Some? ==> Less(d, beaten) && |picks.value| == ITERATIVE_PICK_NUM
    ensures Falls(before, AfterMerge(env, s, d, picks).0)
  {
    hide Total, Weight, Less, RequestRound, EndgameIfIdle, UsedNodes;
    if !s.inEndgame && picks.Some? {
      var reqs := RequestAll(UsedNodes(picks.value), d);
      RoundFalls(env, s, before, reqs, d, beaten);
      IdleFalls(env, RequestRound(env, s, reqs).0, before);
    } else {
      IdleFalls(env, s, before);
    }
  }

  lemma AcceptedFalls(env: Env, s: State, ev: Event, t: State)
    requires Step(env, s, ev, t) && Accepts(s, ev)
    ensures Falls(s, t)
  {
    hide Total, Weight, Less, AfterMerge, EndgameIfIdle, InsertedAll, Merging, Falls, Closest, PickIterate;
    var beaten := s.active[ev.tid];
    TotalRemove(s.active, ev.tid);
    match ev
    case OnResponse(node, tid, msg) =>
      var s1 := Accepted(s, node, tid, msg);
      var d, picks := NextDistance(env, s1, beaten, msg.info), NextPicks(env, s1, beaten, msg.info);
      var merged :| InsertedAll(s.sorted, Merging(env, s1, beaten, msg.info), merged) && t == AfterMerge(env, s1.(sorted := merged), d, picks).0;
      AfterMergeFalls(env, s1.(sorted := merged), s, d, picks, beaten);
    case OnTimeout(tid) =>
      IdleFalls(env, s.(active := s.active - {tid}), s);
  }

  lemma RejectedStays(env: Env, s: State, ev: Event, t: State)
    requires Step(env, s, ev, t) && !Accepts(s, ev)
    ensures t == s
  {}

  ghost predicate InfiniteRun(env: Env, states: nat -> State, events: nat -> Event) {
    forall i: nat :: Step(env, states(i), events(i), states(i + 1))
  }

  function Stage(s: State): nat {
    if s.inEndgame then 0 else 1
  }

  /** Along a run the endgame is entered at most once and the weight only falls in between. */
  lemma {:induction false} NeverRises(env: Env, states: nat -> State, events: nat -> Event, i: nat, j: nat)
    requires InfiniteRun(env, states, events) && i <= j
    ensures states(i) == states(j) || Falls(states(i), states(j))
    decreases j - i
  {
    hide Step, Total;
    if i < j {
      assert Step(env, states(i), events(i), states(i + 1));
      if Accepts(states(i), events(i)) {
        AcceptedFalls(env, states(i), events(i), states(i + 1));
      } else {
        RejectedStays(env, states(i), events(i), states(i + 1));
      }
      NeverRises(env, states, events, i + 1, j);
    }
  }

  ghost predicate QuietFrom(states: nat -> State, events: nat -> Event, n: nat) {
    forall k: nat :: n <= k ==> !Accepts(states(k), events(k))
  }

  /** From some point on, every response and timeout is for a request no longer outstanding. */
  lemma {:induction false} OnlyFinitelyManyAccepted(env: Env, states: nat -> State, events: nat -> Event, i: nat)
    requires InfiniteRun(env, states, events)
    ensures exists n: nat :: QuietFrom(states, events, n)
    decreases Stage(states(i)), Total(states(i).active)
  {
    hide Step, Total;
    if k: nat :| i <= k && Accepts(states(k), events(k)) {
      NeverRises(env, states, events, i, k);
      assert Step(env, states(k), events(k), states(k + 1));
      AcceptedFalls(env, states(k), events(k), states(k + 1));
      OnlyFinitelyManyAccepted(env, states, events, k + 1);
    } else {
      assert QuietFrom(states, events, i);
    }
  }
}
