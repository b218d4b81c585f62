/** An iterative get_peers lookup: its request rounds, its endgame and its final announce. */
module Lookup {
  import opened Wrappers
  import opened Bytes
  import opened Sha

  const INITIAL_PICK_NUM := 4
  const ITERATIVE_PICK_NUM := 3
  const ANNOUNCE_PICK_NUM := 8

  type TransactionID = nat
  type SocketAddr = nat

  /** A node as the lookup compares it: id and address. */
  datatype Contact = Contact(id: ShaHash, addr: SocketAddr)

  /** A known node, its xor distance to the target, and whether it was asked. */
  datatype Entry = Entry(dist: ShaHash, node: Contact, pinged: bool)

  datatype Info = Nodes(nodes: seq<Contact>) | Values(values: seq<SocketAddr>) | Both(nodes: seq<Contact>, values: seq<SocketAddr>)

  datatype Response = Response(token: Option<seq<Byte>>, info: Info)

  datatype LookupStatus = Searching | ValuesFound(values: seq<SocketAddr>) | Completed | Failed

  /** Generated ids and send outcomes are arbitrary streams; `drawn` and `sent` count their use. */
  datatype Env = Env(target: ShaHash, ids: nat -> TransactionID, sends: nat -> bool)

  datatype State = State(
    inEndgame: bool, recvValues: bool, active: map<TransactionID, ShaHash>, tokens: map<Contact, seq<Byte>>,
    requested: set<Contact>, sorted: seq<Entry>, drawn: nat, sent: nat)

  function Distance(env: Env, node: Contact): ShaHash {
    Xor(env.target, node.id)
  }

  function CurrentStatus(s: State): LookupStatus {
    if s.inEndgame || s.active != map[] then Searching else Completed
  }

  // ----- The sorted list of known nodes

  predicate SortedByDist(es: seq<Entry>) {
    forall i, j :: 0 <= i < j < |es| ==> !Less(es[j].dist, es[i].dist)
  }

  /** `i` is an answer the binary search may give for the distance: any match, or else the gap. */
  predicate SearchAnswer(es: seq<Entry>, dist: ShaHash, i: nat) {
    && i <= |es|
    && (if i < |es| && es[i].dist == dist then true else
        (forall j :: 0 <= j < i ==> Less(es[j].dist, dist)) && (forall j :: i <= j < |es| ==> Less(dist, es[j].dist)))
  }

  function InsertAt(es: seq<Entry>, e: Entry, i: nat): seq<Entry>
    requires i <= |es|
  {
    if i < |es| && es[i].dist == e.dist && es[i].node == e.node then es else es[..i] + [e] + es[i..]
  }

  /** `after` is `before` with the entries inserted one by one, wherever the search answered. */
  ghost predicate InsertedAll(before: seq<Entry>, es: seq<Entry>, after: seq<Entry>)
    decreases |es|
  {
    if es == [] then after == before
    else exists i: nat :: SearchAnswer(before, es[0].dist, i) && InsertedAll(InsertAt(before, es[0], i), es[1..], after)
  }

  // ----- Picking nodes

  /** Up to three nodes to ask next; unused slots hold a placeholder. */
  datatype Pick = Pick(node: Contact, used: bool)

  function NoPicks(): (r: seq<Pick>)
    ensures |r| == ITERATIVE_PICK_NUM && forall i :: 0 <= i < |r| ==> !r[i].used
  {
    var p := Pick(Contact(ZeroId(), 0), false);
    [p, p, p]
  }

  function InsertClosest(env: Env, picks: seq<Pick>, node: Contact): (r: seq<Pick>)
    ensures |r| == |picks|
  {
    if picks == [] then []
    else if picks[0].used && !Less(Distance(env, node), Distance(env, picks[0].node)) then
      [picks[0]] + InsertClosest(env, picks[1..], node)
    else [Pick(node, true)] + picks[1..]
  }

  /** The insertion at slot `i`, when all slots before it are kept. */
  lemma InsertFrom(env: Env, picks: seq<Pick>, node: Contact, i: nat)
    requires i <= |picks|
    ensures picks[0..] == picks
    ensures picks[..i] + InsertClosest(env, picks[i..], node) ==
            if i == |picks| then picks
            else if picks[i].used && !Less(Distance(env, node), Distance(env, picks[i].node))
            then picks[..i + 1] + InsertClosest(env, picks[i + 1..], node)
            else picks[i := Pick(node, true)]
  {
    hide Less, Distance;
    if i < |picks| {
      assert picks[i..][0] == picks[i] && picks[i..][1..] == picks[i + 1..];
      assert picks[..i + 1] == picks[..i] + [picks[i]];
    }
  }

  function PickIterate(env: Env, nodes: seq<Contact>): (r: seq<Pick>)
    ensures |r| == ITERATIVE_PICK_NUM
  {
    if nodes == [] then NoPicks() else InsertClosest(env, PickIterate(env, nodes[..|nodes| - 1]), nodes[|nodes| - 1])
  }

  function NotRequested(s: State, nodes: seq<Contact>): seq<Contact> {
    if nodes == [] then []
    else (if nodes[0] in s.requested then [] else [nodes[0]]) + NotRequested(s, nodes[1..])
  }

  function Closest(env: Env, dist: ShaHash, nodes: seq<Contact>): ShaHash {
    if nodes == [] then dist
    else
      var d := Distance(env, nodes[|nodes| - 1]);
      var c := Closest(env, dist, nodes[..|nodes| - 1]);
      if Less(d, c) then d else c
  }

  lemma NoCandidates(env: Env, s: State, dist: ShaHash)
    ensures NotRequested(s, []) == [] && Closest(env, dist, []) == dist
  {}

  lemma NextCandidate(s: State, candidates: seq<Contact>, nodes: seq<Contact>, i: nat)
    requires i < |nodes|
    ensures candidates + NotRequested(s, nodes[i..]) ==
            (if nodes[i] in s.requested then candidates else candidates + [nodes[i]]) + NotRequested(s, nodes[i + 1..])
  {
    assert nodes[i..][0] == nodes[i] && nodes[i..][1..] == nodes[i + 1..];
  }

  lemma OneCloser(env: Env, dist: ShaHash, nodes: seq<Contact>, n: Contact)
    ensures Closest(env, dist, nodes + [n]) ==
            if Less(Distance(env, n), Closest(env, dist, nodes)) then Distance(env, n) else Closest(env, dist, nodes)
  {
    assert (nodes + [n])[..|nodes|] == nodes;
  }

  function UsedNodes(picks: seq<Pick>): (r: seq<Contact>)
    ensures |r| <= |picks|
  {
    if picks == [] then [] else (if picks[0].used then [picks[0].node] else []) + UsedNodes(picks[1..])
  }

  function EntriesFor(env: Env, nodes: seq<Contact>, picks: seq<Pick>): (r: seq<Entry>)
    ensures |r| == |nodes|
    ensures forall i :: 0 <= i < |nodes| ==> r[i].dist == Distance(env, nodes[i]) && r[i].node == nodes[i]
  {
    seq(|nodes|, i requires 0 <= i < |nodes| =>
      Entry(Distance(env, nodes[i]), nodes[i], exists k :: 0 <= k < |picks| && picks[k].node == nodes[i]))
  }

  // ----- Rounds

  /** A node to ask and the distance its answer has to beat. */
  datatype Request = Request(node: Contact, dist: ShaHash)

  function RequestAll(nodes: seq<Contact>, dist: ShaHash): (r: seq<Request>)
    ensures |r| == |nodes| && forall i :: 0 <= i < |r| ==> r[i].dist == dist
  {
    seq(|nodes|, i requires 0 <= i < |nodes| => Request(nodes[i], dist))
  }

  function Asking(env: Env, s: State, r: Request): State {
    s.(drawn := s.drawn + 1, active := s.active[env.ids(s.drawn) := r.dist], sent := s.sent + 1)
  }

  /** Asks the nodes one after another until a send fails. */
  function Requests(env: Env, s: State, reqs: seq<Request>): (r: (State, bool))
    decreases |reqs|
  {
    if reqs == [] then (s, true)
    else if !env.sends(s.sent) then (Asking(env, s, reqs[0]), false)
    else Requests(env, Asking(env, s, reqs[0]).(requested := s.requested + {reqs[0].node}), reqs[1..])
  }

  lemma RequestsNext(env: Env, s: State, reqs: seq<Request>, k: nat)
    requires k < |reqs|
    ensures Requests(env, s, reqs[k..]) ==
            if env.sends(s.sent)
            then Requests(env, Asking(env, s, reqs[k]).(requested := s.requested + {reqs[k].node}), reqs[k + 1..])
            else (Asking(env, s, reqs[k]), false)
  {
    hide Asking;
    assert reqs[k..][0] == reqs[k] && reqs[k..][1..] == reqs[k + 1..];
  }

  lemma RequestsNone(env: Env, s: State, reqs: seq<Request>)
    ensures Requests(env, s, reqs[|reqs|..]) == (s, true) && reqs[0..] == reqs
  {}

  function RequestRound(env: Env, s: State, reqs: seq<Request>): (r: (State, LookupStatus)) {
    var (t, ok) := Requests(env, s, reqs);
    if !ok then (t, Failed)
    else if reqs == [] then (t.(active := map[]), Completed)
    else (t, Searching)
  }

  /** Registers a request for every entry not asked yet, from index `i` on. */
  function RegisterEndgame(env: Env, s: State, i: nat): State
    decreases |s.sorted| - i
  {
    if i >= |s.sorted| then s
    else if s.sorted[i].pinged then RegisterEndgame(env, s, i + 1)
    else RegisterEndgame(env, s.(drawn := s.drawn + 1, active := s.active[env.ids(s.drawn) := s.sorted[i].dist]), i + 1)
  }

  /** Sends the endgame messages, marking each entry asked, until a send fails. */
  function SendEndgame(env: Env, s: State, i: nat): (r: (State, bool))
    decreases |s.sorted| - i
  {
    if i >= |s.sorted| then (s, true)
    else if s.sorted[i].pinged then SendEndgame(env, s, i + 1)
    else if !env.sends(s.sent) then (s.(sent := s.sent + 1), false)
    else SendEndgame(env, s.(sent := s.sent + 1, sorted := s.sorted[i := s.sorted[i].(pinged := true)]), i + 1)
  }

  function EndgameRound(env: Env, s: State): (r: (State, LookupStatus)) {
    var s1 := s.(inEndgame := true);
    if s.recvValues then (s1, Searching)
    else
      var (t, ok) := SendEndgame(env, RegisterEndgame(env, s1, 0), 0);
      (t, if ok then Searching else Failed)
  }

  function EndgameIfIdle(env: Env, s: State): (r: (State, LookupStatus)) {
    if !s.inEndgame && s.active == map[] then EndgameRound(env, s) else (s, Searching)
  }

  // ----- Events

  /** What a response to an active request does before its nodes are merged. */
  function Accepted(s: State, node: Contact, tid: TransactionID, msg: Response): State {
    s.(active := s.active - {tid},
       tokens := if msg.token.Some? then s.tokens[node := msg.token.value] else s.tokens,
       recvValues := s.recvValues || msg.info.Values?)
  }

  function NodesOf(info: Info): Option<seq<Contact>> {
    match info case Nodes(n) => Some(n) case Values(_) => None case Both(n, _) => Some(n)
  }

  /** The distance to beat afterwards, and the nodes to ask when it was beaten. */
  function NextDistance(env: Env, s: State, dist: ShaHash, info: Info): ShaHash {
    match NodesOf(info) case None => dist case Some(nodes) => Closest(env, dist, NotRequested(s, nodes))
  }

  function NextPicks(env: Env, s: State, dist: ShaHash, info: Info): Option<seq<Pick>> {
    match NodesOf(info)
    case None => None
    case Some(nodes) =>
      if Less(NextDistance(env, s, dist, info), dist) then Some(PickIterate(env, NotRequested(s, nodes))) else None
  }

  function Merging(env: Env, s: State, dist: ShaHash, info: Info): seq<Entry> {
    match NodesOf(info)
    case None => []
    case Some(nodes) =>
      match NextPicks(env, s, dist, info)
      case Some(picks) => EntriesFor(env, nodes, picks)
      case None => EntriesFor(env, nodes, [])
  }

  /** The rounds a response starts, once its nodes are merged. */
  function AfterMerge(env: Env, s: State, dist: ShaHash, picks: Option<seq<Pick>>): (r: (State, LookupStatus)) {
    if s.inEndgame then (s, Searching)
    else
      var (t, status) := if picks.Some? then RequestRound(env, s, RequestAll(UsedNodes(picks.value), dist)) else (s, Searching);
      if status == Failed then (t, Failed) else EndgameIfIdle(env, t)
  }

  function Answer(s: State, status: LookupStatus, info: Info): LookupStatus {
    if status == Failed then Failed
    else match info
      case Nodes(_) => CurrentStatus(s)
      case Values(v) => ValuesFound(v)
      case Both(_, v) => ValuesFound(v)
  }

  /** A response takes `s` to `t` and answers `status`. */
  ghost predicate ResponseStep(env: Env, s: State, node: Contact, tid: TransactionID, msg: Response, t: State, status: LookupStatus) {
    if tid !in s.active then t == s && status == CurrentStatus(s)
    else
      var dist, s1 := s.active[tid], Accepted(s, node, tid, msg);
      exists merged :: InsertedAll(s.sorted, Merging(env, s1, dist, msg.info), merged) &&
        var (u, st) := AfterMerge(env, s1.(sorted := merged), NextDistance(env, s1, dist, msg.info), NextPicks(env, s1, dist, msg.info));
        t == u && status == Answer(u, st, msg.info)
  }

  function TimeoutResult(env: Env, s: State, tid: TransactionID): (r: (State, LookupStatus)) {
    if tid !in s.active then (s, CurrentStatus(s))
    else
      var (t, status) := EndgameIfIdle(env, s.(active := s.active - {tid}));
      (t, if status == Failed then Failed else CurrentStatus(t))
  }

  /** The closest known nodes that gave a token, each with its token, at most `n` of them. */
  function AnnouncePicks(s: State, i: nat, n: nat): seq<(Contact, seq<Byte>)>
    decreases |s.sorted| - i
  {
    if i >= |s.sorted| || n == 0 then []
    else if s.sorted[i].node in s.tokens then [(s.sorted[i].node, s.tokens[s.sorted[i].node])] + AnnouncePicks(s, i + 1, n - 1)
    else AnnouncePicks(s, i + 1, n)
  }

  /** A finished lookup forgets its requests; an id was drawn and a send tried for each announce. */
  predicate FinishedAs(s: State, announced: seq<(Contact, seq<Byte>)>, t: State) {
    t == s.(active := map[], inEndgame := false, drawn := s.drawn + |announced|, sent := s.sent + |announced|)
  }

  predicate SendsAll(env: Env, sent: nat, n: nat) {
    forall k :: sent <= k < sent + n ==> env.sends(k)
  }

  // ----- The start

  function Fresh(): State {
    State(false, false, map[], map[], {}, [], 0, 0)
  }

  /** The first four known nodes are marked asked. */
  function MarkInitial(es: seq<Entry>, i: nat): (r: seq<Entry>)
    requires i <= |es|
    ensures |r| == |es|
    decreases |es| - i
  {
    if i == |es| || i == INITIAL_PICK_NUM then es else MarkInitial(es[i := es[i].(pinged := true)], i + 1)
  }

  function InitialRequests(env: Env, es: seq<Entry>): (r: seq<Request>)
  {
    seq(if |es| < INITIAL_PICK_NUM then |es| else INITIAL_PICK_NUM,
        i requires 0 <= i < |es| => Request(es[i].node, Xor(es[i].node.id, env.target)))
  }

  /** A lookup starting from the given closest good nodes may begin in `t` with this status. */
  ghost predicate StartStep(env: Env, closest: seq<Contact>, t: State, status: LookupStatus) {
    exists merged :: InsertedAll([], EntriesFor(env, closest, []), merged) &&
      (t, status) == RequestRound(env, Fresh().(sorted := MarkInitial(merged, 0)), InitialRequests(env, merged))
  }

  // ----- The lookup in place

  class TableLookup {
    const env: Env
    const willAnnounce: bool
    var inEndgame: bool
    var recvValues: bool
    var active: map<TransactionID, ShaHash>
    var tokens: map<Contact, seq<Byte>>
    var requested: set<Contact>
    var sorted: seq<Entry>
    var drawn: nat
    var sent: nat

    function View(): State
      reads this
    {
      State(inEndgame, recvValues, active, tokens, requested, sorted, drawn, sent)
    }

    constructor (env: Env, willAnnounce: bool)
      ensures this.env == env && this.willAnnounce == willAnnounce && View() == Fresh()
    {
      this.env, this.willAnnounce := env, willAnnounce;
      inEndgame, recvValues, active, tokens, requested, sorted, drawn, sent := false, false, map[], map[], {}, [], 0, 0;
    }

    /** The first round: the closest good nodes of the routing table, at most eight, are merged,
        and the first four are asked. */
    method Start(closest: seq<Contact>) returns (status: LookupStatus)
      requires View() == Fresh()
      modifies this
      ensures StartStep(env, closest, View(), status) && SortedByDist(sorted)
    {
      hide InsertedAll, RequestRound, EntriesFor, Less, Xor;
      MergeNodes(closest, []);
      ghost var merged := sorted;
      var reqs: seq<Request> := [];
      var i := 0;
      while i < |sorted| && i < INITIAL_PICK_NUM
        invariant 0 <= i <= |sorted| == |merged| && i <= INITIAL_PICK_NUM
        invariant View() == Fresh().(sorted := sorted)
        invariant SortedByDist(sorted) && forall j :: 0 <= j < |sorted| ==> sorted[j].node == merged[j].node
        invariant reqs == InitialRequests(env, merged)[..i]
        invariant MarkInitial(sorted, i) == MarkInitial(merged, 0)
        decreases |sorted| - i
      {
        reqs := reqs + [Request(sorted[i].node, Xor(sorted[i].node.id, env.target))];
        sorted := sorted[i := sorted[i].(pinged := true)];
        i := i + 1;
      }
      assert reqs == InitialRequests(env, merged);
      status := StartRequestRound(reqs);
    }

    /** Binary search by distance; with equal distances any of them may be found. */
    method Search(dist: ShaHash) returns (i: nat)
      requires SortedByDist(sorted)
      ensures SearchAnswer(sorted, dist, i)
    {
      var lo, hi := 0, |sorted|;
      while lo < hi
        invariant 0 <= lo <= hi <= |sorted|
        invariant forall j :: 0 <= j < lo ==> Less(sorted[j].dist, dist)
        invariant forall j :: hi <= j < |sorted| ==> Less(dist, sorted[j].dist)
      {
        var mid := (lo + hi) / 2;
        LessTotal(sorted[mid].dist, dist);
        if sorted[mid].dist == dist {
          return mid;
        } else if Less(sorted[mid].dist, dist) {
          forall j | 0 <= j <= mid ensures Less(sorted[j].dist, dist) {
            if j < mid {
              NotLessThenLess(sorted[mid].dist, sorted[j].dist, dist);
            }
          }
          lo := mid + 1;
        } else {
          forall j | mid <= j < |sorted| ensures Less(dist, sorted[j].dist) {
            if mid < j {
              LessThenNotLess(dist, sorted[mid].dist, sorted[j].dist);
            }
          }
          hi := mid;
        }
      }
      return lo;
    }

    method InsertSortedNode(node: Contact, pinged: bool)
      requires SortedByDist(sorted)
      modifies this`sorted
      ensures exists i: nat :: SearchAnswer(old(sorted), Distance(env, node), i)
                       && sorted == InsertAt(old(sorted), Entry(Distance(env, node), node, pinged), i)
      ensures SortedByDist(sorted)
    {
      var dist := Xor(env.target, node.id);
      var i := Search(dist);
      if i < |sorted| && sorted[i].dist == dist {
        if sorted[i].node != node {
          sorted := sorted[..i] + [Entry(dist, node, pinged)] + sorted[i..];
        }
      } else {
        sorted := sorted[..i] + [Entry(dist, node, pinged)] + sorted[i..];
      }
      InsertKeepsSorted(old(sorted), Entry(dist, node, pinged), i);
      assert SearchAnswer(old(sorted), Distance(env, node), i);
    }

    method MergeNodes(nodes: seq<Contact>, picks: seq<Pick>)
      requires SortedByDist(sorted)
      modifies this`sorted
      ensures InsertedAll(old(sorted), EntriesFor(env, nodes, picks), sorted)
      ensures SortedByDist(sorted)
    {
      hide Less, InsertedAll, SearchAnswer, InsertAt, SortedByDist;
      ghost var es := EntriesFor(env, nodes, picks);
      InsertedNone(sorted);
      for i := 0 to |nodes|
        invariant SortedByDist(sorted)
        invariant InsertedAll(old(sorted), es[..i], sorted)
      {
        ghost var before := sorted;
        var willPing := exists k :: 0 <= k < |picks| && picks[k].node == nodes[i];
        InsertSortedNode(nodes[i], willPing);
        InsertedOneMore(old(sorted), es[..i], before, es[i], sorted);
        assert es[..i + 1] == es[..i] + [es[i]];
      }
      assert es[..|nodes|] == es;
    }

    method StartRequestRound(reqs: seq<Request>) returns (status: LookupStatus)
      modifies this`active, this`drawn, this`sent, this`requested
      ensures (View(), status) == RequestRound(env, old(View()), reqs)
    {
      hide Requests;
      RequestsNone(env, View(), reqs);
      var messagesSent := 0;
      while messagesSent < |reqs|
        invariant 0 <= messagesSent <= |reqs|
        invariant Requests(env, View(), reqs[messagesSent..]) == Requests(env, old(View()), reqs)
      {
        var r := reqs[messagesSent];
        RequestsNext(env, View(), reqs, messagesSent);
        var transId := env.ids(drawn);
        drawn := drawn + 1;
        active := active[transId := r.dist];
        var ok := env.sends(sent);
        sent := sent + 1;
        if !ok {
          return Failed;
        }
        requested := requested + {r.node};
        messagesSent := messagesSent + 1;
      }
      RequestsNone(env, View(), reqs);
      if messagesSent == 0 {
        active := map[];
        status := Completed;
      } else {
        status := Searching;
      }
    }

    method StartEndgameRound() returns (status: LookupStatus)
      requires SortedByDist(sorted)
      modifies this`inEndgame, this`active, this`drawn, this`sent, this`sorted
      ensures (View(), status) == EndgameRound(env, old(View())) && SortedByDist(sorted)
    {
      hide RegisterEndgame, SendEndgame, SortedByDist;
      inEndgame := true;
      status := Searching;
      if !recvValues {
        Register();
        var ok := AskRest();
        if !ok {
          status := Failed;
        }
      }
    }

    method Register()
      modifies this`active, this`drawn
      ensures View() == RegisterEndgame(env, old(View()), 0)
    {
      ghost var start := View();
      for i := 0 to |sorted|
        invariant RegisterEndgame(env, View(), i) == RegisterEndgame(env, start, 0)
      {
        if !sorted[i].pinged {
          var transId := env.ids(drawn);
          drawn := drawn + 1;
          active := active[transId := sorted[i].dist];
        }
      }
    }

    method AskRest() returns (ok: bool)
      requires SortedByDist(sorted)
      modifies this`sent, this`sorted
      ensures (View(), ok) == SendEndgame(env, old(View()), 0) && SortedByDist(sorted)
    {
      hide Less;
      ghost var start := View();
      var i := 0;
      while i < |sorted|
        invariant 0 <= i <= |sorted|
        invariant SendEndgame(env, View(), i) == SendEndgame(env, start, 0)
        invariant SortedByDist(sorted)
        decreases |sorted| - i
      {
        if !sorted[i].pinged {
          ok := env.sends(sent);
          sent := sent + 1;
          if !ok {
            return;
          }
          sorted := sorted[i := sorted[i].(pinged := true)];
        }
        i := i + 1;
      }
      ok := true;
    }

    /** The three slots are filled first, then a closer node replaces the first farther one. */
    method InsertClosestNodes(picks: array<Pick>, node: Contact)
      modifies picks
      ensures picks[..] == InsertClosest(env, old(picks[..]), node)
    {
      hide Less, Distance;
      ghost var was := picks[..];
      var newDistance := Distance(env, node);
      hide InsertClosest;
      InsertFrom(env, was, node, 0);
      assert was[..0] + InsertClosest(env, was, node) == InsertClosest(env, was, node);
      for i := 0 to picks.Length
        invariant picks[..] == was
        invariant InsertClosest(env, was, node) == was[..i] + InsertClosest(env, was[i..], node)
      {
        InsertFrom(env, was, node, i);
        if picks[i].used {
          if Less(newDistance, Distance(env, picks[i].node)) {
            picks[i] := Pick(node, true);
            return;
          }
        } else {
          picks[i] := Pick(node, true);
          return;
        }
      }
      InsertFrom(env, was, node, picks.Length);
    }

    method PickIterateNodes(nodes: seq<Contact>) returns (r: seq<Pick>)
      ensures r == PickIterate(env, nodes)
    {
      var picks := new Pick[ITERATIVE_PICK_NUM](i requires 0 <= i < ITERATIVE_PICK_NUM => NoPicks()[i]);
      assert picks[..] == NoPicks();
      for i := 0 to |nodes|
        invariant fresh(picks) && picks.Length == ITERATIVE_PICK_NUM
        invariant picks[..] == PickIterate(env, nodes[..i])
      {
        InsertClosestNodes(picks, nodes[i]);
        assert nodes[..i + 1][..i] == nodes[..i];
      }
      assert nodes[..|nodes|] == nodes;
      r := picks[..];
    }

    /** The filter, the fold and the picks of one response. */
    method NextRound(distToBeat: ShaHash, info: Info) returns (nextDist: ShaHash, picks: Option<seq<Pick>>)
      ensures nextDist == NextDistance(env, View(), distToBeat, info) && picks == NextPicks(env, View(), distToBeat, info)
    {
      hide Less, Distance, PickIterate, NotRequested, Closest;
      nextDist, picks := distToBeat, None;
      if NodesOf(info).Some? {
        var nodes := NodesOf(info).value;
        var candidates: seq<Contact> := [];
        NoCandidates(env, View(), distToBeat);
        assert nodes[0..] == nodes && [] + NotRequested(View(), nodes) == NotRequested(View(), nodes);
        for i := 0 to |nodes|
          invariant candidates + NotRequested(View(), nodes[i..]) == NotRequested(View(), nodes)
          invariant nextDist == Closest(env, distToBeat, candidates)
        {
          NextCandidate(View(), candidates, nodes, i);
          if nodes[i] !in requested {
            var distance := Distance(env, nodes[i]);
            OneCloser(env, distToBeat, candidates, nodes[i]);
            candidates := candidates + [nodes[i]];
            if Less(distance, nextDist) {
              nextDist := distance;
            }
          }
        }
        assert nodes[|nodes|..] == [] && candidates + [] == candidates;
        if Less(nextDist, distToBeat) {
          var chosen := PickIterateNodes(candidates);
          picks := Some(chosen);
        }
      }
    }

    /** Response, timeout and finish. */
    method RecvResponse(node: Contact, tid: TransactionID, msg: Response) returns (status: LookupStatus)
      requires SortedByDist(sorted)
      modifies this
      ensures ResponseStep(env, old(View()), node, tid, msg, View(), status) && SortedByDist(sorted)
    {
      hide AfterMerge, InsertedAll, NextDistance, NextPicks, EntriesFor, SortedByDist;
      if tid !in active {
        return if inEndgame || active != map[] then Searching else Completed;
      }
      var distToBeat := active[tid];
      active := active - {tid};
      if msg.token.Some? {
        tokens := tokens[node := msg.token.value];
      }
      if msg.info.Values? {
        recvValues := true;
      }
      ghost var s1 := View();
      assert s1 == Accepted(old(View()), node, tid, msg);
      var nextDist, picks := NextRound(distToBeat, msg.info);
      if NodesOf(msg.info).Some? {
        MergeNodes(NodesOf(msg.info).value, if picks.Some? then picks.value else []);
      } else {
        InsertedNone(sorted);
      }
      assert InsertedAll(old(sorted), Merging(env, s1, distToBeat, msg.info), sorted);
      status := NextRounds(nextDist, picks);
      if status == Failed {
        return;
      }
      status := match msg.info
        case Nodes(_) => (if inEndgame || active != map[] then Searching else Completed)
        case Values(v) => ValuesFound(v)
        case Both(_, v) => ValuesFound(v);
    }

    /** The picked nodes are asked, and if nothing is outstanding then, the endgame starts. */
    method NextRounds(nextDist: ShaHash, picks: Option<seq<Pick>>) returns (status: LookupStatus)
      requires SortedByDist(sorted)
      modifies this
      ensures (View(), status) == AfterMerge(env, old(View()), nextDist, picks) && SortedByDist(sorted)
    {
      hide RequestRound, EndgameRound, UsedNodes, RequestAll, SortedByDist;
      status := Searching;
      if !inEndgame {
        if picks.Some? {
          status := StartRequestRound(RequestAll(UsedNodes(picks.value), nextDist));
          if status == Failed {
            return;
          }
        }
        status := Searching;
        if active == map[] {
          status := StartEndgameRound();
        }
      }
    }

    method RecvTimeout(tid: TransactionID) returns (status: LookupStatus)
      requires SortedByDist(sorted)
      modifies this
      ensures (View(), status) == TimeoutResult(env, old(View()), tid) && SortedByDist(sorted)
    {
      if tid in active {
        active := active - {tid};
        if !inEndgame && active == map[] {
          status := StartEndgameRound();
          if status == Failed {
            return;
          }
        }
      }
      status := if inEndgame || active != map[] then Searching else Completed;
    }

    /**
     * Announces to the picked nodes, each with the token it gave, and ends the lookup. All announces are tried; any
     * failed send makes the lookup fail.
     */
    method RecvFinished() returns (announced: seq<(Contact, seq<Byte>)>, status: LookupStatus)
      modifies this`active, this`inEndgame, this`drawn, this`sent
      ensures announced == if willAnnounce then AnnouncePicks(old(View()), 0, ANNOUNCE_PICK_NUM) else []
      ensures FinishedAs(old(View()), announced, View())
      ensures status == if SendsAll(env, old(sent), |announced|) then Completed else Failed
    {
      hide AnnouncePicks;
      announced := [];
      var fatalError := false;
      if willAnnounce {
        announced := NodeAnnounces();
        for i := 0 to |announced|
          invariant sent == old(sent) + i && View() == old(View()).(drawn := old(drawn) + |announced|, sent := sent)
          invariant fatalError <==> !SendsAll(env, old(sent), i)
        {
          if !env.sends(sent) {
            fatalError := true;
          }
          sent := sent + 1;
        }
      }
      active := map[];
      inEndgame := false;
      status := if fatalError then Failed else if inEndgame || active != map[] then Searching else Completed;
    }

    /** The closest nodes with a token, and one id drawn for each. */
    method NodeAnnounces() returns (announced: seq<(Contact, seq<Byte>)>)
      modifies this`drawn
      ensures announced == AnnouncePicks(old(View()), 0, ANNOUNCE_PICK_NUM)
      ensures drawn == old(drawn) + |announced|
    {
      announced := [];
      ghost var s := View();
      var i := 0;
      while i < |sorted| && |announced| < ANNOUNCE_PICK_NUM
        invariant 0 <= i <= |sorted| && |announced| <= ANNOUNCE_PICK_NUM
        invariant drawn == old(drawn) + |announced|
        invariant announced + AnnouncePicks(s, i, ANNOUNCE_PICK_NUM - |announced|) == AnnouncePicks(s, 0, ANNOUNCE_PICK_NUM)
        decreases |sorted| - i
      {
        var node := sorted[i].node;
        if node in tokens {
          drawn := drawn + 1;
          announced := announced + [(node, tokens[node])];
        }
        i := i + 1;
      }
    }
  }

  lemma InsertedNone(a: seq<Entry>)
    ensures InsertedAll(a, [], a)
  {}

  lemma {:induction false} InsertedOneMore(a: seq<Entry>, es: seq<Entry>, b: seq<Entry>, e: Entry, c: seq<Entry>)
    requires InsertedAll(a, es, b) && exists i: nat :: SearchAnswer(b, e.dist, i) && c == InsertAt(b, e, i)
    ensures InsertedAll(a, es + [e], c)
    decreases |es|
  {
    hide Less, InsertAt;
    if es == [] {
      assert (es + [e])[1..] == [];
      var i: nat :| SearchAnswer(b, e.dist, i) && c == InsertAt(b, e, i);
      assert es + [e] == [e];
      assert InsertedAll(InsertAt(a, [e][0], i), [e][1..], c);
    } else {
      var k: nat :| SearchAnswer(a, es[0].dist, k) && InsertedAll(InsertAt(a, es[0], k), es[1..], b);
      InsertedOneMore(InsertAt(a, es[0], k), es[1..], b, e, c);
      assert (es + [e])[1..] == es[1..] + [e] && (es + [e])[0] == es[0];
      assert InsertedAll(InsertAt(a, (es + [e])[0], k), (es + [e])[1..], c);
    }
  }

  // ----- The order of distances

  lemma {:induction false} LessFromTotal(a: ShaHash, b: ShaHash, i: nat)
    requires i <= SHA_HASH_LEN
    ensures LessFrom(a, b, i) || LessFrom(b, a, i) || a[i..] == b[i..]
    ensures !(LessFrom(a, b, i) && LessFrom(b, a, i))
    ensures LessFrom(a, b, i) ==> a[i..] != b[i..]
    decreases SHA_HASH_LEN - i
  {
    if i < SHA_HASH_LEN {
      LessFromTotal(a, b, i + 1);
      assert a[i..] == [a[i]] + a[i + 1..] && b[i..] == [b[i]] + b[i + 1..];
    }
  }

  lemma LessTotal(a: ShaHash, b: ShaHash)
    ensures Less(a, b) || Less(b, a) || a == b
    ensures !(Less(a, b) && Less(b, a)) && (Less(a, b) ==> a != b)
  {
    LessFromTotal(a, b, 0);
    assert a[0..] == a && b[0..] == b;
  }

  lemma {:induction false} LessFromTransitive(a: ShaHash, b: ShaHash, c: ShaHash, i: nat)
    requires i <= SHA_HASH_LEN && LessFrom(a, b, i) && LessFrom(b, c, i)
    ensures LessFrom(a, c, i)
    decreases SHA_HASH_LEN - i
  {
    if a[i] == b[i] == c[i] {
      LessFromTransitive(a, b, c, i + 1);
    }
  }

  lemma NotLessThenLess(m: ShaHash, a: ShaHash, b: ShaHash)
    requires !Less(m, a) && Less(m, b)
    ensures Less(a, b)
  {
    LessTotal(m, a);
    if Less(a, m) {
      LessFromTransitive(a, m, b, 0);
    }
  }

  lemma LessThenNotLess(b: ShaHash, m: ShaHash, a: ShaHash)
    requires Less(b, m) && !Less(a, m)
    ensures Less(b, a)
  {
    LessTotal(a, m);
    if Less(m, a) {
      LessFromTransitive(b, m, a, 0);
    }
  }

  lemma InsertKeepsSorted(es: seq<Entry>, e: Entry, i: nat)
    requires SortedByDist(es) && SearchAnswer(es, e.dist, i)
    ensures SortedByDist(InsertAt(es, e, i))
  {
    hide Less;
    var r := InsertAt(es, e, i);
    if r != es {
      forall j | 0 <= j < i ensures !Less(e.dist, es[j].dist) {
        LessTotal(es[j].dist, e.dist);
      }
      forall j | i <= j < |es| ensures !Less(es[j].dist, e.dist) {
        LessTotal(es[j].dist, e.dist);
      }
    }
  }
}
