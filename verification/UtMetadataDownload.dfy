/** The metadata module itself: its maps and requests, updated in place. */
module UtMetadataDownload {
  import opened Wrappers
  import opened Bytes
  import opened Sha
  import opened Sums
  import opened Peers
  import opened UtMetadata

  // ----- A tick

  /** From request k on, those with less than `duration` left time out. */
  ghost function Swept(s: State, k: nat, duration: nat): State
    requires Inv(s) && k <= |s.requests|
    decreases |s.requests| - k
  {
    if k == |s.requests| then s
    else if s.requests[k].left < duration then ExpiredInv(s, k); Swept(Expired(s, k), k, duration)
    else Swept(s, k + 1, duration)
  }

  function Unexpired(requests: seq<ActiveRequest>, duration: nat): seq<ActiveRequest> {
    if requests == [] then []
    else (if requests[0].left < duration then [] else [requests[0]]) + Unexpired(requests[1..], duration)
  }

  /** The same downloads, with as much left and the same bytes. */
  ghost predicate SameDownloads(p: Pending, q: Pending) {
    p.Keys == q.Keys && forall h :: h in p ==> SameDownload(p[h], q[h])
  }

  predicate SameDownload(p: Option<PendingInfo>, q: Option<PendingInfo>) {
    (p.None? && q.None?) || (p.Some? && q.Some? && p.value.left == q.value.left && p.value.bytes == q.value.bytes)
  }

  /** A request to the peer has less than `duration` left. */
  predicate TimedOut(requests: seq<ActiveRequest>, p: PeerInfo, duration: nat) {
    exists k :: 0 <= k < |requests| && requests[k].sentTo == p && requests[k].left < duration
  }

  /** The same size, and all the peers but those with a request that timed out. */
  ghost predicate EntrySwept(before: ActivePeers, after: ActivePeers, requests: seq<ActiveRequest>, duration: nat) {
    && before.metadataSize == after.metadataSize
    && forall p :: p in after.peers <==> p in before.peers && !TimedOut(requests, p, duration)
  }

  ghost predicate PeersSwept(before: map<ShaHash, ActivePeers>, after: map<ShaHash, ActivePeers>,
                             requests: seq<ActiveRequest>, duration: nat) {
    before.Keys == after.Keys && forall h :: h in before ==> EntrySwept(before[h], after[h], requests, duration)
  }

  lemma TimedOutNext(requests: seq<ActiveRequest>, k: nat, p: PeerInfo, duration: nat)
    requires k < |requests|
    ensures TimedOut(requests[k..], p, duration) <==>
            (requests[k].sentTo == p && requests[k].left < duration) || TimedOut(requests[k + 1..], p, duration)
  {
    var now, later := requests[k..], requests[k + 1..];
    assert now[0] == requests[k];
    if i :| 0 <= i < |now| && now[i].sentTo == p && now[i].left < duration && i > 0 {
      assert later[i - 1] == now[i];
    }
    if i :| 0 <= i < |later| && later[i].sentTo == p && later[i].left < duration {
      assert now[i + 1] == later[i];
    }
  }

  lemma SweptPeersNone(peers: map<ShaHash, ActivePeers>, duration: nat)
    ensures PeersSwept(peers, peers, [], duration)
  {}

  lemma SweptPeersOne(s: State, k: nat, after: map<ShaHash, ActivePeers>, duration: nat)
    requires PeersInv(s.peers) && k < |s.requests| && s.requests[k].left < duration
    requires PeersSwept(PeersWithout(s.peers, s.requests[k].sentTo), after, s.requests[k + 1..], duration)
    ensures PeersSwept(s.peers, after, s.requests[k..], duration)
  {
    hide TimedOut;
    forall h | h in s.peers ensures EntrySwept(s.peers[h], after[h], s.requests[k..], duration) {
      assert EntrySwept(PeersWithout(s.peers, s.requests[k].sentTo)[h], after[h], s.requests[k + 1..], duration);
      forall p ensures p in after[h].peers <==> p in s.peers[h].peers && !TimedOut(s.requests[k..], p, duration) {
        TimedOutNext(s.requests, k, p, duration);
      }
    }
  }

  lemma SweptPeersSkip(s: State, k: nat, after: map<ShaHash, ActivePeers>, duration: nat)
    requires k < |s.requests| && s.requests[k].left >= duration && PeersSwept(s.peers, after, s.requests[k + 1..], duration)
    ensures PeersSwept(s.peers, after, s.requests[k..], duration)
  {
    hide TimedOut;
    forall h | h in s.peers ensures EntrySwept(s.peers[h], after[h], s.requests[k..], duration) {
      assert EntrySwept(s.peers[h], after[h], s.requests[k + 1..], duration);
      forall p ensures p in after[h].peers <==> p in s.peers[h].peers && !TimedOut(s.requests[k..], p, duration) {
        TimedOutNext(s.requests, k, p, duration);
      }
    }
  }

  lemma {:induction false} SweptPeers(s: State, k: nat, duration: nat)
    requires Inv(s) && k <= |s.requests|
    ensures PeersSwept(s.peers, Swept(s, k, duration).peers, s.requests[k..], duration)
    decreases |s.requests| - k
  {
    hide Inv, PeersSwept;
    if k == |s.requests| {
      assert s.requests[k..] == [];
      SweptPeersNone(s.peers, duration);
    } else if s.requests[k].left < duration {
      ExpiredInv(s, k);
      ExpiredSame(s, k);
      PeersAre(s);
      var t := Expired(s, k);
      SweptPeers(t, k, duration);
      assert t.requests[k..] == s.requests[k + 1..];
      SweptPeersOne(s, k, Swept(s, k, duration).peers, duration);
    } else {
      SweptPeers(s, k + 1, duration);
      SweptPeersSkip(s, k, Swept(s, k, duration).peers, duration);
    }
  }

  lemma PeersAre(s: State)
    requires Inv(s)
    ensures PeersInv(s.peers)
  {}

  /** A sweep keeps exactly the unexpired requests and loses no piece. */
  lemma {:induction false} SweptKeeps(s: State, k: nat, duration: nat)
    requires Inv(s) && k <= |s.requests|
    ensures Inv(Swept(s, k, duration)) && Swept(s, k, duration).got == s.got
    ensures SameDownloads(s.pending, Swept(s, k, duration).pending)
    ensures Swept(s, k, duration).requests == s.requests[..k] + Unexpired(s.requests[k..], duration)
    decreases |s.requests| - k
  {
    hide Inv, Expired, SameDownload, Unexpired;
    UnexpiredStep(s.requests, k, duration);
    if k == |s.requests| {
      SameReflexive(s.pending);
    } else if s.requests[k].left < duration {
      ExpiredInv(s, k);
      ExpiredSame(s, k);
      var t := Expired(s, k);
      SweptKeeps(t, k, duration);
      SameTransitive(s.pending, t.pending, Swept(t, k, duration).pending);
    } else {
      SweptKeeps(s, k + 1, duration);
    }
  }

  lemma UnexpiredStep(requests: seq<ActiveRequest>, k: nat, duration: nat)
    requires k <= |requests|
    ensures k == |requests| ==> requests[..k] + Unexpired(requests[k..], duration) == requests
    ensures k < |requests| && requests[k].left < duration ==>
              var rest := requests[..k] + requests[k + 1..];
              rest[..k] + Unexpired(rest[k..], duration) == requests[..k] + Unexpired(requests[k..], duration)
    ensures k < |requests| && requests[k].left >= duration ==>
              requests[..k + 1] + Unexpired(requests[k + 1..], duration) ==
              requests[..k] + Unexpired(requests[k..], duration)
  {
    if k < |requests| {
      assert requests[k..][1..] == requests[k + 1..];
      var rest := requests[..k] + requests[k + 1..];
      assert rest[..k] == requests[..k] && rest[k..] == requests[k + 1..];
      assert requests[..k + 1] == requests[..k] + [requests[k]];
    }
  }

  lemma SameReflexive(p: Pending)
    ensures SameDownloads(p, p)
  {}

  lemma SameTransitive(p: Pending, q: Pending, r: Pending)
    requires SameDownloads(p, q) && SameDownloads(q, r)
    ensures SameDownloads(p, r)
  {}

  lemma ExpiredSame(s: State, k: nat)
    requires Inv(s) && k < |s.requests|
    ensures Initialised(s, s.requests[k].sentTo.hash)
    ensures Expired(s, k).got == s.got && SameDownloads(s.pending, Expired(s, k).pending)
    ensures Expired(s, k).requests == s.requests[..k] + s.requests[k + 1..]
  {}

  function Older(r: ActiveRequest, duration: nat): ActiveRequest
    requires duration <= r.left
  {
    r.(left := r.left - duration)
  }

  lemma {:induction false} UnexpiredLeft(requests: seq<ActiveRequest>, duration: nat)
    ensures forall k :: 0 <= k < |Unexpired(requests, duration)| ==> duration <= Unexpired(requests, duration)[k].left
  {
    if requests != [] {
      UnexpiredLeft(requests[1..], duration);
    }
  }

  // ----- Data for a request

  predicate Matches(r: ActiveRequest, info: PeerInfo, piece: int) {
    r.sentTo == info && r.piece == piece
  }

  /** The position of the first request to a peer for a piece. */
  function Position(requests: seq<ActiveRequest>, info: PeerInfo, piece: int): (k: Option<nat>)
    ensures k.None? <==> forall j :: 0 <= j < |requests| ==> !Matches(requests[j], info, piece)
    ensures k.Some? ==> k.value < |requests| && Matches(requests[k.value], info, piece)
    ensures k.Some? ==> forall j :: 0 <= j < k.value ==> !Matches(requests[j], info, piece)
  {
    if requests == [] then None
    else if Matches(requests[0], info, piece) then Some(0)
    else
      match Position(requests[1..], info, piece)
      case None => None
      case Some(k) => Some(k + 1)
  }

  /** The peer is known to have the metadata of its hash. */
  predicate Listed(peers: map<ShaHash, ActivePeers>, p: PeerInfo) {
    p.hash in peers && p in peers[p.hash].peers
  }

  lemma PeerOfHash(s: State, h: ShaHash, p: PeerInfo)
    requires Inv(s) && h in s.peers && p in s.peers[h].peers
    ensures p.hash == h
  {}

  /**
   * The data of request k is in the buffer at its piece's place, one piece less is left, that request is gone, and
   * nothing else changed.
   */
  ghost predicate Taken(s: State, k: nat, data: seq<Byte>, t: State)
    requires k < |s.requests| && Initialised(s, s.requests[k].sentTo.hash)
  {
    var r, h := s.requests[k], s.requests[k].sentTo.hash;
    && Initialised(t, h) && Reads(t.pending[h].value.bytes, r.piece * MAX_REQUEST_SIZE, data)
    && t.pending[h].value.left == s.pending[h].value.left - 1 && t.pending[h].value.messages == s.pending[h].value.messages
    && multiset(t.requests) + multiset{r} == multiset(s.requests)
    && t.peers == s.peers && t.pending.Keys == s.pending.Keys
    && (forall g :: g in s.pending && g != h ==> t.pending[g] == s.pending[g])
    && h in t.got && r.piece in t.got[h] && t.got[h][r.piece] == data
  }

  lemma SwapRemovesOne<T>(s: seq<T>, k: nat)
    requires k < |s|
    ensures multiset(SwapRemoved(s, k)) + multiset{s[k]} == multiset(s)
  {
    var n := |s| - 1;
    assert s == s[..n] + [s[n]];
    assert s[..n] == if k < n then s[..k] + [s[k]] + s[k + 1..n] else s[..n];
    assert SwapRemoved(s, k) == if k < n then s[..k] + [s[n]] + s[k + 1..n] else s[..n];
  }

  lemma DeliveredIsTaken(s: State, k: nat, data: seq<Byte>)
    requires Inv(s) && Enabled(s, Deliver(k, data))
    ensures Taken(s, k, data, Apply(s, Deliver(k, data)))
  {
    hide Inv, Written, SwapRemoved, Reads;
    DeliveredInv(s, k, data);
    SwapRemovesOne(s.requests, k);
    WrittenReads(s.pending[s.requests[k].sentTo.hash].value.bytes, s.requests[k].piece * MAX_REQUEST_SIZE, data, 0, []);
  }

  // ----- A download that begins

  /** Every piece is queued once and nothing of the metadata is there yet. */
  ghost predicate Unstarted(p: PendingInfo, size: nat) {
    && |p.bytes| == size && p.left == |p.messages| == NumPieces(size)
    && forall i: nat :: i in p.messages <==> i < NumPieces(size)
  }

  lemma {:induction false} RangeHas(n: nat, i: nat)
    ensures i in Range(n) <==> i < n
  {
    if n > 0 {
      RangeHas(n - 1, i);
    }
  }

  lemma BeginsUnstarted(size: nat)
    ensures Unstarted(PendingOfSize(size), size)
  {
    hide NumPieces;
    forall i: nat ensures i in PendingOfSize(size).messages <==> i < NumPieces(size) {
      RangeHas(NumPieces(size), i);
    }
  }

  /** Every piece is queued and the buffer is empty. */
  method PendingInfoFromMetadataSize(size: nat) returns (r: PendingInfo)
    ensures r == PendingOfSize(size)
  {
    var numPieces := if size % MAX_REQUEST_SIZE == 0 then size / MAX_REQUEST_SIZE else size / MAX_REQUEST_SIZE + 1;
    var messages: seq<nat> := [];
    for index := 0 to numPieces
      invariant messages == Range(index)
    {
      messages := messages + [index];
    }
    r := PendingInfo(messages, numPieces, Zeros(size));
  }

  // ----- Completed downloads

  /** Some downloads, and what is known of their peers, are gone. */
  ghost function Without(s: State, gone: set<ShaHash>): State {
    s.(pending := s.pending - gone, peers := s.peers - gone)
  }

  lemma WithoutNone(s: State)
    ensures Without(s, {}) == s
  {}

  lemma WithoutMore(s: State, h: ShaHash, gone: set<ShaHash>)
    ensures Without(Without(s, {h}), gone) == Without(s, {h} + gone)
  {
    assert s.pending - {h} - gone == s.pending - ({h} + gone);
    assert s.peers - {h} - gone == s.peers - ({h} + gone);
  }

  /** Complete, but its bytes do not parse. */
  ghost predicate Rejected(s: State, h: ShaHash, parses: seq<Byte> -> bool) {
    Complete(s, h) && !parses(s.pending[h].value.bytes)
  }

  class UtMetadataModule {
    var pendingMap: Pending
    var activePeers: map<ShaHash, ActivePeers>
    var activeRequests: seq<ActiveRequest>
    ghost var got: map<ShaHash, Received>

    ghost function Value(): State
      reads this
    {
      State(pendingMap, activePeers, activeRequests, got)
    }

    constructor ()
      ensures Value() == START && Inv(Value())
    {
      pendingMap, activePeers, activeRequests, got := map[], map[], [], map[];
    }

    method AddPeer(info: PeerInfo, ourSupport: bool, theySupport: bool, metadataSize: Option<int>)
      requires Inv(Value())
      modifies this
      ensures Inv(Value())
      ensures Value() == if ourSupport && theySupport && metadataSize.Some?
                         then Apply(old(Value()), Action.AddPeer(info, metadataSize.value)) else old(Value())
      ensures forall p :: Listed(activePeers, p) <==>
                Listed(old(activePeers), p) || (p == info && ourSupport && theySupport && metadataSize.Some?)
      ensures forall h :: h in old(activePeers) ==> h in activePeers && activePeers[h].metadataSize == old(activePeers)[h].metadataSize
      ensures forall h :: h in activePeers && h !in old(activePeers) ==>
                h == info.hash && metadataSize == Some(activePeers[h].metadataSize)
      ensures pendingMap == old(pendingMap) && activeRequests == old(activeRequests)
    {
      if ourSupport && theySupport && metadataSize.Some? {
        ApplyInv(Value(), Action.AddPeer(info, metadataSize.value));
        var active := if info.hash in activePeers then activePeers[info.hash] else ActivePeers({}, metadataSize.value);
        activePeers := activePeers[info.hash := active.(peers := active.peers + {info})];
      }
    }

    method RemovePeer(info: PeerInfo)
      requires Inv(Value())
      modifies this
      ensures Inv(Value()) && Value() == Apply(old(Value()), Action.RemovePeer(info))
      ensures forall p :: Listed(activePeers, p) <==> Listed(old(activePeers), p) && p != info
      ensures forall h :: h in activePeers ==>
                h in old(activePeers) && activePeers[h].metadataSize == old(activePeers)[h].metadataSize
      ensures forall h :: h in old(activePeers) && h !in activePeers ==> h == info.hash && old(activePeers)[h].peers <= {info}
      ensures info.hash in activePeers ==> activePeers[info.hash].peers != {}
      ensures pendingMap == old(pendingMap) && activeRequests == old(activeRequests)
    {
      ApplyInv(Value(), Action.RemovePeer(info));
      if info.hash in activePeers {
        var active := activePeers[info.hash];
        activePeers := activePeers[info.hash := active.(peers := active.peers - {info})];
        if activePeers[info.hash].peers == {} {
          assert forall p :: p in active.peers && p != info ==> p in active.peers - {info};
          activePeers := activePeers - {info.hash};
        }
      }
    }

    method DownloadMetainfo(hash: ShaHash)
      requires Inv(Value())
      modifies this
      ensures Inv(Value())
      ensures Value() == if hash in old(pendingMap) then old(Value()) else Apply(old(Value()), Download(hash))
      ensures hash in pendingMap && (hash !in old(pendingMap) ==> pendingMap[hash].None?)
      ensures forall h :: h in pendingMap <==> h in old(pendingMap) || h == hash
      ensures forall h :: h in old(pendingMap) ==> pendingMap[h] == old(pendingMap)[h]
    {
      if hash !in pendingMap {
        ApplyInv(Value(), Download(hash));
        pendingMap := pendingMap[hash := None];
      }
    }

    /** Expired requests are requeued and their peers dropped; the others grow older. */
    method ApplyTick(duration: nat)
      requires Inv(Value())
      modifies this
      ensures Inv(Value())
      ensures Value().(requests := []) == Swept(old(Value()), 0, duration).(requests := [])
      ensures var live := Unexpired(old(activeRequests), duration);
              |activeRequests| == |live| &&
              forall k :: 0 <= k < |live| ==> duration <= live[k].left && activeRequests[k] == Older(live[k], duration)
      ensures PeersSwept(old(activePeers), activePeers, old(activeRequests), duration)
    {
      hide Inv, Swept, Expired, Unexpired, PeersSwept;
      ghost var s0 := Value();
      SweptPeers(s0, 0, duration);
      assert s0.requests[0..] == s0.requests;
      SweptKeeps(s0, 0, duration);
      UnexpiredLeft(activeRequests, duration);
      Sweep(duration);
      ghost var live := activeRequests;
      assert live == Unexpired(old(activeRequests), duration) by {
        assert s0.requests[..0] + Unexpired(s0.requests[0..], duration) == Unexpired(s0.requests, duration);
      }
      GrowOlder(duration);
    }

    method GrowOlder(duration: nat)
      requires Inv(Value()) && forall k :: 0 <= k < |activeRequests| ==> duration <= activeRequests[k].left
      modifies this`activeRequests
      ensures Inv(Value()) && |activeRequests| == old(|activeRequests|)
      ensures forall k :: 0 <= k < |activeRequests| ==>
                duration <= old(activeRequests)[k].left && activeRequests[k] == Older(old(activeRequests)[k], duration)
    {
      hide Inv;
      ghost var swept, live := Value(), activeRequests;
      for k := 0 to |activeRequests|
        invariant |activeRequests| == |live|
        invariant forall j :: 0 <= j < k ==> activeRequests[j] == Older(live[j], duration)
        invariant forall j :: k <= j < |live| ==> activeRequests[j] == live[j]
      {
        var request := activeRequests[k];
        activeRequests := activeRequests[k := request.(left := request.left - duration)];
      }
      AgedInv(swept, activeRequests);
      assert swept.(requests := activeRequests) == Value();
    }

    method Sweep(duration: nat)
      requires Inv(Value())
      modifies this
      ensures Inv(Value()) && Value() == Swept(old(Value()), 0, duration)
    {
      hide Inv, Expired;
      var k := 0;
      while k < |activeRequests|
        invariant k <= |activeRequests| && Inv(Value())
        invariant Swept(Value(), k, duration) == Swept(old(Value()), 0, duration)
        decreases |activeRequests| - k
      {
        var request := activeRequests[k];
        if request.left < duration {
          ExpiredInv(Value(), k);
          DropRequest(k);
        } else {
          k := k + 1;
        }
      }
    }

    method DropRequest(k: nat)
      requires Inv(Value()) && k < |activeRequests|
      modifies this
      ensures Initialised(old(Value()), old(activeRequests)[k].sentTo.hash)
      ensures Value() == Expired(old(Value()), k) && |activeRequests| == old(|activeRequests|) - 1
    {
      var request := activeRequests[k];
      var hash := request.sentTo.hash;
      assert Initialised(Value(), hash);
      if hash in activePeers {
        activePeers := activePeers[hash := activePeers[hash].(peers := activePeers[hash].peers - {request.sentTo})];
      }
      if hash in pendingMap && pendingMap[hash].Some? {
        var pending := pendingMap[hash].value;
        pendingMap := pendingMap[hash := Some(pending.(messages := pending.messages + [request.piece]))];
      }
      activeRequests := activeRequests[..k] + activeRequests[k + 1..];
    }

    /** Data is taken only for a request in flight; more of it than the buffer has room for panics. */
    method RecvData(info: PeerInfo, piece: int, data: seq<Byte>) returns (panicked: bool)
      requires Inv(Value())
      modifies this
      ensures !panicked ==> Inv(Value())
      ensures match Position(old(activeRequests), info, piece)
              case None => !panicked && Value() == old(Value())
              case Some(k) =>
                && Initialised(old(Value()), info.hash)
                && panicked == !HasRoom(old(Value()), k, data)
                && (!panicked ==> Value() == Apply(old(Value()), Deliver(k, data)))
                && (!panicked ==> Taken(old(Value()), k, data, Value()))
    {
      hide Position;
      panicked := false;
      var k := Find(info, piece);
      if k.Some? {
        assert Initialised(Value(), activeRequests[k.value].sentTo.hash);
        if HasRoom(Value(), k.value, data) {
          ApplyInv(Value(), Deliver(k.value, data));
          DeliveredIsTaken(Value(), k.value, data);
        }
        panicked := Take(k.value, data);
      }
    }

    method Find(info: PeerInfo, piece: int) returns (k: Option<nat>)
      ensures k == Position(activeRequests, info, piece)
    {
      for n := 0 to |activeRequests|
        invariant forall j :: 0 <= j < n ==> !Matches(activeRequests[j], info, piece)
      {
        if Matches(activeRequests[n], info, piece) {
          return Some(n);
        }
      }
      return None;
    }

    method Take(k: nat, data: seq<Byte>) returns (panicked: bool)
      requires Inv(Value()) && k < |activeRequests|
      modifies this
      ensures Initialised(old(Value()), old(activeRequests)[k].sentTo.hash)
      ensures panicked == !HasRoom(old(Value()), k, data)
      ensures !panicked ==> Value() == Apply(old(Value()), Deliver(k, data))
    {
      var request := activeRequests[k];
      var hash := request.sentTo.hash;
      assert Initialised(Value(), hash) && DownloadInv(Value(), hash);
      InFlightIsLeft(pendingMap[hash].value, activeRequests, hash, got[hash], k);
      PieceFits(|pendingMap[hash].value.bytes|, request.piece);
      activeRequests := SwapRemoved(activeRequests, k);
      var pending := pendingMap[hash].value;
      var dataOffset := request.piece * MAX_REQUEST_SIZE;
      pending := pending.(left := pending.left - 1);
      if |data| > |pending.bytes[dataOffset..]| {
        return true;
      }
      pendingMap := pendingMap[hash := Some(pending.(bytes := Written(pending.bytes, dataOffset, data)))];
      ghost var more: Received := got[hash][request.piece := data];
      got := got[hash := more];
      return false;
    }

    method SendRequest(peer: PeerInfo) returns (piece: nat)
      requires Inv(Value()) && Enabled(Value(), Request(peer))
      modifies this
      ensures Inv(Value()) && Value() == Apply(old(Value()), Request(peer))
      ensures activeRequests == old(activeRequests) + [ActiveRequest(REQUEST_TIMEOUT_MILLIS, piece, peer)]
      ensures peer.hash in pendingMap && pendingMap[peer.hash].Some? &&
                pendingMap[peer.hash].value.messages + [piece] == old(pendingMap)[peer.hash].value.messages
    {
      hide Inv;
      ApplyInv(Value(), Request(peer));
      var pending := pendingMap[peer.hash].value;
      piece := pending.messages[|pending.messages| - 1];
      pendingMap := pendingMap[peer.hash := Some(pending.(messages := pending.messages[..|pending.messages| - 1]))];
      activeRequests := activeRequests + [ActiveRequest(REQUEST_TIMEOUT_MILLIS, piece, peer)];
    }

    /** A queued piece of some download goes to one of its peers, unless no download has both. */
    method RetrievePieceRequest() returns (r: Option<(PeerInfo, nat)>)
      requires Inv(Value())
      modifies this
      ensures Inv(Value())
      ensures match r
              case None => Value() == old(Value()) && forall p :: !Enabled(Value(), Request(p))
              case Some((peer, piece)) =>
                && Enabled(old(Value()), Request(peer))
                && Value() == Apply(old(Value()), Request(peer))
                && activeRequests == old(activeRequests) + [ActiveRequest(REQUEST_TIMEOUT_MILLIS, piece, peer)]
                && pendingMap[peer.hash].Some? &&
                   pendingMap[peer.hash].value.messages + [piece] == old(pendingMap)[peer.hash].value.messages
    {
      hide Inv, Apply;
      var todo := pendingMap.Keys;
      while todo != {}
        invariant todo <= pendingMap.Keys && Value() == old(Value())
        invariant forall p: PeerInfo :: p.hash in pendingMap && p.hash !in todo ==> !Enabled(Value(), Request(p))
      {
        var hash :| hash in todo;
        if pendingMap[hash].Some? && pendingMap[hash].value.messages != [] && hash in activePeers && activePeers[hash].peers != {} {
          var peer :| peer in activePeers[hash].peers;
          PeerOfHash(Value(), hash, peer);
          var piece := SendRequest(peer);
          return Some((peer, piece));
        }
        todo := todo - {hash};
      }
      return None;
    }

    /**
     * Completed downloads are removed until one parses; it has every piece, and if all its data had its piece's
     * size it is the pieces in order.
     */
    method RetrieveCompletedDownload(parses: seq<Byte> -> bool)
      returns (r: Option<(ShaHash, seq<Byte>)>, ghost gone: set<ShaHash>)
      requires Inv(Value())
      modifies this
      ensures Inv(Value()) && Value() == Without(old(Value()), gone)
      ensures forall h :: h in gone ==> Rejected(old(Value()), h, parses) || (r.Some? && h == r.value.0)
      ensures match r
              case None => forall h :: !Complete(Value(), h)
              case Some((h, bytes)) =>
                && Complete(old(Value()), h) && bytes == old(pendingMap)[h].value.bytes
                && parses(bytes) && h in gone && h in got
                && (forall i: nat :: i in got[h] <==> i < NumPieces(|bytes|))
                && (AllExact(|bytes|, got[h]) ==> bytes == Concat(got[h], NumPieces(|bytes|)))
      decreases |pendingMap|
    {
      hide Inv, AllExact, Concat, NumPieces;
      WithoutNone(Value());
      if hash :| hash in pendingMap && pendingMap[hash].Some? && pendingMap[hash].value.left == 0 {
        CompleteIsAssembled(Value(), hash);
        var bytes := FinishDownload(hash);
        if parses(bytes) {
          r, gone := Some((hash, bytes)), {hash};
        } else {
          r, gone := RetrieveCompletedDownload(parses);
          WithoutMore(old(Value()), hash, gone);
          gone := {hash} + gone;
        }
      } else {
        r, gone := None, {};
      }
    }

    method FinishDownload(hash: ShaHash) returns (bytes: seq<Byte>)
      requires Inv(Value()) && Complete(Value(), hash)
      modifies this
      ensures Inv(Value()) && Value() == Without(old(Value()), {hash}) && |pendingMap| < |old(pendingMap)|
      ensures bytes == old(pendingMap)[hash].value.bytes
    {
      hide Inv;
      ApplyInv(Value(), Finish(hash));
      bytes := pendingMap[hash].value.bytes;
      assert (pendingMap - {hash}).Keys == pendingMap.Keys - {hash};
      pendingMap := pendingMap - {hash};
      activePeers := activePeers - {hash};
    }

    /** Downloads with peers are begun; a negative size panics. */
    method InitializePending() returns (panicked: bool, available: bool)
      requires Inv(Value())
      modifies this
      ensures Inv(Value()) && activePeers == old(activePeers) && activeRequests == old(activeRequests)
      ensures pendingMap.Keys == old(pendingMap).Keys
      ensures forall h :: h in pendingMap && (old(pendingMap)[h].Some? || h !in activePeers) ==> pendingMap[h] == old(pendingMap)[h]
      ensures !panicked ==> forall h :: h in pendingMap && old(pendingMap)[h].None? && h in activePeers ==>
                activePeers[h].metadataSize >= 0 && pendingMap[h].Some? && Unstarted(pendingMap[h].value, activePeers[h].metadataSize)
      ensures !panicked ==> (available <==> exists h :: Initialised(Value(), h) && pendingMap[h].value.messages != [])
      ensures panicked ==> exists h ::
                h in pendingMap && pendingMap[h].None? && h in activePeers && activePeers[h].metadataSize < 0
    {
      hide Inv, Apply, PendingOfSize, Unstarted;
      available := false;
      ghost var s0 := Value();
      var todo := pendingMap.Keys;
      while todo != {}
        invariant todo <= pendingMap.Keys == old(pendingMap).Keys && Inv(Value())
        invariant activePeers == old(activePeers) && activeRequests == old(activeRequests)
        invariant forall h :: h in pendingMap && (h in todo || s0.pending[h].Some? || h !in activePeers) ==>
                    pendingMap[h] == s0.pending[h]
        invariant forall h :: h in pendingMap && h !in todo && s0.pending[h].None? && h in activePeers ==>
                    && activePeers[h].metadataSize >= 0 && pendingMap[h].Some?
                    && Unstarted(pendingMap[h].value, activePeers[h].metadataSize)
        invariant available <==>
                    exists h :: h in pendingMap && h !in todo && pendingMap[h].Some? && pendingMap[h].value.messages != []
      {
        var hash :| hash in todo;
        if pendingMap[hash].None? && hash in activePeers {
          if activePeers[hash].metadataSize < 0 {
            return true, available;
          }
          BeginDownload(hash);
          BeginsUnstarted(activePeers[hash].metadataSize);
        }
        available := available || (pendingMap[hash].Some? && pendingMap[hash].value.messages != []);
        todo := todo - {hash};
      }
      panicked := false;
    }

    method BeginDownload(hash: ShaHash)
      requires Inv(Value()) && Enabled(Value(), Begin(hash))
      modifies this
      ensures Inv(Value()) && Value() == Apply(old(Value()), Begin(hash))
      ensures pendingMap == old(pendingMap)[hash := Some(PendingOfSize(activePeers[hash].metadataSize))]
      ensures activePeers == old(activePeers) && activeRequests == old(activeRequests)
    {
      hide Inv, PendingOfSize;
      ApplyInv(Value(), Begin(hash));
      var pending := PendingInfoFromMetadataSize(activePeers[hash].metadataSize);
      pendingMap := pendingMap[hash := Some(pending)];
      got := got[hash := map[]];
    }

    method RestartDownload(hash: ShaHash)
      requires Inv(Value()) && Complete(Value(), hash)
      modifies this`pendingMap
      ensures Inv(Value()) && pendingMap == old(pendingMap)[hash := None]
    {
      hide Inv;
      ApplyInv(Value(), Restart(hash));
      pendingMap := pendingMap[hash := None];
    }

    /** Complete downloads whose bytes do not have their hash start over; are there any that do? */
    method ValidateDownloaded(hashOf: seq<Byte> -> ShaHash) returns (available: bool)
      requires Inv(Value())
      modifies this
      ensures Inv(Value()) && activePeers == old(activePeers) && activeRequests == old(activeRequests) && got == old(got)
      ensures pendingMap.Keys == old(pendingMap).Keys
      ensures forall h :: Complete(Value(), h) ==> hashOf(pendingMap[h].value.bytes) == h
      ensures forall h :: Complete(old(Value()), h) && hashOf(old(pendingMap)[h].value.bytes) != h ==> pendingMap[h].None?
      ensures forall h :: h in pendingMap && (Complete(old(Value()), h) ==> hashOf(old(pendingMap)[h].value.bytes) == h) ==>
                pendingMap[h] == old(pendingMap)[h]
      ensures available <==> exists h :: Complete(Value(), h)
    {
      hide Inv;
      available := false;
      ghost var s0 := Value();
      var todo := pendingMap.Keys;
      while todo != {}
        invariant todo <= pendingMap.Keys == old(pendingMap).Keys && Inv(Value())
        invariant activePeers == old(activePeers) && activeRequests == old(activeRequests) && got == old(got)
        invariant forall h :: h !in todo && Complete(s0, h) && hashOf(s0.pending[h].value.bytes) != h ==> pendingMap[h].None?
        invariant forall h :: h in pendingMap && (h in todo || (Complete(s0, h) ==> hashOf(s0.pending[h].value.bytes) == h)) ==>
                    pendingMap[h] == s0.pending[h]
        invariant available <==> exists h :: h !in todo && Complete(Value(), h)
      {
        var hash :| hash in todo;
        if pendingMap[hash].Some? && pendingMap[hash].value.left == 0 {
          if hashOf(pendingMap[hash].value.bytes) == hash {
            assert Complete(Value(), hash);
            available := true;
          } else {
            RestartDownload(hash);
          }
        }
        todo := todo - {hash};
      }
    }
  }
}
