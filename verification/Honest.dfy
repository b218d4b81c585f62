/** Honest revelation: what a peer has been told since it connected is what we have. */
module Honest {
  import opened Wrappers
  import opened Sha
  import opened BitField
  import opened Peers

  datatype Message = SendBitField(peer: PeerInfo, bytes: seq<bv8>) | SendHave(peer: PeerInfo, index: nat)

  datatype PeersInfo = PeersInfo(numPieces: nat, status: seq<bv8>, peers: set<PeerInfo>)

  datatype RevealError =
    | InvalidMetainfoExists(hash: ShaHash)
    | InvalidMetainfoNotExists(hash: ShaHash)
    | InvalidPieceOutOfRange(hash: ShaHash, index: nat)

  datatype Outcome = Done | Failed(error: RevealError) | Panicked

  type Torrents = map<ShaHash, PeersInfo>

  // ----- What a peer has been told

  /** What happens to a connection, in order. */
  datatype Event = Connected(peer: PeerInfo) | Sent(message: Message)

  ghost function Tell(told: set<nat>, e: Event, p: PeerInfo): set<nat> {
    match e
    case Connected(q) => if p == q then {} else told
    case Sent(SendBitField(q, bytes)) => if p == q then told + Announced(bytes) else told
    case Sent(SendHave(q, index)) => if p == q then told + {index} else told
  }

  /** The pieces sent to a peer since it last connected. */
  ghost function Told(log: seq<Event>, p: PeerInfo): set<nat> {
    if log == [] then {} else Tell(Told(log[..|log| - 1], p), log[|log| - 1], p)
  }

  lemma ToldNext(log: seq<Event>, e: Event, p: PeerInfo)
    ensures Told(log + [e], p) == Tell(Told(log, p), e, p)
  {
    assert (log + [e])[..|log|] == log;
  }

  ghost function Messages(log: seq<Event>): seq<Message> {
    if log == [] then []
    else
      var front := Messages(log[..|log| - 1]);
      match log[|log| - 1]
      case Connected(_) => front
      case Sent(message) => front + [message]
  }

  lemma MessagesNext(log: seq<Event>, e: Event)
    ensures Messages(log + [e]) == Messages(log) + if e.Sent? then [e.message] else []
  {
    assert (log + [e])[..|log|] == log;
  }

  // ----- Honesty

  /** Every peer of the torrent has been told exactly the known pieces, which are pieces of the torrent. */
  ghost predicate TorrentHonest(info: PeersInfo, hash: ShaHash, log: seq<Event>) {
    && (forall p :: p in info.peers ==> p.hash == hash && Told(log, p) == Stored(info.status))
    && (forall i :: i in Stored(info.status) ==> i < info.numPieces)
  }

  ghost predicate AllHonest(torrents: Torrents, log: seq<Event>) {
    forall h :: h in torrents ==> TorrentHonest(torrents[h], h, log)
  }

  ghost predicate OthersHonest(torrents: Torrents, hash: ShaHash, log: seq<Event>) {
    forall h :: h in torrents && h != hash ==> TorrentHonest(torrents[h], h, log)
  }

  /** An event about a peer of one torrent leaves the others honest. */
  lemma OthersKept(torrents: Torrents, hash: ShaHash, log: seq<Event>, e: Event)
    requires OthersHonest(torrents, hash, log)
    requires (if e.Connected? then e.peer else e.message.peer).hash == hash
    ensures OthersHonest(torrents, hash, log + [e])
  {
    hide Told;
    forall h | h in torrents && h != hash ensures TorrentHonest(torrents[h], h, log + [e]) {
      forall p | p in torrents[h].peers ensures Told(log + [e], p) == Stored(torrents[h].status) {
        ToldNext(log, e, p);
      }
    }
  }

  /** A peer that connects and is sent the bit field knows what the others know. */
  lemma ConnectHonest(info: PeersInfo, hash: ShaHash, log: seq<Event>, peer: PeerInfo, bytes: seq<bv8>)
    requires TorrentHonest(info, hash, log) && peer.hash == hash && Announced(bytes) == Stored(info.status)
    ensures TorrentHonest(info.(peers := info.peers + {peer}), hash,
                          log + [Connected(peer)] + [Sent(SendBitField(peer, bytes))])
  {
    hide Told;
    forall p | p in info.peers + {peer}
      ensures Told(log + [Connected(peer)] + [Sent(SendBitField(peer, bytes))], p) == Stored(info.status)
    {
      ToldNext(log, Connected(peer), p);
      ToldNext(log + [Connected(peer)], Sent(SendBitField(peer, bytes)), p);
    }
  }

  /** With nothing known there is nothing to send. */
  lemma ConnectQuietly(info: PeersInfo, hash: ShaHash, log: seq<Event>, peer: PeerInfo)
    requires TorrentHonest(info, hash, log) && peer.hash == hash && Stored(info.status) == {}
    ensures TorrentHonest(info.(peers := info.peers + {peer}), hash, log + [Connected(peer)])
  {
    hide Told;
    forall p | p in info.peers + {peer} ensures Told(log + [Connected(peer)], p) == {} {
      ToldNext(log, Connected(peer), p);
    }
  }

  /** While a new piece is sent round, the peers in `left` have yet to hear of it. */
  ghost predicate Announcing(info: PeersInfo, hash: ShaHash, log: seq<Event>, index: nat, left: set<PeerInfo>) {
    && (forall p :: p in info.peers ==>
          p.hash == hash && Told(log, p) == Stored(info.status) + if p in left then {} else {index})
    && (forall i :: i in Stored(info.status) ==> i < info.numPieces)
  }

  lemma AnnounceOne(info: PeersInfo, hash: ShaHash, log: seq<Event>, index: nat, left: set<PeerInfo>, peer: PeerInfo)
    requires Announcing(info, hash, log, index, left) && peer in left
    ensures Announcing(info, hash, log + [Sent(SendHave(peer, index))], index, left - {peer})
  {
    hide Told;
    forall p | p in info.peers
      ensures Told(log + [Sent(SendHave(peer, index))], p) ==
              Stored(info.status) + if p in left - {peer} then {} else {index}
    {
      ToldNext(log, Sent(SendHave(peer, index)), p);
    }
  }

  lemma AnnouncedAll(info: PeersInfo, hash: ShaHash, log: seq<Event>, index: nat)
    requires Announcing(info, hash, log, index, {}) && index < info.numPieces
    ensures TorrentHonest(info.(status := Inserted(info.status, index)), hash, log)
  {
    hide Told, Stored, Inserted;
    InsertedStores(info.status, index);
  }

  /** Nobody has been told of a new piece; those told of a known one lose nothing. */
  lemma NobodyTold(info: PeersInfo, hash: ShaHash, log: seq<Event>, index: nat)
    requires TorrentHonest(info, hash, log)
    ensures Announcing(info, hash, log, index, info.peers)
  {}

  /** The same torrents with the same pieces; only the peers of one may differ. */
  predicate SameBut(after: Torrents, before: Torrents, hash: ShaHash) {
    && hash in before && after.Keys == before.Keys
    && after[hash].numPieces == before[hash].numPieces && after[hash].status == before[hash].status
    && forall h :: h in before && h != hash ==> after[h] == before[h]
  }

  function WithPeer(torrents: Torrents, peer: PeerInfo): Torrents
    requires peer.hash in torrents
  {
    var info := torrents[peer.hash];
    torrents[peer.hash := info.(peers := info.peers + {peer})]
  }

  function WithoutPeer(torrents: Torrents, peer: PeerInfo): Torrents
    requires peer.hash in torrents
  {
    var info := torrents[peer.hash];
    torrents[peer.hash := info.(peers := info.peers - {peer})]
  }

  function WithPiece(torrents: Torrents, hash: ShaHash, index: nat): Torrents
    requires hash in torrents
  {
    var info := torrents[hash];
    torrents[hash := info.(status := Inserted(info.status, index))]
  }

  // ----- Every run

  datatype State = State(torrents: Torrents, log: seq<Event>)

  /** The calls that change something; a bit field as sent, and the order in which peers are told of a piece. */
  datatype Action =
    | NewTorrent(hash: ShaHash, numPieces: nat)
    | DropTorrent(hash: ShaHash)
    | Join(peer: PeerInfo, bytes: seq<bv8>)
    | Part(peer: PeerInfo)
    | Reveal(hash: ShaHash, index: nat, order: seq<PeerInfo>)

  /** Each peer once, in some order. */
  ghost predicate IsOrder(order: seq<PeerInfo>, peers: set<PeerInfo>) {
    && (forall p :: p in order <==> p in peers)
    && (forall i, j :: 0 <= i < j < |order| ==> order[i] != order[j])
  }

  ghost predicate Enabled(s: State, a: Action) {
    match a
    case NewTorrent(h, _) => h !in s.torrents
    case DropTorrent(h) => h in s.torrents
    case Join(p, bytes) => p.hash in s.torrents && Announced(bytes) == Stored(s.torrents[p.hash].status)
    case Part(p) => p.hash in s.torrents
    case Reveal(h, index, order) =>
      h in s.torrents && index < s.torrents[h].numPieces && IsOrder(order, s.torrents[h].peers)
  }

  ghost function Haves(order: seq<PeerInfo>, index: nat): seq<Event> {
    if order == [] then [] else Haves(order[..|order| - 1], index) + [Sent(SendHave(order[|order| - 1], index))]
  }

  function HaveMessages(order: seq<PeerInfo>, index: nat): (r: seq<Message>)
    ensures |r| == |order| && forall k :: 0 <= k < |order| ==> r[k] == SendHave(order[k], index)
  {
    seq(|order|, k requires 0 <= k < |order| => SendHave(order[k], index))
  }

  lemma HavesNext(log: seq<Event>, order: seq<PeerInfo>, index: nat, peer: PeerInfo)
    ensures log + Haves(order + [peer], index) == log + Haves(order, index) + [Sent(SendHave(peer, index))]
  {
    assert (order + [peer])[..|order|] == order;
  }

  ghost function Apply(s: State, a: Action): State
    requires Enabled(s, a)
  {
    match a
    case NewTorrent(h, n) => s.(torrents := s.torrents[h := PeersInfo(n, [], {})])
    case DropTorrent(h) => s.(torrents := s.torrents - {h})
    case Join(p, bytes) =>
      var connected := s.log + [Connected(p)];
      State(WithPeer(s.torrents, p),
            if Stored(s.torrents[p.hash].status) == {} then connected else connected + [Sent(SendBitField(p, bytes))])
    case Part(p) => s.(torrents := WithoutPeer(s.torrents, p))
    case Reveal(h, index, order) => State(WithPiece(s.torrents, h, index), s.log + Haves(order, index))
  }

  lemma JoinHonest(s: State, peer: PeerInfo, bytes: seq<bv8>)
    requires AllHonest(s.torrents, s.log) && Enabled(s, Join(peer, bytes))
    ensures AllHonest(Apply(s, Join(peer, bytes)).torrents, Apply(s, Join(peer, bytes)).log)
  {
    hide Told, Stored, TorrentHonest;
    var hash := peer.hash;
    var info := s.torrents[hash];
    assert TorrentHonest(info, hash, s.log);
    OthersKept(s.torrents, hash, s.log, Connected(peer));
    if Stored(info.status) == {} {
      ConnectQuietly(info, hash, s.log, peer);
    } else {
      ConnectHonest(info, hash, s.log, peer, bytes);
      OthersKept(s.torrents, hash, s.log + [Connected(peer)], Sent(SendBitField(peer, bytes)));
    }
  }

  /** While a piece goes round, the peers not yet told of it. */
  ghost function Untold(peers: set<PeerInfo>, told: seq<PeerInfo>): set<PeerInfo> {
    set p | p in peers && p !in told
  }

  lemma {:induction false} RevealPart(s: State, hash: ShaHash, index: nat, order: seq<PeerInfo>)
    requires AllHonest(s.torrents, s.log) && hash in s.torrents
    requires (forall p :: p in order ==> p in s.torrents[hash].peers) && (forall i, j :: 0 <= i < j < |order| ==> order[i] != order[j])
    ensures Announcing(s.torrents[hash], hash, s.log + Haves(order, index), index, Untold(s.torrents[hash].peers, order))
    ensures OthersHonest(s.torrents, hash, s.log + Haves(order, index))
  {
    hide Told, Stored, TorrentHonest, Announcing;
    var info := s.torrents[hash];
    if order == [] {
      assert TorrentHonest(info, hash, s.log);
      NobodyTold(info, hash, s.log, index);
      assert s.log + [] == s.log && Untold(info.peers, order) == info.peers;
    } else {
      var n := |order| - 1;
      var front, peer := order[..n], order[n];
      RevealPart(s, hash, index, front);
      PeerOfTorrent(s, hash, peer);
      var log, e := s.log + Haves(front, index), Sent(SendHave(peer, index));
      AnnounceOne(info, hash, log, index, Untold(info.peers, front), peer);
      OthersKept(s.torrents, hash, log, e);
      assert s.log + Haves(order, index) == log + [e];
      assert order == front + [peer];
      assert Untold(info.peers, order) == Untold(info.peers, front) - {peer};
    }
  }

  lemma PeerOfTorrent(s: State, hash: ShaHash, p: PeerInfo)
    requires AllHonest(s.torrents, s.log) && hash in s.torrents && p in s.torrents[hash].peers
    ensures p.hash == hash
  {
    assert TorrentHonest(s.torrents[hash], hash, s.log);
  }

  lemma ApplyHonest(s: State, a: Action)
    requires AllHonest(s.torrents, s.log) && Enabled(s, a)
    ensures AllHonest(Apply(s, a).torrents, Apply(s, a).log)
  {
    match a
    case NewTorrent(h, n) =>
      NothingStored();
    case DropTorrent(h) =>
    case Join(p, bytes) =>
      JoinHonest(s, p, bytes);
    case Part(p) =>
    case Reveal(h, index, order) =>
      hide Told, Stored, Inserted, Announcing, Haves;
      RevealPart(s, h, index, order);
      assert Untold(s.torrents[h].peers, order) == {};
      AnnouncedAll(s.torrents[h], h, s.log + Haves(order, index), index);
  }

  lemma NothingStored()
    ensures Stored([]) == {}
  {}

  lemma NothingAnnounced()
    ensures Announced([]) == {}
  {}

  ghost predicate IsRun(states: seq<State>, actions: seq<Action>) {
    && |states| == |actions| + 1
    && states[0] == State(map[], [])
    && forall i :: 0 <= i < |actions| ==> StepsTo(states[i], actions[i], states[i + 1])
  }

  ghost predicate StepsTo(s: State, a: Action, t: State) {
    Enabled(s, a) && t == Apply(s, a)
  }

  lemma {:induction false} RunHonest(states: seq<State>, actions: seq<Action>, i: nat)
    requires IsRun(states, actions) && i < |states|
    ensures AllHonest(states[i].torrents, states[i].log)
  {
    hide AllHonest, Enabled, Apply;
    if i == 0 {
      StartHonest();
    } else {
      RunHonest(states, actions, i - 1);
      assert StepsTo(states[i - 1], actions[i - 1], states[i]);
      ApplyHonest(states[i - 1], actions[i - 1]);
    }
  }

  lemma StartHonest()
    ensures AllHonest(map[], [])
  {}

  /** In every run, a connected peer has been told exactly the torrent's known pieces since it connected. */
  lemma RunTellsAll(states: seq<State>, actions: seq<Action>, i: nat, peer: PeerInfo)
    requires IsRun(states, actions) && i < |states|
    requires peer.hash in states[i].torrents && peer in states[i].torrents[peer.hash].peers
    ensures Told(states[i].log, peer) == Stored(states[i].torrents[peer.hash].status)
  {
    RunHonest(states, actions, i);
    assert TorrentHonest(states[i].torrents[peer.hash], peer.hash, states[i].log);
  }

  class HonestRevealModule {
    var torrents: Torrents
    var outQueue: seq<Message>
    var outBytes: seq<bv8>
    ghost var log: seq<Event>
    ghost var polled: nat

    ghost function Value(): State
      reads this
    {
      State(torrents, log)
    }

    /** Honest, and the queue holds the messages not yet taken, in order. */
    ghost predicate Valid()
      reads this
    {
      AllHonest(torrents, log) && Queued() && outBytes == []
    }

    ghost predicate Queued()
      reads this
    {
      polled <= |Messages(log)| && outQueue == Messages(log)[polled..]
    }

    constructor ()
      ensures Valid() && torrents == map[] && log == []
    {
      torrents, outQueue, outBytes, log, polled := map[], [], [], [], 0;
    }

    method AddTorrent(hash: ShaHash, numPieces: nat) returns (r: Outcome)
      requires Valid()
      modifies `torrents
      ensures Valid()
      ensures r == if hash in old(torrents) then Failed(InvalidMetainfoExists(hash)) else Done
      ensures Value() == if r == Done then Apply(old(Value()), NewTorrent(hash, numPieces)) else old(Value())
      ensures r == Done ==> torrents == old(torrents)[hash := PeersInfo(numPieces, [], {})]
    {
      if hash in torrents {
        return Failed(InvalidMetainfoExists(hash));
      }
      ApplyHonest(Value(), NewTorrent(hash, numPieces));
      torrents := torrents[hash := PeersInfo(numPieces, [], {})];
      r := Done;
    }

    method RemoveTorrent(hash: ShaHash) returns (r: Outcome)
      requires Valid()
      modifies `torrents
      ensures Valid()
      ensures r == if hash in old(torrents) then Done else Failed(InvalidMetainfoNotExists(hash))
      ensures Value() == if r == Done then Apply(old(Value()), DropTorrent(hash)) else old(Value())
      ensures torrents == old(torrents) - {hash}
    {
      if hash !in torrents {
        return Failed(InvalidMetainfoNotExists(hash));
      }
      ApplyHonest(Value(), DropTorrent(hash));
      torrents := torrents - {hash};
      r := Done;
    }

    ghost method Connect(peer: PeerInfo)
      requires Queued()
      modifies `log
      ensures Queued() && log == old(log) + [Connected(peer)]
    {
      MessagesNext(log, Connected(peer));
      log := log + [Connected(peer)];
    }

    method Send(message: Message)
      requires Queued()
      modifies `log, `outQueue
      ensures Queued() && log == old(log) + [Sent(message)] && outQueue == old(outQueue) + [message]
    {
      MessagesNext(log, Sent(message));
      log := log + [Sent(message)];
      outQueue := outQueue + [message];
    }

    /** The peer is sent all that is known as one bit field, or nothing if nothing is. */
    method AddPeer(peer: PeerInfo) returns (r: Outcome)
      requires Valid()
      modifies this
      ensures Valid() && polled == old(polled)
      ensures r == if peer.hash in old(torrents) then Done else Failed(InvalidMetainfoNotExists(peer.hash))
      ensures if r == Done then
                exists bytes :: Enabled(old(Value()), Join(peer, bytes)) && Value() == Apply(old(Value()), Join(peer, bytes))
              else Value() == old(Value())
      ensures r == Done ==> SameBut(torrents, old(torrents), peer.hash)
      ensures r == Done ==> forall p :: p in torrents[peer.hash].peers <==> p in old(torrents)[peer.hash].peers || p == peer
      ensures r == Done && Stored(torrents[peer.hash].status) != {} ==>
                |outQueue| == |old(outQueue)| + 1 && outQueue[..|old(outQueue)|] == old(outQueue) &&
                var m := outQueue[|old(outQueue)|];
                m.SendBitField? && m.peer == peer && Announced(m.bytes) == Stored(torrents[peer.hash].status)
      ensures !(r == Done && Stored(torrents[peer.hash].status) != {}) ==> outQueue == old(outQueue)
    {
      hide Stored, AllHonest, Messages;
      if peer.hash !in torrents {
        return Failed(InvalidMetainfoNotExists(peer.hash));
      }
      var status := torrents[peer.hash].status;
      EmptyStoresNothing(status);
      NothingAnnounced();
      ghost var sent: seq<bv8> := [];
      Connect(peer);
      if !IsEmpty(status) {
        outBytes := InsertReversedBits(outBytes, status);
        assert outBytes[0..] == outBytes;
        var bytes := outBytes;
        outBytes := [];
        sent := bytes;
        Send(SendBitField(peer, bytes));
      }
      torrents := WithPeer(torrents, peer);
      ApplyHonest(old(Value()), Join(peer, sent));
      assert Value() == Apply(old(Value()), Join(peer, sent));
      r := Done;
    }

    method RemovePeer(peer: PeerInfo) returns (r: Outcome)
      requires Valid()
      modifies `torrents
      ensures Valid()
      ensures r == if peer.hash in old(torrents) then Done else Failed(InvalidMetainfoNotExists(peer.hash))
      ensures Value() == if r == Done then Apply(old(Value()), Part(peer)) else old(Value())
      ensures r == Done ==> SameBut(torrents, old(torrents), peer.hash)
      ensures r == Done ==> forall p :: p in torrents[peer.hash].peers <==> p in old(torrents)[peer.hash].peers && p != peer
    {
      if peer.hash !in torrents {
        return Failed(InvalidMetainfoNotExists(peer.hash));
      }
      ApplyHonest(Value(), Part(peer));
      torrents := WithoutPeer(torrents, peer);
      r := Done;
    }

    /** Every peer is sent the piece, in some order, and then the piece is known. */
    method InsertPiece(hash: ShaHash, index: nat) returns (r: Outcome)
      requires Valid()
      modifies this
      ensures Valid() && polled == old(polled)
      ensures r == (if hash !in old(torrents) then Failed(InvalidMetainfoNotExists(hash))
                    else if index >= old(torrents)[hash].numPieces then Failed(InvalidPieceOutOfRange(hash, index))
                    else if index >= MAX_PIECES && old(torrents)[hash].peers != {} then Panicked
                    else Done)
      ensures if r == Done then
                exists order :: Enabled(old(Value()), Reveal(hash, index, order)) &&
                                Value() == Apply(old(Value()), Reveal(hash, index, order))
                                && outQueue == old(outQueue) + HaveMessages(order, index)
              else Value() == old(Value()) && outQueue == old(outQueue)
      ensures r == Done ==>
                && Stored(torrents[hash].status) == Stored(old(torrents)[hash].status) + {index}
                && torrents == old(torrents)[hash := old(torrents)[hash].(status := torrents[hash].status)]
    {
      hide AllHonest, Messages, Inserted, Stored;
      if hash !in torrents {
        return Failed(InvalidMetainfoNotExists(hash));
      }
      var info := torrents[hash];
      if index >= info.numPieces {
        return Failed(InvalidPieceOutOfRange(hash, index));
      }
      if index >= MAX_PIECES && info.peers != {} {
        return Panicked;
      }
      var left := info.peers;
      ghost var order: seq<PeerInfo> := [];
      assert log + [] == log;
      while left != {}
        invariant torrents == old(torrents) && polled == old(polled) && outBytes == [] && Queued()
        invariant log == old(log) + Haves(order, index) && outQueue == old(outQueue) + HaveMessages(order, index)
        invariant forall p :: p in info.peers <==> p in left || p in order
        invariant forall p :: p in order ==> p !in left
        invariant forall i, j :: 0 <= i < j < |order| ==> order[i] != order[j]
      {
        var peer :| peer in left;
        Send(SendHave(peer, index));
        HavesNext(old(log), order, index, peer);
        order := order + [peer];
        left := left - {peer};
      }
      torrents := WithPiece(torrents, hash, index);
      InsertedStores(info.status, index);
      ApplyHonest(old(Value()), Reveal(hash, index, order));
      assert Value() == Apply(old(Value()), Reveal(hash, index, order));
      r := Done;
    }

    method PollNextMessage() returns (r: Option<Message>)
      requires Valid()
      modifies this
      ensures Valid() && torrents == old(torrents) && log == old(log)
      ensures r == if old(polled) < |Messages(log)| then Some(Messages(log)[old(polled)]) else None
      ensures polled == old(polled) + if r.Some? then 1 else 0
    {
      if outQueue == [] {
        return None;
      }
      r := Some(outQueue[0]);
      outQueue := outQueue[1..];
      polled := polled + 1;
    }
  }
}
