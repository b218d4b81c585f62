/** Honest revelation over whole runs: who is connected, what is known, and who is sent anything. */
module HonestRuns {
  import opened Sha
  import opened BitField
  import opened Peers
  import opened Honest

  // ----- What the calls made so far say

  /** The torrent was added with `n` pieces and not removed since. */
  ghost predicate Open(actions: seq<Action>, h: ShaHash, n: nat) {
    exists k :: 0 <= k < |actions| && actions[k] == NewTorrent(h, n) && NotDropped(actions, k, h)
  }

  ghost predicate NotDropped(actions: seq<Action>, k: nat, h: ShaHash) {
    forall j :: k < j < |actions| ==> actions[j] != DropTorrent(h)
  }

  /** The peer has connected, and since then neither left nor had its torrent removed. */
  ghost predicate Online(actions: seq<Action>, p: PeerInfo) {
    exists k :: 0 <= k < |actions| && JoinOf(actions[k], p) && NotDropped(actions, k, p.hash) && NotParted(actions, k, p)
  }

  predicate JoinOf(a: Action, p: PeerInfo) {
    a.Join? && a.peer == p
  }

  ghost predicate NotParted(actions: seq<Action>, k: nat, p: PeerInfo) {
    forall j :: k < j < |actions| ==> actions[j] != Part(p)
  }

  /** The piece was found good since the torrent was added. */
  ghost predicate Found(actions: seq<Action>, h: ShaHash, x: nat) {
    exists k :: 0 <= k < |actions| && RevealOf(actions[k], h, x) && NotDropped(actions, k, h)
  }

  predicate RevealOf(a: Action, h: ShaHash, x: nat) {
    a.Reveal? && a.hash == h && a.index == x
  }

  lemma NotDroppedNext(actions: seq<Action>, a: Action, k: nat, h: ShaHash)
    requires k < |actions|
    ensures NotDropped(actions + [a], k, h) <==> NotDropped(actions, k, h) && a != DropTorrent(h)
  {
    var more := actions + [a];
    assert more[|actions|] == a && forall j :: 0 <= j < |actions| ==> more[j] == actions[j];
  }

  lemma NotPartedNext(actions: seq<Action>, a: Action, k: nat, p: PeerInfo)
    requires k < |actions|
    ensures NotParted(actions + [a], k, p) <==> NotParted(actions, k, p) && a != Part(p)
  {
    var more := actions + [a];
    assert more[|actions|] == a && forall j :: 0 <= j < |actions| ==> more[j] == actions[j];
  }

  lemma OpenNext(actions: seq<Action>, a: Action, h: ShaHash, n: nat)
    ensures Open(actions + [a], h, n) <==> a == NewTorrent(h, n) || (Open(actions, h, n) && a != DropTorrent(h))
  {
    hide NotDropped;
    var more := actions + [a];
    if k :| 0 <= k < |more| && more[k] == NewTorrent(h, n) && NotDropped(more, k, h) && k < |actions| {
      NotDroppedNext(actions, a, k, h);
      assert actions[k] == NewTorrent(h, n);
    }
    if k :| 0 <= k < |actions| && actions[k] == NewTorrent(h, n) && NotDropped(actions, k, h) && a != DropTorrent(h) {
      NotDroppedNext(actions, a, k, h);
      assert more[k] == NewTorrent(h, n);
    }
    LastIsKept(actions, a);
    assert more[|actions|] == a;
  }

  lemma LastIsKept(actions: seq<Action>, a: Action)
    ensures forall h :: NotDropped(actions + [a], |actions|, h)
    ensures forall p :: NotParted(actions + [a], |actions|, p)
  {}

  lemma OnlineNext(actions: seq<Action>, a: Action, p: PeerInfo)
    ensures Online(actions + [a], p) <==> JoinOf(a, p) || (Online(actions, p) && a != Part(p) && a != DropTorrent(p.hash))
  {
    hide NotDropped, NotParted;
    var more := actions + [a];
    if k :| 0 <= k < |more| && JoinOf(more[k], p) && NotDropped(more, k, p.hash) && NotParted(more, k, p) && k < |actions| {
      NotDroppedNext(actions, a, k, p.hash);
      NotPartedNext(actions, a, k, p);
      assert JoinOf(actions[k], p);
    }
    if k :| 0 <= k < |actions| && JoinOf(actions[k], p) && NotDropped(actions, k, p.hash) && NotParted(actions, k, p)
            && a != Part(p) && a != DropTorrent(p.hash) {
      NotDroppedNext(actions, a, k, p.hash);
      NotPartedNext(actions, a, k, p);
      assert JoinOf(more[k], p);
    }
    LastIsKept(actions, a);
    assert more[|actions|] == a;
  }

  lemma FoundNext(actions: seq<Action>, a: Action, h: ShaHash, x: nat)
    ensures Found(actions + [a], h, x) <==> RevealOf(a, h, x) || (Found(actions, h, x) && a != DropTorrent(h))
  {
    hide NotDropped;
    var more := actions + [a];
    if k :| 0 <= k < |more| && RevealOf(more[k], h, x) && NotDropped(more, k, h) && k < |actions| {
      NotDroppedNext(actions, a, k, h);
      assert RevealOf(actions[k], h, x);
    }
    if k :| 0 <= k < |actions| && RevealOf(actions[k], h, x) && NotDropped(actions, k, h) && a != DropTorrent(h) {
      NotDroppedNext(actions, a, k, h);
      assert RevealOf(more[k], h, x);
    }
    LastIsKept(actions, a);
    assert more[|actions|] == a;
  }

  // ----- The module's state says the same

  predicate HasTorrent(s: State, h: ShaHash, n: nat) {
    h in s.torrents && s.torrents[h].numPieces == n
  }

  predicate HasPeer(s: State, p: PeerInfo) {
    p.hash in s.torrents && p in s.torrents[p.hash].peers
  }

  ghost predicate HasPiece(s: State, h: ShaHash, x: nat) {
    h in s.torrents && x in Stored(s.torrents[h].status)
  }

  /** What one call changes in the state. */
  lemma ApplyChanges(s: State, a: Action, h: ShaHash, n: nat, p: PeerInfo, x: nat)
    requires AllHonest(s.torrents, s.log) && Enabled(s, a)
    ensures var t := Apply(s, a);
            && (HasTorrent(t, h, n) <==> a == NewTorrent(h, n) || (HasTorrent(s, h, n) && a != DropTorrent(h)))
            && (HasPeer(t, p) <==> JoinOf(a, p) || (HasPeer(s, p) && a != Part(p) && a != DropTorrent(p.hash)))
            && (HasPiece(t, h, x) <==> RevealOf(a, h, x) || (HasPiece(s, h, x) && a != DropTorrent(h)))
  {
    hide Stored, Inserted, Told, Haves;
    NothingStored();
    if a.Reveal? {
      InsertedStores(s.torrents[a.hash].status, a.index);
    }
  }

  ghost predicate Follows(s: State, actions: seq<Action>) {
    && (forall h, n :: HasTorrent(s, h, n) <==> Open(actions, h, n))
    && (forall p :: HasPeer(s, p) <==> Online(actions, p))
    && (forall h, x :: HasPiece(s, h, x) <==> Found(actions, h, x))
  }

  lemma FollowsNext(s: State, a: Action, actions: seq<Action>)
    requires AllHonest(s.torrents, s.log) && Enabled(s, a) && Follows(s, actions)
    ensures Follows(Apply(s, a), actions + [a])
  {
    hide AllHonest, Enabled, Apply, Open, Online, Found, HasTorrent, HasPeer, HasPiece;
    var t, more := Apply(s, a), actions + [a];
    forall h, n ensures HasTorrent(t, h, n) <==> Open(more, h, n) {
      ApplyChanges(s, a, h, n, PeerInfo(0, h, h), 0);
      OpenNext(actions, a, h, n);
    }
    forall p ensures HasPeer(t, p) <==> Online(more, p) {
      ApplyChanges(s, a, p.hash, 0, p, 0);
      OnlineNext(actions, a, p);
    }
    forall h, x ensures HasPiece(t, h, x) <==> Found(more, h, x) {
      ApplyChanges(s, a, h, 0, PeerInfo(0, h, h), x);
      FoundNext(actions, a, h, x);
    }
  }

  lemma NothingFollows()
    ensures Follows(State(map[], []), [])
  {}

  /**
   * In every state of every run: the torrents are those added and not removed since; a peer is in its torrent's set if
   * and only if it has connected and neither left nor had its torrent removed since; and the known pieces of a torrent
   * are those found good since it was added.
   */
  lemma {:induction false} RunFollows(states: seq<State>, actions: seq<Action>, i: nat)
    requires IsRun(states, actions) && i < |states|
    ensures Follows(states[i], actions[..i])
  {
    hide AllHonest, Enabled, Apply, Follows;
    if i == 0 {
      NothingFollows();
    } else {
      RunFollows(states, actions, i - 1);
      RunHonest(states, actions, i - 1);
      assert StepsTo(states[i - 1], actions[i - 1], states[i]);
      FollowsNext(states[i - 1], actions[i - 1], actions[..i - 1]);
      assert actions[..i] == actions[..i - 1] + [actions[i - 1]];
    }
  }

  /** So a connected peer has been told, since it connected, exactly of the pieces found good since its torrent was added. */
  lemma RunTellsFound(states: seq<State>, actions: seq<Action>, i: nat, p: PeerInfo, x: nat)
    requires IsRun(states, actions) && i < |states| && Online(actions[..i], p)
    ensures x in Told(states[i].log, p) <==> Found(actions[..i], p.hash, x)
  {
    hide Online, Found, Told, Stored, StepsTo;
    RunFollows(states, actions, i);
    assert HasPeer(states[i], p);
    RunTellsAll(states, actions, i, p);
    assert HasPiece(states[i], p.hash, x) <==> Found(actions[..i], p.hash, x);
  }

  // ----- Who is sent anything

  /** The messages one call queues. */
  ghost function NewMessages(s: State, t: State): seq<Message> {
    if |Messages(s.log)| <= |Messages(t.log)| then Messages(t.log)[|Messages(s.log)|..] else []
  }

  lemma {:induction false} HavesAre(log: seq<Event>, order: seq<PeerInfo>, index: nat)
    ensures Messages(log + Haves(order, index)) == Messages(log) + HaveMessages(order, index)
  {
    hide Messages;
    if order == [] {
      assert log + [] == log;
    } else {
      var n := |order| - 1;
      HavesAre(log, order[..n], index);
      MessagesNext(log + Haves(order[..n], index), Sent(SendHave(order[n], index)));
      assert log + Haves(order, index) == log + Haves(order[..n], index) + [Sent(SendHave(order[n], index))];
      assert HaveMessages(order, index) == HaveMessages(order[..n], index) + [SendHave(order[n], index)];
    }
  }

  /** A call queues messages after those queued before, and only to peers that are in the torrent's set afterwards. */
  lemma StepSends(s: State, a: Action)
    requires AllHonest(s.torrents, s.log) && Enabled(s, a)
    ensures var t := Apply(s, a);
            && Messages(t.log) == Messages(s.log) + NewMessages(s, t)
            && forall m :: m in NewMessages(s, t) ==> HasPeer(t, m.peer)
  {
    hide Messages, Stored, Inserted, Told, Haves, Announced;
    var t := Apply(s, a);
    match a
    case NewTorrent(_, _) =>
    case DropTorrent(_) =>
    case Part(_) =>
    case Join(p, bytes) =>
      MessagesNext(s.log, Connected(p));
      MessagesNext(s.log + [Connected(p)], Sent(SendBitField(p, bytes)));
    case Reveal(h, index, order) =>
      HavesAre(s.log, order, index);
      assert NewMessages(s, t) == HaveMessages(order, index);
      forall k | 0 <= k < |order| ensures HasPeer(t, order[k]) {
        PeerOfTorrent(s, h, order[k]);
      }
  }

  /** Every message of every run is queued by a call after which its peer is connected. */
  lemma RunSends(states: seq<State>, actions: seq<Action>, i: nat, m: Message)
    requires IsRun(states, actions) && i < |actions| && m in NewMessages(states[i], states[i + 1])
    ensures Online(actions[..i + 1], m.peer)
  {
    hide AllHonest, Enabled, Apply, Online, Open, Found, NewMessages;
    RunHonest(states, actions, i);
    assert StepsTo(states[i], actions[i], states[i + 1]);
    StepSends(states[i], actions[i]);
    RunFollows(states, actions, i + 1);
  }

  lemma {:induction false} StaysOffline(actions: seq<Action>, i: nat, j: nat, p: PeerInfo)
    requires i < j <= |actions| && (actions[i] == Part(p) || actions[i] == DropTorrent(p.hash))
    requires forall k :: i < k < j ==> !JoinOf(actions[k], p)
    ensures !Online(actions[..j], p)
  {
    if k :| 0 <= k < j && JoinOf(actions[..j][k], p) && NotDropped(actions[..j], k, p.hash) && NotParted(actions[..j], k, p) {
      assert actions[..j][k] == actions[k] && actions[..j][i] == actions[i];
      assert JoinOf(actions[k], p);
    }
  }

  /** From the call with which a peer leaves to the one with which it connects again, nothing is queued to it. */
  lemma {:induction false} SilentWhileGone(states: seq<State>, actions: seq<Action>, i: nat, j: nat, p: PeerInfo)
    requires IsRun(states, actions) && i < j <= |actions| && (actions[i] == Part(p) || actions[i] == DropTorrent(p.hash))
    requires forall k :: i < k < j ==> !JoinOf(actions[k], p)
    ensures |Messages(states[i].log)| <= |Messages(states[j].log)|
    ensures forall m :: m in Messages(states[j].log)[|Messages(states[i].log)|..] ==> m.peer != p
    decreases j
  {
    hide AllHonest, Enabled, Apply, Messages, Online;
    var before, old', now := Messages(states[i].log), Messages(states[j - 1].log), Messages(states[j].log);
    assert StepsTo(states[j - 1], actions[j - 1], states[j - 1 + 1]);
    RunHonest(states, actions, j - 1);
    StepSends(states[j - 1], actions[j - 1]);
    forall m | m in NewMessages(states[j - 1], states[j]) ensures m.peer != p {
      RunSends(states, actions, j - 1, m);
      StaysOffline(actions, i, j, p);
    }
    if i < j - 1 {
      SilentWhileGone(states, actions, i, j - 1, p);
      assert now[|before|..] == old'[|before|..] + NewMessages(states[j - 1], states[j]);
    }
  }
}
