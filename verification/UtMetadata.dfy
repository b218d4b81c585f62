/** Metadata download: every piece is queued, in flight or received, whatever order things happen in. */
module UtMetadata {
  import opened Wrappers
  import opened Bytes
  import opened Sha
  import opened Sums
  import opened Peers

  const REQUEST_TIMEOUT_MILLIS := 2000
  const MAX_REQUEST_SIZE := 16384

  datatype PendingInfo = PendingInfo(messages: seq<nat>, left: nat, bytes: seq<Byte>)

  datatype ActiveRequest = ActiveRequest(left: nat, piece: nat, sentTo: PeerInfo)

  datatype ActivePeers = ActivePeers(peers: set<PeerInfo>, metadataSize: int)

  type Pending = map<ShaHash, Option<PendingInfo>>

  /** The data received for a download, by piece. */
  type Received = map<nat, seq<Byte>>

  /** The module's maps and requests, and what has been received since each download was initialised. */
  datatype State = State(pending: Pending, peers: map<ShaHash, ActivePeers>, requests: seq<ActiveRequest>,
                         got: map<ShaHash, Received>)

  const START := State(map[], map[], [], map[])

  predicate Initialised(s: State, h: ShaHash) {
    h in s.pending && s.pending[h].Some?
  }

  // ----- Pieces

  function NumPieces(size: nat): nat {
    if size % MAX_REQUEST_SIZE == 0 then size / MAX_REQUEST_SIZE else size / MAX_REQUEST_SIZE + 1
  }

  /** All pieces are full but the last. */
  function PieceSize(size: nat, i: nat): nat
    requires i < NumPieces(size)
  {
    if size - i * MAX_REQUEST_SIZE < MAX_REQUEST_SIZE then size - i * MAX_REQUEST_SIZE else MAX_REQUEST_SIZE
  }

  function Is(i: nat): nat -> nat {
    x => if x == i then 1 else 0
  }

  function OfHash(h: ShaHash): ActiveRequest -> nat {
    (r: ActiveRequest) => if r.sentTo.hash == h then 1 else 0
  }

  function OfPiece(h: ShaHash, i: nat): ActiveRequest -> nat {
    (r: ActiveRequest) => if r.sentTo.hash == h && r.piece == i then 1 else 0
  }

  /** How many places piece i of a download is in: queued, in flight, received. */
  ghost function Places(p: PendingInfo, requests: seq<ActiveRequest>, h: ShaHash, got: Received, i: nat): nat {
    Sum(p.messages, Is(i)) + Sum(requests, OfPiece(h, i)) + if i in got then 1 else 0
  }

  /** Every piece is in exactly one place, and as many are left as are queued or in flight. */
  ghost predicate Accounts(p: PendingInfo, requests: seq<ActiveRequest>, h: ShaHash, got: Received) {
    && (forall i: nat :: Places(p, requests, h, got, i) == if i < NumPieces(|p.bytes|) then 1 else 0)
    && p.left == |p.messages| + Sum(requests, OfHash(h))
  }

  /** The data of piece i has the size of piece i. */
  predicate ExactSize(size: nat, i: nat, data: seq<Byte>) {
    i < NumPieces(size) && |data| == PieceSize(size, i)
  }

  /** If all data received has been of its piece's size, the buffer holds it piece by piece. */
  ghost predicate Assembled(bytes: seq<Byte>, got: Received) {
    AllExact(|bytes|, got) ==> forall i :: i in got ==> Reads(bytes, i * MAX_REQUEST_SIZE, got[i])
  }

  ghost predicate AllExact(size: nat, got: Received) {
    forall i :: i in got ==> ExactSize(size, i, got[i])
  }

  // ----- The invariant

  ghost predicate DownloadInv(s: State, h: ShaHash) {
    Initialised(s, h) ==>
      && h in s.got
      && Accounts(s.pending[h].value, s.requests, h, s.got[h])
      && Assembled(s.pending[h].value.bytes, s.got[h])
  }

  ghost predicate PeersInv(peers: map<ShaHash, ActivePeers>) {
    forall h, p :: h in peers && p in peers[h].peers ==> p.hash == h
  }

  ghost predicate Inv(s: State) {
    && (forall h :: DownloadInv(s, h))
    && (forall k :: 0 <= k < |s.requests| ==> Initialised(s, s.requests[k].sentTo.hash))
    && PeersInv(s.peers)
  }

  // ----- Requesting a piece

  /** The last queued message of a download goes to one of its peers. */
  function Requested(s: State, h: ShaHash, peer: PeerInfo): State
    requires Initialised(s, h) && s.pending[h].value.messages != []
  {
    var p := s.pending[h].value;
    var n := |p.messages| - 1;
    s.(pending := s.pending[h := Some(p.(messages := p.messages[..n]))],
       requests := s.requests + [ActiveRequest(REQUEST_TIMEOUT_MILLIS, p.messages[n], peer)])
  }

  lemma RequestedAccounts(p: PendingInfo, requests: seq<ActiveRequest>, h: ShaHash, got: Received, r: ActiveRequest)
    requires Accounts(p, requests, h, got) && p.messages != []
    requires r.sentTo.hash == h && r.piece == p.messages[|p.messages| - 1]
    ensures Accounts(p.(messages := p.messages[..|p.messages| - 1]), requests + [r], h, got)
  {
    hide Sum;
    var n := |p.messages| - 1;
    var q := p.(messages := p.messages[..n]);
    SumAppend(requests, r, OfHash(h));
    forall i: nat ensures Places(q, requests + [r], h, got, i) == Places(p, requests, h, got, i) {
      assert p.messages == p.messages[..n] + [r.piece];
      SumAppend(p.messages[..n], r.piece, Is(i));
      SumAppend(requests, r, OfPiece(h, i));
    }
  }

  /** A request of another download changes nothing for this one. */
  lemma OtherAccounts(p: PendingInfo, requests: seq<ActiveRequest>, h: ShaHash, got: Received, r: ActiveRequest)
    requires Accounts(p, requests, h, got) && r.sentTo.hash != h
    ensures Accounts(p, requests + [r], h, got)
  {
    hide Sum;
    SumAppend(requests, r, OfHash(h));
    forall i: nat ensures Places(p, requests + [r], h, got, i) == Places(p, requests, h, got, i) {
      SumAppend(requests, r, OfPiece(h, i));
    }
  }

  lemma RequestedInv(s: State, h: ShaHash, peer: PeerInfo)
    requires Inv(s) && Initialised(s, h) && s.pending[h].value.messages != [] && peer.hash == h
    ensures Inv(Requested(s, h, peer))
  {
    hide Accounts, Assembled;
    var t: State := Requested(s, h, peer);
    var r := t.requests[|s.requests|];
    forall g ensures DownloadInv(t, g) {
      assert DownloadInv(s, g);
      if g == h {
        RequestedAccounts(s.pending[h].value, s.requests, h, s.got[h], r);
      } else if Initialised(s, g) {
        OtherAccounts(s.pending[g].value, s.requests, g, s.got[g], r);
      }
    }
  }

  // ----- Losing a request

  /** `rest` is `requests` without one request `r`, in any order. */
  ghost predicate TakenOut(requests: seq<ActiveRequest>, r: ActiveRequest, rest: seq<ActiveRequest>) {
    && (forall h :: Sum(rest, OfHash(h)) + OfHash(h)(r) == Sum(requests, OfHash(h)))
    && (forall h, i :: Sum(rest, OfPiece(h, i)) + OfPiece(h, i)(r) == Sum(requests, OfPiece(h, i)))
  }

  lemma SwapTakesOut(requests: seq<ActiveRequest>, k: nat)
    requires k < |requests|
    ensures TakenOut(requests, requests[k], SwapRemoved(requests, k))
  {
    hide Sum, OfHash, OfPiece, SwapRemoved;
    forall h ensures Sum(SwapRemoved(requests, k), OfHash(h)) + OfHash(h)(requests[k]) == Sum(requests, OfHash(h)) {
      SumSwapRemove(requests, k, OfHash(h));
    }
    forall h, i
      ensures Sum(SwapRemoved(requests, k), OfPiece(h, i)) + OfPiece(h, i)(requests[k]) == Sum(requests, OfPiece(h, i))
    {
      SumSwapRemove(requests, k, OfPiece(h, i));
    }
  }

  lemma RemoveTakesOut(requests: seq<ActiveRequest>, k: nat)
    requires k < |requests|
    ensures TakenOut(requests, requests[k], requests[..k] + requests[k + 1..])
  {
    hide Sum, OfHash, OfPiece;
    var rest := requests[..k] + requests[k + 1..];
    forall h ensures Sum(rest, OfHash(h)) + OfHash(h)(requests[k]) == Sum(requests, OfHash(h)) {
      SumRemove(requests, k, OfHash(h));
    }
    forall h, i ensures Sum(rest, OfPiece(h, i)) + OfPiece(h, i)(requests[k]) == Sum(requests, OfPiece(h, i)) {
      SumRemove(requests, k, OfPiece(h, i));
    }
  }

  /** A download whose request it was not keeps its accounts. */
  lemma OtherTakenOut(p: PendingInfo, requests: seq<ActiveRequest>, h: ShaHash, got: Received, r: ActiveRequest,
                      rest: seq<ActiveRequest>)
    requires Accounts(p, requests, h, got) && r.sentTo.hash != h && TakenOut(requests, r, rest)
    ensures Accounts(p, rest, h, got)
  {
    hide Sum;
    forall i: nat ensures Places(p, rest, h, got, i) == Places(p, requests, h, got, i) {
      assert Sum(rest, OfPiece(h, i)) + OfPiece(h, i)(r) == Sum(requests, OfPiece(h, i));
    }
  }

  /** A timed-out request puts its piece back in the queue. */
  lemma RequeuedAccounts(p: PendingInfo, requests: seq<ActiveRequest>, h: ShaHash, got: Received, r: ActiveRequest,
                         rest: seq<ActiveRequest>)
    requires Accounts(p, requests, h, got) && r.sentTo.hash == h && TakenOut(requests, r, rest)
    ensures Accounts(p.(messages := p.messages + [r.piece]), rest, h, got)
  {
    hide Sum;
    var q := p.(messages := p.messages + [r.piece]);
    assert Sum(rest, OfHash(h)) + OfHash(h)(r) == Sum(requests, OfHash(h));
    forall i: nat ensures Places(q, rest, h, got, i) == Places(p, requests, h, got, i) {
      SumAppend(p.messages, r.piece, Is(i));
      assert Sum(rest, OfPiece(h, i)) + OfPiece(h, i)(r) == Sum(requests, OfPiece(h, i));
    }
  }

  /** A piece in flight is a piece of the download, not received before, and is one of those left. */
  lemma InFlightIsLeft(p: PendingInfo, requests: seq<ActiveRequest>, h: ShaHash, got: Received, k: nat)
    requires Accounts(p, requests, h, got) && k < |requests| && requests[k].sentTo.hash == h
    ensures p.left > 0 && requests[k].piece < NumPieces(|p.bytes|) && requests[k].piece !in got
  {
    hide Sum;
    var i := requests[k].piece;
    SumPart(requests, k, OfHash(h));
    SumPart(requests, k, OfPiece(h, i));
    assert Places(p, requests, h, got, i) == if i < NumPieces(|p.bytes|) then 1 else 0;
  }

  /** Data for a piece in flight makes it received. */
  lemma ReceivedAccounts(p: PendingInfo, requests: seq<ActiveRequest>, h: ShaHash, got: Received, r: ActiveRequest,
                         rest: seq<ActiveRequest>, data: seq<Byte>, bytes: seq<Byte>)
    requires Accounts(p, requests, h, got) && r.sentTo.hash == h && TakenOut(requests, r, rest)
    requires p.left > 0 && r.piece !in got && |bytes| == |p.bytes|
    ensures Accounts(PendingInfo(p.messages, p.left - 1, bytes), rest, h, got[r.piece := data])
  {
    hide Sum;
    var q := PendingInfo(p.messages, p.left - 1, bytes);
    assert NumPieces(|q.bytes|) == NumPieces(|p.bytes|);
    assert Sum(rest, OfHash(h)) + OfHash(h)(r) == Sum(requests, OfHash(h));
    var more: Received := got[r.piece := data];
    forall i: nat ensures Places(q, rest, h, more, i) == Places(p, requests, h, got, i) {
      assert Sum(rest, OfPiece(h, i)) + OfPiece(h, i)(r) == Sum(requests, OfPiece(h, i));
    }
    assert Accounts(q, rest, h, more);
  }

  // ----- Receiving a piece

  function Written(bytes: seq<Byte>, at: nat, data: seq<Byte>): (r: seq<Byte>)
    requires at + |data| <= |bytes|
    ensures |r| == |bytes|
  {
    bytes[..at] + data + bytes[at + |data|..]
  }

  lemma PieceFits(size: nat, i: nat)
    requires i < NumPieces(size)
    ensures i * MAX_REQUEST_SIZE < size && i * MAX_REQUEST_SIZE + PieceSize(size, i) <= size
  {}

  lemma WrittenReads(bytes: seq<Byte>, at: nat, data: seq<Byte>, pos: nat, other: seq<Byte>)
    requires at + |data| <= |bytes|
    ensures Reads(Written(bytes, at, data), at, data)
    ensures Reads(bytes, pos, other) && (pos + |other| <= at || at + |data| <= pos) ==>
              Reads(Written(bytes, at, data), pos, other)
  {
    var after := Written(bytes, at, data);
    assert after[at..at + |data|] == data;
    if Reads(bytes, pos, other) && (pos + |other| <= at || at + |data| <= pos) {
      assert after[pos..pos + |other|] == bytes[pos..pos + |other|];
    }
  }

  lemma WrittenAssembled(bytes: seq<Byte>, got: Received, i: nat, data: seq<Byte>)
    requires Assembled(bytes, got) && i !in got && i * MAX_REQUEST_SIZE + |data| <= |bytes|
    ensures Assembled(Written(bytes, i * MAX_REQUEST_SIZE, data), got[i := data])
  {
    hide Written, Reads, NumPieces;
    var after, more: Received, at := Written(bytes, i * MAX_REQUEST_SIZE, data), got[i := data], i * MAX_REQUEST_SIZE;
    if AllExact(|after|, more) {
      assert ExactSize(|bytes|, i, more[i]);
      assert AllExact(|bytes|, got) by {
        forall j | j in got ensures ExactSize(|bytes|, j, got[j]) {
          assert ExactSize(|bytes|, j, more[j]);
        }
      }
      forall j | j in more ensures Reads(after, j * MAX_REQUEST_SIZE, more[j]) {
        WrittenReads(bytes, at, data, j * MAX_REQUEST_SIZE, more[j]);
        assert j != i ==> ExactSize(|bytes|, j, got[j]);
      }
    }
  }

  /** Room for the data in the buffer; writing more than there is fails. */
  predicate HasRoom(s: State, k: nat, data: seq<Byte>)
    requires k < |s.requests| && Initialised(s, s.requests[k].sentTo.hash)
  {
    s.requests[k].piece * MAX_REQUEST_SIZE + |data| <= |s.pending[s.requests[k].sentTo.hash].value.bytes|
  }

  ghost function Delivered(s: State, k: nat, data: seq<Byte>): State
    requires k < |s.requests| && Initialised(s, s.requests[k].sentTo.hash) && HasRoom(s, k, data)
    requires s.pending[s.requests[k].sentTo.hash].value.left > 0 && s.requests[k].sentTo.hash in s.got
  {
    var r := s.requests[k];
    var h := r.sentTo.hash;
    var p := s.pending[h].value;
    var bytes := Written(p.bytes, r.piece * MAX_REQUEST_SIZE, data);
    var got: Received := s.got[h][r.piece := data];
    State(s.pending[h := Some(PendingInfo(p.messages, p.left - 1, bytes))], s.peers, SwapRemoved(s.requests, k),
          s.got[h := got])
  }

  lemma OwnedAfter(s: State, k: nat, rest: seq<ActiveRequest>)
    requires Inv(s) && k < |s.requests|
    requires rest == SwapRemoved(s.requests, k) || rest == s.requests[..k] + s.requests[k + 1..]
    ensures forall j :: 0 <= j < |rest| ==> Initialised(s, rest[j].sentTo.hash)
  {
    forall j | 0 <= j < |rest| ensures rest[j] in s.requests {}
  }

  lemma DeliveredInv(s: State, k: nat, data: seq<Byte>)
    requires Inv(s) && k < |s.requests| && HasRoom(s, k, data)
    ensures s.pending[s.requests[k].sentTo.hash].value.left > 0 && s.requests[k].sentTo.hash in s.got
    ensures Inv(Delivered(s, k, data))
  {
    hide Accounts, Assembled, Written, TakenOut, SwapRemoved;
    var r := s.requests[k];
    var h := r.sentTo.hash;
    var p: PendingInfo := s.pending[h].value;
    assert DownloadInv(s, h);
    InFlightIsLeft(p, s.requests, h, s.got[h], k);
    SwapTakesOut(s.requests, k);
    OwnedAfter(s, k, SwapRemoved(s.requests, k));
    var t: State := Delivered(s, k, data);
    forall g ensures DownloadInv(t, g) {
      assert DownloadInv(s, g);
      if g == h {
        var bytes := t.pending[h].value.bytes;
        ReceivedAccounts(p, s.requests, h, s.got[h], r, t.requests, data, bytes);
        WrittenAssembled(p.bytes, s.got[h], r.piece, data);
      } else if Initialised(s, g) {
        OtherTakenOut(s.pending[g].value, s.requests, g, s.got[g], r, t.requests);
      }
    }
    forall j | 0 <= j < |t.requests| ensures Initialised(t, t.requests[j].sentTo.hash) {
      assert Initialised(s, t.requests[j].sentTo.hash);
    }
  }

  // ----- Time passing

  function PeersWithout(peers: map<ShaHash, ActivePeers>, peer: PeerInfo): map<ShaHash, ActivePeers> {
    if peer.hash in peers then peers[peer.hash := peers[peer.hash].(peers := peers[peer.hash].peers - {peer})] else peers
  }

  /** A request times out: its piece is queued again and its peer asked no more. */
  ghost function Expired(s: State, k: nat): State
    requires k < |s.requests| && Initialised(s, s.requests[k].sentTo.hash)
  {
    var r := s.requests[k];
    var h := r.sentTo.hash;
    var p := s.pending[h].value;
    s.(pending := s.pending[h := Some(p.(messages := p.messages + [r.piece]))],
       peers := PeersWithout(s.peers, r.sentTo),
       requests := s.requests[..k] + s.requests[k + 1..])
  }

  lemma ExpiredInv(s: State, k: nat)
    requires Inv(s) && k < |s.requests|
    ensures Inv(Expired(s, k))
  {
    hide Accounts, Assembled, TakenOut;
    var r, t: State := s.requests[k], Expired(s, k);
    var h := r.sentTo.hash;
    RemoveTakesOut(s.requests, k);
    OwnedAfter(s, k, t.requests);
    forall g ensures DownloadInv(t, g) {
      assert DownloadInv(s, g);
      if g == h {
        RequeuedAccounts(s.pending[h].value, s.requests, h, s.got[h], r, t.requests);
      } else if Initialised(s, g) {
        OtherTakenOut(s.pending[g].value, s.requests, g, s.got[g], r, t.requests);
      }
    }
    forall j | 0 <= j < |t.requests| ensures Initialised(t, t.requests[j].sentTo.hash) {
      assert Initialised(s, t.requests[j].sentTo.hash);
    }
  }

  /** The same requests, for the same pieces and peers, at other ages. */
  ghost predicate OnlyAged(before: seq<ActiveRequest>, after: seq<ActiveRequest>) {
    |before| == |after| &&
    forall k :: 0 <= k < |before| ==> before[k].piece == after[k].piece && before[k].sentTo == after[k].sentTo
  }

  lemma AgedAccounts(p: PendingInfo, before: seq<ActiveRequest>, after: seq<ActiveRequest>, h: ShaHash, got: Received)
    requires Accounts(p, before, h, got) && OnlyAged(before, after)
    ensures Accounts(p, after, h, got)
  {
    hide Sum;
    SumSame(before, after, OfHash(h));
    forall i: nat ensures Places(p, after, h, got, i) == Places(p, before, h, got, i) {
      SumSame(before, after, OfPiece(h, i));
    }
  }

  lemma AgedInv(s: State, requests: seq<ActiveRequest>)
    requires Inv(s) && OnlyAged(s.requests, requests)
    ensures Inv(s.(requests := requests))
  {
    hide Accounts, Assembled;
    forall g ensures DownloadInv(s.(requests := requests), g) {
      assert DownloadInv(s, g);
      if Initialised(s, g) {
        AgedAccounts(s.pending[g].value, s.requests, requests, g, s.got[g]);
      }
    }
  }

  // ----- Starting and ending downloads

  function Range(n: nat): (r: seq<nat>)
    ensures |r| == n
  {
    if n == 0 then [] else Range(n - 1) + [n - 1]
  }

  lemma {:induction false} RangeOnce(n: nat, i: nat)
    ensures Sum(Range(n), Is(i)) == if i < n then 1 else 0
  {
    if n > 0 {
      RangeOnce(n - 1, i);
      var last: nat := n - 1;
      SumAppend<nat>(Range(last), last, Is(i));
    }
  }

  function PendingOfSize(size: nat): PendingInfo {
    PendingInfo(Range(NumPieces(size)), NumPieces(size), Zeros(size))
  }

  /** A download with nothing in flight starts with every piece queued. */
  lemma PendingOfSizeAccounts(size: nat, requests: seq<ActiveRequest>, h: ShaHash)
    requires forall k :: 0 <= k < |requests| ==> requests[k].sentTo.hash != h
    ensures Accounts(PendingOfSize(size), requests, h, map[])
  {
    hide Sum, NumPieces;
    var p: PendingInfo, none: Received := PendingOfSize(size), map[];
    SumZero(requests, OfHash(h));
    forall i: nat ensures Places(p, requests, h, none, i) == if i < NumPieces(size) then 1 else 0 {
      RangeOnce(NumPieces(size), i);
      SumZero(requests, OfPiece(h, i));
    }
    assert Accounts(p, requests, h, none);
  }

  ghost function Begun(s: State, h: ShaHash): State
    requires h in s.pending && s.pending[h].None? && h in s.peers && s.peers[h].metadataSize >= 0
  {
    s.(pending := s.pending[h := Some(PendingOfSize(s.peers[h].metadataSize))], got := s.got[h := map[]])
  }

  lemma BegunInv(s: State, h: ShaHash)
    requires Inv(s) && h in s.pending && s.pending[h].None? && h in s.peers && s.peers[h].metadataSize >= 0
    ensures Inv(Begun(s, h))
  {
    hide Accounts, PendingOfSize;
    var t: State := Begun(s, h);
    PendingOfSizeAccounts(s.peers[h].metadataSize, s.requests, h);
    forall g ensures DownloadInv(t, g) {
      assert DownloadInv(s, g);
    }
  }

  /** Nothing of a completed download is in flight, and all of it has been received. */
  lemma CompleteReceived(p: PendingInfo, requests: seq<ActiveRequest>, h: ShaHash, got: Received)
    requires Accounts(p, requests, h, got) && p.left == 0
    ensures forall k :: 0 <= k < |requests| ==> requests[k].sentTo.hash != h
    ensures forall i: nat :: i in got <==> i < NumPieces(|p.bytes|)
  {
    hide Sum, NumPieces;
    forall k | 0 <= k < |requests| ensures requests[k].sentTo.hash != h {
      SumPart(requests, k, OfHash(h));
    }
    forall i: nat ensures i in got <==> i < NumPieces(|p.bytes|) {
      SumDominated(requests, OfPiece(h, i), OfHash(h));
      SumZero(p.messages, Is(i));
      assert Places(p, requests, h, got, i) == if i < NumPieces(|p.bytes|) then 1 else 0;
    }
  }

  predicate Complete(s: State, h: ShaHash) {
    Initialised(s, h) && s.pending[h].value.left == 0
  }

  /** A download can end, or start over, only when complete; no request is left without its download. */
  lemma EndedInv(s: State, h: ShaHash)
    requires Inv(s) && Complete(s, h)
    ensures Inv(s.(pending := s.pending - {h}, peers := s.peers - {h}))
    ensures Inv(s.(pending := s.pending[h := None]))
  {
    hide Accounts, Assembled;
    var t: State, u: State := s.(pending := s.pending - {h}, peers := s.peers - {h}), s.(pending := s.pending[h := None]);
    assert DownloadInv(s, h);
    CompleteReceived(s.pending[h].value, s.requests, h, s.got[h]);
    forall g ensures DownloadInv(t, g) && DownloadInv(u, g) {
      assert DownloadInv(s, g);
    }
    forall k | 0 <= k < |s.requests|
      ensures Initialised(t, s.requests[k].sentTo.hash) && Initialised(u, s.requests[k].sentTo.hash)
    {
      assert Initialised(s, s.requests[k].sentTo.hash);
    }
  }

  /** Asking for a metainfo that is not yet pending. */
  lemma QueuedInv(s: State, h: ShaHash)
    requires Inv(s) && h !in s.pending
    ensures Inv(s.(pending := s.pending[h := None]))
  {
    hide Accounts, Assembled;
    var t: State := s.(pending := s.pending[h := None]);
    forall g ensures DownloadInv(t, g) {
      assert DownloadInv(s, g);
    }
    forall k | 0 <= k < |s.requests| ensures Initialised(t, s.requests[k].sentTo.hash) {
      assert Initialised(s, s.requests[k].sentTo.hash);
    }
  }

  lemma PeersChangedInv(s: State, peers: map<ShaHash, ActivePeers>)
    requires Inv(s) && PeersInv(peers)
    ensures Inv(s.(peers := peers))
  {
    hide Accounts, Assembled;
    forall g ensures DownloadInv(s.(peers := peers), g) {
      assert DownloadInv(s, g);
    }
  }

  // ----- The completed metadata

  ghost function Concat(got: Received, n: nat): seq<Byte>
    requires forall i :: 0 <= i < n ==> i in got
  {
    if n == 0 then [] else Concat(got, n - 1) + got[n - 1]
  }

  lemma {:induction false} AssembledPrefix(bytes: seq<Byte>, got: Received, n: nat)
    requires AllExact(|bytes|, got) && Assembled(bytes, got)
    requires n <= NumPieces(|bytes|) && forall i :: 0 <= i < n ==> i in got
    ensures |Concat(got, n)| <= |bytes| && Concat(got, n) == bytes[..|Concat(got, n)|]
    ensures |Concat(got, n)| == if n * MAX_REQUEST_SIZE <= |bytes| then n * MAX_REQUEST_SIZE else |bytes|
  {
    if n > 0 {
      AssembledPrefix(bytes, got, n - 1);
      PieceFits(|bytes|, n - 1);
      assert ExactSize(|bytes|, n - 1, got[n - 1]);
      var at := (n - 1) * MAX_REQUEST_SIZE;
      assert Reads(bytes, at, got[n - 1]);
      assert bytes[..at] + bytes[at..at + |got[n - 1]|] == bytes[..at + |got[n - 1]|];
    }
  }

  /** A complete download has every piece; if all data had its piece's size, its bytes are the pieces in order. */
  lemma CompleteIsAssembled(s: State, h: ShaHash)
    requires Inv(s) && Complete(s, h)
    ensures h in s.got
    ensures forall i: nat :: i in s.got[h] <==> i < NumPieces(|s.pending[h].value.bytes|)
    ensures AllExact(|s.pending[h].value.bytes|, s.got[h]) ==>
              s.pending[h].value.bytes == Concat(s.got[h], NumPieces(|s.pending[h].value.bytes|))
  {
    hide Accounts, Assembled, AllExact, Concat;
    assert DownloadInv(s, h);
    var bytes, got: Received := s.pending[h].value.bytes, s.got[h];
    CompleteReceived(s.pending[h].value, s.requests, h, got);
    if AllExact(|bytes|, got) {
      AssembledPrefix(bytes, got, NumPieces(|bytes|));
      assert bytes[..|bytes|] == bytes;
    }
  }

  // ----- Answering the requests of peers

  /** The piece number is as the peer sent it. */
  datatype PeerRequest = PeerRequest(sendTo: PeerInfo, piece: int)

  type Completed = map<ShaHash, seq<Byte>>

  /** A piece is served only if all of its 16 KiB are there. */
  predicate Servable(completed: Completed, r: PeerRequest) {
    var h := r.sendTo.hash;
    h in completed && 0 <= r.piece && r.piece * MAX_REQUEST_SIZE + MAX_REQUEST_SIZE <= |completed[h]|
  }

  /** Neither served nor, for its negative number, a reason to panic. */
  predicate Passed(completed: Completed, r: PeerRequest) {
    0 <= r.piece && !Servable(completed, r)
  }

  datatype Response = Nothing | Panicked | Data(request: PeerRequest, data: seq<Byte>)

  /** Requests are dropped up to the first that can be answered, or that has a negative number and panics. */
  method RetrievePieceResponse(completed: Completed, queue: seq<PeerRequest>)
    returns (r: Response, rest: seq<PeerRequest>)
    ensures |rest| <= |queue| && rest == queue[|queue| - |rest|..]
    ensures r.Nothing? ==> rest == [] && forall i :: 0 <= i < |queue| ==> Passed(completed, queue[i])
    ensures !r.Nothing? ==>
              |rest| < |queue| && forall i :: 0 <= i < |queue| - |rest| - 1 ==> Passed(completed, queue[i])
    ensures r.Panicked? ==> queue[|queue| - |rest| - 1].piece < 0
    ensures r.Data? ==>
              && r.request == queue[|queue| - |rest| - 1] && Servable(completed, r.request)
              && |r.data| == MAX_REQUEST_SIZE
              && Reads(completed[r.request.sendTo.hash], r.request.piece * MAX_REQUEST_SIZE, r.data)
  {
    rest := queue;
    while rest != []
      invariant |rest| <= |queue| && rest == queue[|queue| - |rest|..]
      invariant forall i :: 0 <= i < |queue| - |rest| ==> Passed(completed, queue[i])
    {
      var request := rest[0];
      rest := rest[1..];
      if request.piece < 0 {
        return Panicked, rest;
      }
      var start := request.piece * MAX_REQUEST_SIZE;
      var end := start + MAX_REQUEST_SIZE;
      if request.sendTo.hash in completed && start <= |completed[request.sendTo.hash]| && end <= |completed[request.sendTo.hash]| {
        return Data(request, completed[request.sendTo.hash][start..end]), rest;
      }
    }
    r := Nothing;
  }

  /** So a peer can get every piece of a metadata exactly when the last piece is a full one. */
  lemma AllServableIff(completed: Completed, peer: PeerInfo)
    requires peer.hash in completed
    ensures (forall i: nat :: i < NumPieces(|completed[peer.hash]|) ==> Servable(completed, PeerRequest(peer, i))) <==>
            |completed[peer.hash]| % MAX_REQUEST_SIZE == 0
  {
    var size := |completed[peer.hash]|;
    if size % MAX_REQUEST_SIZE != 0 {
      assert !Servable(completed, PeerRequest(peer, size / MAX_REQUEST_SIZE));
    }
  }

  /** The only piece of a metadata of one byte is never served. */
  lemma OneByteIsNeverServed(completed: Completed, peer: PeerInfo)
    requires peer.hash in completed && |completed[peer.hash]| == 1
    ensures NumPieces(|completed[peer.hash]|) == 1 && !Servable(completed, PeerRequest(peer, 0))
    ensures exists i: nat :: i < NumPieces(|completed[peer.hash]|) && !Servable(completed, PeerRequest(peer, i))
  {
    assert !Servable(completed, PeerRequest(peer, 0));
  }

  // ----- Every run

  function PeersWith(peers: map<ShaHash, ActivePeers>, info: PeerInfo, size: int): map<ShaHash, ActivePeers> {
    var active := if info.hash in peers then peers[info.hash] else ActivePeers({}, size);
    peers[info.hash := active.(peers := active.peers + {info})]
  }

  /** A download without peers has no entry; but timing out a peer leaves the entry. */
  function PeersLeft(peers: map<ShaHash, ActivePeers>, info: PeerInfo): map<ShaHash, ActivePeers> {
    var left := PeersWithout(peers, info);
    if info.hash in left && left[info.hash].peers == {} then left - {info.hash} else left
  }

  datatype Action =
    | AddPeer(info: PeerInfo, size: int)
    | RemovePeer(info: PeerInfo)
    | Download(hash: ShaHash)
    | Begin(hash: ShaHash)
    | Request(peer: PeerInfo)
    | Deliver(k: nat, data: seq<Byte>)
    | Expire(k: nat)
    | Age(requests: seq<ActiveRequest>)
    | Finish(hash: ShaHash)
    | Restart(hash: ShaHash)

  ghost predicate Enabled(s: State, a: Action) {
    match a
    case AddPeer(_, _) => true
    case RemovePeer(_) => true
    case Download(h) => h !in s.pending
    case Begin(h) => h in s.pending && s.pending[h].None? && h in s.peers && s.peers[h].metadataSize >= 0
    case Request(p) => Initialised(s, p.hash) && s.pending[p.hash].value.messages != [] && p.hash in s.peers && p in s.peers[p.hash].peers
    case Deliver(k, data) => k < |s.requests| && Initialised(s, s.requests[k].sentTo.hash) && HasRoom(s, k, data)
    case Expire(k) => k < |s.requests|
    case Age(requests) => OnlyAged(s.requests, requests)
    case Finish(h) => Complete(s, h)
    case Restart(h) => Complete(s, h)
  }

  ghost function Apply(s: State, a: Action): State
    requires Inv(s) && Enabled(s, a)
  {
    match a
    case AddPeer(info, size) => s.(peers := PeersWith(s.peers, info, size))
    case RemovePeer(info) => s.(peers := PeersLeft(s.peers, info))
    case Download(h) => s.(pending := s.pending[h := None])
    case Begin(h) => Begun(s, h)
    case Request(p) => Requested(s, p.hash, p)
    case Deliver(k, data) => DeliveredInv(s, k, data); Delivered(s, k, data)
    case Expire(k) => Expired(s, k)
    case Age(requests) => s.(requests := requests)
    case Finish(h) => s.(pending := s.pending - {h}, peers := s.peers - {h})
    case Restart(h) => s.(pending := s.pending[h := None])
  }

  lemma ApplyInv(s: State, a: Action)
    requires Inv(s) && Enabled(s, a)
    ensures Inv(Apply(s, a))
  {
    hide Inv, Begun, Requested, Delivered, Expired;
    match a {
      case AddPeer(info, size) => PeersKept(s, info, size); PeersChangedInv(s, PeersWith(s.peers, info, size));
      case RemovePeer(info) => PeersKept(s, info, 0); PeersChangedInv(s, PeersLeft(s.peers, info));
      case Download(h) => QueuedInv(s, h);
      case Begin(h) => BegunInv(s, h);
      case Request(p) => RequestedInv(s, p.hash, p);
      case Deliver(k, data) => DeliveredInv(s, k, data);
      case Expire(k) => ExpiredInv(s, k);
      case Age(requests) => AgedInv(s, requests);
      case Finish(h) => EndedInv(s, h);
      case Restart(h) => EndedInv(s, h);
    }
  }

  lemma PeersKept(s: State, info: PeerInfo, size: int)
    requires Inv(s)
    ensures PeersInv(s.peers) && PeersInv(PeersWith(s.peers, info, size)) && PeersInv(PeersLeft(s.peers, info))
  {}

  /** `states` is what the module goes through as `actions` happen. */
  ghost predicate IsRun(states: seq<State>, actions: seq<Action>) {
    && |states| == |actions| + 1
    && states[0] == START
    && forall i :: 0 <= i < |actions| ==> StepsTo(states[i], actions[i], states[i + 1])
  }

  ghost predicate StepsTo(s: State, a: Action, t: State) {
    Enabled(s, a) && (Inv(s) ==> t == Apply(s, a))
  }

  lemma StartInv()
    ensures Inv(START)
  {}

  lemma {:induction false} RunInv(states: seq<State>, actions: seq<Action>, i: nat)
    requires IsRun(states, actions) && i < |states|
    ensures Inv(states[i])
  {
    hide Inv, Enabled, Apply;
    if i == 0 {
      StartInv();
    } else {
      RunInv(states, actions, i - 1);
      assert StepsTo(states[i - 1], actions[i - 1], states[i]);
      ApplyInv(states[i - 1], actions[i - 1]);
    }
  }

  /** In every run: a piece is in exactly one place, and completed downloads are what was received. */
  lemma RunAccounts(states: seq<State>, actions: seq<Action>, i: nat, h: ShaHash)
    requires IsRun(states, actions) && i < |states| && Initialised(states[i], h)
    ensures h in states[i].got
    ensures Accounts(states[i].pending[h].value, states[i].requests, h, states[i].got[h])
    ensures Complete(states[i], h) && AllExact(|states[i].pending[h].value.bytes|, states[i].got[h]) ==>
              && (forall j :: 0 <= j < NumPieces(|states[i].pending[h].value.bytes|) ==> j in states[i].got[h])
              && states[i].pending[h].value.bytes ==
                 Concat(states[i].got[h], NumPieces(|states[i].pending[h].value.bytes|))
  {
    hide Accounts, Assembled, AllExact, Concat, NumPieces;
    RunInv(states, actions, i);
    assert DownloadInv(states[i], h);
    if Complete(states[i], h) {
      CompleteIsAssembled(states[i], h);
    }
  }
}
