/** The parallel piece hasher: one master, its workers, the work queue, the result channel, the buffers. */
module PieceHasher {
  import opened Wrappers
  import opened Bytes
  import opened Sha

  // ----- Buffers

  /** A reusable piece buffer; bytes beyond `bytesRead` are left over from an earlier piece. */
  datatype PieceBuffer = PieceBuffer(buffer: seq<Byte>, bytesRead: nat)

  predicate ValidBuffer(length: nat, b: PieceBuffer) {
    |b.buffer| == length && b.bytesRead <= length
  }

  function AsSlice(b: PieceBuffer): seq<Byte>
    requires b.bytesRead <= |b.buffer|
  {
    b.buffer[..b.bytesRead]
  }

  predicate IsWhole(b: PieceBuffer) {
    b.bytesRead == |b.buffer|
  }

  /** The buffer after a read of `data` into its free part. */
  function Written(b: PieceBuffer, data: seq<Byte>): PieceBuffer
    requires b.bytesRead + |data| <= |b.buffer|
  {
    PieceBuffer(b.buffer[..b.bytesRead] + data + b.buffer[b.bytesRead + |data|..], b.bytesRead + |data|)
  }

  /** The buffer in place: reads land behind the bytes already there. */
  class Buffer {
    const buffer: array<Byte>
    var bytesRead: nat

    ghost predicate Valid()
      reads this
    {
      bytesRead <= buffer.Length
    }

    ghost function View(): PieceBuffer
      reads this, buffer
    {
      PieceBuffer(buffer[..], bytesRead)
    }

    constructor (pieceLength: nat)
      ensures Valid() && fresh(buffer)
      ensures buffer.Length == pieceLength && bytesRead == 0
    {
      buffer := new Byte[pieceLength](_ => 0);
      bytesRead := 0;
    }

    method WriteBytes(data: seq<Byte>)
      requires Valid() && |data| <= buffer.Length - bytesRead
      modifies this, buffer
      ensures Valid() && View() == Written(old(View()), data)
    {
      ghost var start, was := bytesRead, buffer[..];
      for i := 0 to |data|
        invariant bytesRead == start
        invariant buffer[..] == was[..start] + data[..i] + was[start + i..]
      {
        buffer[bytesRead + i] := data[i];
      }
      bytesRead := bytesRead + |data|;
    }

    /** What the pool does to a buffer handed back. */
    method Reset()
      modifies this
      ensures Valid() && View() == old(View()).(bytesRead := 0)
    {
      bytesRead := 0;
    }
  }

  // ----- States

  datatype Access = Compute(region: seq<Byte>) | PreComputed(hash: ShaHash)

  /** `hash` stands for SHA-1; the builder refuses zero workers and the model zero-length pieces. */
  datatype Config = Config(pieceLength: nat, workers: nat, hash: seq<Byte> -> ShaHash, accesses: seq<Access>)

  predicate ValidConfig(c: Config) {
    c.pieceLength > 0 && c.workers > 0
  }

  datatype WorkerMessage = HashPiece(index: nat, buf: PieceBuffer) | Finish

  datatype MasterMessage = AcceptPiece(index: nat, hash: ShaHash) | WorkerFinished

  /** Where a worker stands in its loop. */
  datatype Worker = Idle | Holding(index: nat, buf: PieceBuffer) | Sent(buf: PieceBuffer) | Leaving | Exited

  /** Where the master stands: between accesses, waiting for a buffer, filling one, about to push
      a whole one, telling the workers to finish, collecting results, done. */
  datatype Master =
    | Between(held: Option<PieceBuffer>)
    | Checkout(rest: seq<Byte>)
    | Filling(buf: PieceBuffer, rest: seq<Byte>)
    | Pushing(buf: PieceBuffer, rest: seq<Byte>)
    | Finishing(told: nat)
    | Waiting(finished: nat)
    | Done(result: seq<(nat, ShaHash)>)

  /** `issued` records the hashes of the pieces handed out so far; no step reads it. */
  datatype State = State(
    master: Master, todo: seq<Access>, pieceIndex: nat, pieces: seq<(nat, ShaHash)>,
    queue: seq<WorkerMessage>, workers: seq<Worker>, channel: seq<MasterMessage>, free: seq<PieceBuffer>,
    issued: seq<ShaHash>)

  function FreshBuffer(c: Config): (b: PieceBuffer)
    ensures ValidBuffer(c.pieceLength, b) && b.bytesRead == 0
  {
    PieceBuffer(seq(c.pieceLength, _ => 0), 0)
  }

  function Init(c: Config): State {
    State(Between(None), c.accesses, 0, [], [], seq(c.workers, _ => Idle), [], seq(2 * c.workers, _ => FreshBuffer(c)), [])
  }

  // ----- Steps

  datatype Action =
    | NextAccess | Close | TakeBuffer | Read(n: nat) | Push | TellFinish | StopTelling | Receive | Return
    | Pop(w: nat) | Send(w: nat) | Checkin(w: nat) | Leave(w: nat)

  /** A read returns at least one byte unless the region is exhausted, and at most what fits. */
  predicate LegalRead(b: PieceBuffer, rest: seq<Byte>, n: nat) {
    n <= |rest| && b.bytesRead + n <= |b.buffer| && (n == 0 ==> rest == [])
  }

  predicate Enabled(c: Config, s: State, a: Action) {
    match a
    case NextAccess => s.master.Between? && s.todo != []
    case Close => s.master.Between? && s.todo == []
    case TakeBuffer => s.master.Checkout? && s.free != []
    case Read(n) => s.master.Filling? && LegalRead(s.master.buf, s.master.rest, n)
    case Push => s.master.Pushing?
    case TellFinish => s.master.Finishing? && s.master.told < c.workers
    case StopTelling => s.master.Finishing? && s.master.told >= c.workers
    case Receive => s.master.Waiting? && s.master.finished < c.workers && s.channel != []
    case Return => s.master.Waiting? && s.master.finished >= c.workers
    case Pop(w) => w < |s.workers| && s.workers[w].Idle? && s.queue != []
    case Send(w) => w < |s.workers| && s.workers[w].Holding? && s.workers[w].buf.bytesRead <= |s.workers[w].buf.buffer|
    case Checkin(w) => w < |s.workers| && s.workers[w].Sent?
    case Leave(w) => w < |s.workers| && s.workers[w].Leaving?
  }

  function PushPiece(c: Config, s: State, b: PieceBuffer, next: Master): State {
    var h := if b.bytesRead <= |b.buffer| then c.hash(AsSlice(b)) else c.hash([]);
    s.(master := next, queue := s.queue + [HashPiece(s.pieceIndex, b)], pieceIndex := s.pieceIndex + 1, issued := s.issued + [h])
  }

  function Apply(c: Config, s: State, a: Action): State
    requires Enabled(c, s, a)
  {
    match a
    case NextAccess => (
      match s.todo[0]
      case Compute(region) =>
        s.(todo := s.todo[1..], master := match s.master.held case Some(b) => Filling(b, region) case None => Checkout(region))
      case PreComputed(h) =>
        s.(todo := s.todo[1..], pieces := s.pieces + [(s.pieceIndex, h)], pieceIndex := s.pieceIndex + 1, issued := s.issued + [h]))
    case Close =>
      if s.master.held.Some? && s.master.held.value.bytesRead != 0 then PushPiece(c, s, s.master.held.value, Finishing(0))
      else s.(master := Finishing(0))
    case TakeBuffer => s.(master := Filling(s.free[0], s.master.rest), free := s.free[1..])
    case Read(n) =>
      var b := Written(s.master.buf, s.master.rest[..n]);
      if n == 0 then s.(master := Between(Some(b)))
      else if IsWhole(b) then s.(master := Pushing(b, s.master.rest[n..]))
      else s.(master := Filling(b, s.master.rest[n..]))
    case Push => PushPiece(c, s, s.master.buf, Checkout(s.master.rest))
    case TellFinish => s.(master := Finishing(s.master.told + 1), queue := s.queue + [Finish])
    case StopTelling => s.(master := Waiting(0))
    case Receive => (
      match s.channel[0]
      case AcceptPiece(i, h) => s.(channel := s.channel[1..], pieces := s.pieces + [(i, h)])
      case WorkerFinished => s.(channel := s.channel[1..], master := Waiting(s.master.finished + 1)))
    case Return => s.(master := Done(SortByIndex(s.pieces)))
    case Pop(w) => (
      match s.queue[0]
      case HashPiece(i, b) => s.(queue := s.queue[1..], workers := s.workers[w := Holding(i, b)])
      case Finish => s.(queue := s.queue[1..], workers := s.workers[w := Leaving]))
    case Send(w) =>
      var b := s.workers[w].buf;
      s.(channel := s.channel + [AcceptPiece(s.workers[w].index, c.hash(AsSlice(b)))], workers := s.workers[w := Sent(b)])
    case Checkin(w) => s.(free := s.free + [s.workers[w].buf.(bytesRead := 0)], workers := s.workers[w := Idle])
    case Leave(w) => s.(channel := s.channel + [WorkerFinished], workers := s.workers[w := Exited])
  }

  ghost predicate Step(c: Config, s: State, t: State) {
    exists a :: Enabled(c, s, a) && t == Apply(c, s, a)
  }

  // ----- The final sort

  function SortByIndex(ps: seq<(nat, ShaHash)>): seq<(nat, ShaHash)> {
    if ps == [] then [] else SortIn(SortByIndex(ps[..|ps| - 1]), ps[|ps| - 1])
  }

  function SortIn(ps: seq<(nat, ShaHash)>, p: (nat, ShaHash)): seq<(nat, ShaHash)> {
    if ps == [] || ps[|ps| - 1].0 <= p.0 then ps + [p] else SortIn(ps[..|ps| - 1], p) + [ps[|ps| - 1]]
  }

  // ----- The sequential reference

  /** Hashes handed out so far and the bytes of the piece being filled. */
  datatype Progress = Progress(issued: seq<ShaHash>, partial: seq<Byte>)

  function Feed(c: Config, p: Progress, region: seq<Byte>): (r: Progress)
    requires |p.partial| < c.pieceLength
    ensures |r.partial| < c.pieceLength
    decreases |region|
  {
    if |p.partial| + |region| < c.pieceLength then Progress(p.issued, p.partial + region)
    else
      var k := c.pieceLength - |p.partial|;
      Feed(c, Progress(p.issued + [c.hash(p.partial + region[..k])], []), region[k..])
  }

  function FeedAll(c: Config, p: Progress, todo: seq<Access>): (r: Progress)
    requires |p.partial| < c.pieceLength
    ensures |r.partial| < c.pieceLength
    decreases |todo|
  {
    if todo == [] then p
    else match todo[0]
      case Compute(region) => FeedAll(c, Feed(c, p, region), todo[1..])
      case PreComputed(h) => FeedAll(c, Progress(p.issued + [h], p.partial), todo[1..])
  }

  function Finished(c: Config, p: Progress): seq<ShaHash> {
    if p.partial == [] then p.issued else p.issued + [c.hash(p.partial)]
  }

  /** One piece after another, on one thread. */
  function Sequential(c: Config): seq<ShaHash>
    requires c.pieceLength > 0
  {
    Finished(c, FeedAll(c, Progress([], []), c.accesses))
  }

  function Indexed(hs: seq<ShaHash>): (r: seq<(nat, ShaHash)>) {
    seq(|hs|, i requires 0 <= i < |hs| => (i, hs[i]))
  }
}
