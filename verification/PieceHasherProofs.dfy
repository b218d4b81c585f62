/** Every interleaving of the hasher ends, never deadlocks, and computes the sequential result. */
module PieceHasherProofs {
  import opened Bytes
  import opened Sha
  import opened Sums
  import opened PieceHasher

  // ----- Shapes

  predicate MasterOk(c: Config, m: Master) {
    match m
    case Between(held) => held.Some? ==> ValidBuffer(c.pieceLength, held.value) && !IsWhole(held.value)
    case Checkout(_) => true
    case Filling(b, _) => ValidBuffer(c.pieceLength, b) && !IsWhole(b)
    case Pushing(b, _) => ValidBuffer(c.pieceLength, b) && IsWhole(b)
    case Finishing(told) => told <= c.workers
    case Waiting(finished) => finished <= c.workers
    case Done(_) => true
  }

  predicate WorkerOk(c: Config, w: Worker) {
    w.Holding? || w.Sent? ==> ValidBuffer(c.pieceLength, w.buf)
  }

  predicate Structure(c: Config, s: State) {
    && |s.workers| == c.workers && s.pieceIndex == |s.issued|
    && (forall i :: 0 <= i < |s.free| ==> ValidBuffer(c.pieceLength, s.free[i]) && s.free[i].bytesRead == 0)
    && (forall i :: 0 <= i < |s.queue| && s.queue[i].HashPiece? ==> ValidBuffer(c.pieceLength, s.queue[i].buf))
    && (forall w :: 0 <= w < |s.workers| ==> WorkerOk(c, s.workers[w]))
    && MasterOk(c, s.master)
    && (s.master.Done? ==> s.master.result == SortByIndex(s.pieces))
  }

  lemma StructureKept(c: Config, s: State, a: Action)
    requires ValidConfig(c) && Structure(c, s) && Enabled(c, s, a)
    ensures Structure(c, Apply(c, s, a))
  {
    hide SortByIndex;
  }

  // ----- What the pieces will be

  /** The hashes the run will have handed out when the master is done. */
  function Outlook(c: Config, s: State): seq<ShaHash>
    requires ValidConfig(c) && Structure(c, s)
  {
    match s.master
    case Between(held) =>
      Finished(c, FeedAll(c, Progress(s.issued, if held.Some? then AsSlice(held.value) else []), s.todo))
    case Checkout(rest) => Finished(c, FeedAll(c, Feed(c, Progress(s.issued, []), rest), s.todo))
    case Filling(b, rest) => Finished(c, FeedAll(c, Feed(c, Progress(s.issued, AsSlice(b)), rest), s.todo))
    case Pushing(b, rest) => Finished(c, FeedAll(c, Feed(c, Progress(s.issued + [c.hash(AsSlice(b))], []), rest), s.todo))
    case _ => s.issued
  }

  lemma Splice(p: seq<Byte>, data: seq<Byte>, n: nat, k: nat)
    requires n <= k <= |data|
    ensures p + data[..k] == (p + data[..n]) + data[n..][..k - n]
    ensures data[k..] == data[n..][k - n..]
  {
    assert data[..k] == data[..n] + data[n..][..k - n];
  }

  lemma FeedPartial(c: Config, p: Progress, data: seq<Byte>)
    requires |p.partial| + |data| < c.pieceLength
    ensures Feed(c, p, data) == Progress(p.issued, p.partial + data)
  {}

  lemma FeedWhole(c: Config, p: Progress, data: seq<Byte>, k: nat)
    requires |p.partial| < c.pieceLength == |p.partial| + k && k <= |data|
    ensures Feed(c, p, data) == Feed(c, Progress(p.issued + [c.hash(p.partial + data[..k])], []), data[k..])
  {
    assert k == c.pieceLength - |p.partial|;
  }

  /** Bytes may be fed in any number of short reads. */
  lemma FeedShort(c: Config, p: Progress, data: seq<Byte>, n: nat)
    requires |p.partial| < c.pieceLength && n <= |data| && |p.partial| + n < c.pieceLength
    ensures Feed(c, p, data) == Feed(c, Progress(p.issued, p.partial + data[..n]), data[n..])
  {
    hide Feed;
    if |p.partial| + |data| < c.pieceLength {
      FeedPartial(c, p, data);
      FeedPartial(c, Progress(p.issued, p.partial + data[..n]), data[n..]);
      Splice(p.partial, data, n, |data|);
      assert data[..|data|] == data && data[n..][..|data| - n] == data[n..];
    } else {
      var k := c.pieceLength - |p.partial|;
      FeedWhole(c, p, data, k);
      FeedWhole(c, Progress(p.issued, p.partial + data[..n]), data[n..], k - n);
      Splice(p.partial, data, n, k);
    }
  }

  lemma WrittenSlice(b: PieceBuffer, data: seq<Byte>)
    requires b.bytesRead + |data| <= |b.buffer|
    ensures AsSlice(Written(b, data)) == AsSlice(b) + data && |Written(b, data).buffer| == |b.buffer|
  {}

  lemma OutlookKeptByRead(c: Config, s: State, n: nat)
    requires ValidConfig(c) && Structure(c, s) && Enabled(c, s, Read(n)) && Structure(c, Apply(c, s, Read(n)))
    ensures Outlook(c, Apply(c, s, Read(n))) == Outlook(c, s)
  {
    hide FeedAll, Finished;
    var b, rest := s.master.buf, s.master.rest;
    WrittenSlice(b, rest[..n]);
    var p := Progress(s.issued, AsSlice(b));
    if n == 0 {
      assert AsSlice(b) + rest[..0] == AsSlice(b) + rest == AsSlice(b);
    } else if IsWhole(Written(b, rest[..n])) {
      FeedWhole(c, p, rest, n);
    } else {
      FeedShort(c, p, rest, n);
    }
  }

  lemma OutlookKept(c: Config, s: State, a: Action)
    requires ValidConfig(c) && Structure(c, s) && Enabled(c, s, a)
    ensures Structure(c, Apply(c, s, a)) && Outlook(c, Apply(c, s, a)) == Outlook(c, s)
  {
    hide SortByIndex;
    StructureKept(c, s, a);
    match a
    case Read(n) => OutlookKeptByRead(c, s, n);
    case TakeBuffer => assert AsSlice(s.free[0]) == [];
    case _ =>
  }

  // ----- Every piece handed out is somewhere, exactly once

  function QueueToken(c: Config, x: (nat, ShaHash)): WorkerMessage -> nat {
    (m: WorkerMessage) => if m.HashPiece? && m.buf.bytesRead <= |m.buf.buffer| && (m.index, c.hash(AsSlice(m.buf))) == x then 1 else 0
  }

  function WorkerToken(c: Config, x: (nat, ShaHash)): Worker -> nat {
    (w: Worker) => if w.Holding? && w.buf.bytesRead <= |w.buf.buffer| && (w.index, c.hash(AsSlice(w.buf))) == x then 1 else 0
  }

  function ChannelToken(x: (nat, ShaHash)): MasterMessage -> nat {
    (m: MasterMessage) => if m.AcceptPiece? && (m.index, m.hash) == x then 1 else 0
  }

  function PieceToken(x: (nat, ShaHash)): ((nat, ShaHash)) -> nat {
    p => if p == x then 1 else 0
  }

  /** How many copies of the indexed hash `x` are queued, being hashed, sent or received. */
  function Tokens(c: Config, s: State, x: (nat, ShaHash)): nat {
    Sum(s.queue, QueueToken(c, x)) + Sum(s.workers, WorkerToken(c, x)) + Sum(s.channel, ChannelToken(x)) + Sum(s.pieces, PieceToken(x))
  }

  function IsIssued(hs: seq<ShaHash>, x: (nat, ShaHash)): nat {
    if x.0 < |hs| && hs[x.0] == x.1 then 1 else 0
  }

  ghost predicate Conserved(c: Config, s: State) {
    forall x :: Tokens(c, s, x) == IsIssued(s.issued, x)
  }

  lemma ConservedKept(c: Config, s: State, a: Action)
    requires ValidConfig(c) && Structure(c, s) && Enabled(c, s, a) && Conserved(c, s)
    ensures Conserved(c, Apply(c, s, a))
  {
    forall x ensures Tokens(c, Apply(c, s, a), x) == IsIssued(Apply(c, s, a).issued, x) {
      assert Tokens(c, s, x) == IsIssued(s.issued, x);
      TokenKept(c, s, a, x);
    }
  }

  predicate ByWorker(a: Action) {
    a.Pop? || a.Send? || a.Checkin? || a.Leave?
  }

  /** A step moves tokens about; only handing out a piece makes one. */
  lemma TokenKept(c: Config, s: State, a: Action, x: (nat, ShaHash))
    requires Structure(c, s) && Enabled(c, s, a)
    ensures Tokens(c, Apply(c, s, a), x) + IsIssued(s.issued, x) == Tokens(c, s, x) + IsIssued(Apply(c, s, a).issued, x)
  {
    if ByWorker(a) {
      TokenKeptByWorker(c, s, a, x);
    } else {
      TokenKeptByMaster(c, s, a, x);
    }
  }

  lemma TokenKeptByMaster(c: Config, s: State, a: Action, x: (nat, ShaHash))
    requires Structure(c, s) && Enabled(c, s, a) && !ByWorker(a)
    ensures Tokens(c, Apply(c, s, a), x) + IsIssued(s.issued, x) == Tokens(c, s, x) + IsIssued(Apply(c, s, a).issued, x)
  {
    hide Sum, SortByIndex, AsSlice, Written;
    match a
    case NextAccess =>
      if s.todo[0].PreComputed? {
        SumAppend(s.pieces, (s.pieceIndex, s.todo[0].hash), PieceToken(x));
      }
    case Close =>
      if s.master.held.Some? && s.master.held.value.bytesRead != 0 {
        SumAppend(s.queue, HashPiece(s.pieceIndex, s.master.held.value), QueueToken(c, x));
      }
    case Push => SumAppend(s.queue, HashPiece(s.pieceIndex, s.master.buf), QueueToken(c, x));
    case TellFinish => SumAppend(s.queue, Finish, QueueToken(c, x));
    case Receive =>
      SumHead(s.channel, ChannelToken(x));
      if s.channel[0].AcceptPiece? {
        SumAppend(s.pieces, (s.channel[0].index, s.channel[0].hash), PieceToken(x));
      }
    case _ =>
  }

  lemma TokenKeptByWorker(c: Config, s: State, a: Action, x: (nat, ShaHash))
    requires Structure(c, s) && Enabled(c, s, a) && ByWorker(a)
    ensures Tokens(c, Apply(c, s, a), x) == Tokens(c, s, x) && Apply(c, s, a).issued == s.issued
  {
    hide Sum, SortByIndex;
    SumUpdate(s.workers, a.w, Apply(c, s, a).workers[a.w], WorkerToken(c, x));
    if a.Pop? {
      SumHead(s.queue, QueueToken(c, x));
    } else if a.Send? {
      SumAppend(s.channel, AcceptPiece(s.workers[a.w].index, c.hash(AsSlice(s.workers[a.w].buf))), ChannelToken(x));
    } else if a.Leave? {
      SumAppend(s.channel, WorkerFinished, ChannelToken(x));
    }
  }

  // ----- Buffers

  predicate Reading(m: Master) {
    m.Between? || m.Checkout? || m.Filling? || m.Pushing?
  }

  function QueueBuffer(m: WorkerMessage): nat {
    if m.HashPiece? then 1 else 0
  }

  function WorkerBuffer(w: Worker): nat {
    if w.Holding? || w.Sent? then 1 else 0
  }

  function MasterBuffer(m: Master): nat {
    if m.Filling? || m.Pushing? || (m.Between? && m.held.Some?) then 1 else 0
  }

  /** While the master reads, the free, queued, worked-on and held buffers are all there are. */
  predicate BuffersKept(c: Config, s: State) {
    Reading(s.master) ==>
      |s.free| + Sum(s.queue, QueueBuffer) + Sum(s.workers, WorkerBuffer) + MasterBuffer(s.master) == 2 * c.workers
  }

  lemma BuffersKeptByStep(c: Config, s: State, a: Action)
    requires Structure(c, s) && Enabled(c, s, a) && BuffersKept(c, s)
    ensures BuffersKept(c, Apply(c, s, a))
  {
    if ByWorker(a) {
      BuffersKeptByWorker(c, s, a);
    } else {
      BuffersKeptByMaster(c, s, a);
    }
  }

  lemma BuffersKeptByMaster(c: Config, s: State, a: Action)
    requires Structure(c, s) && Enabled(c, s, a) && BuffersKept(c, s) && !ByWorker(a)
    ensures BuffersKept(c, Apply(c, s, a))
  {
    hide Sum, SortByIndex, Structure, Written, AsSlice;
    if a.Push? {
      SumAppend(s.queue, HashPiece(s.pieceIndex, s.master.buf), QueueBuffer);
    }
  }

  lemma BuffersKeptByWorker(c: Config, s: State, a: Action)
    requires Structure(c, s) && Enabled(c, s, a) && BuffersKept(c, s) && ByWorker(a)
    ensures BuffersKept(c, Apply(c, s, a))
  {
    hide Sum, Structure, AsSlice;
    SumUpdate(s.workers, a.w, Apply(c, s, a).workers[a.w], WorkerBuffer);
    if a.Pop? {
      SumHead(s.queue, QueueBuffer);
    }
  }

  // ----- Shutting down

  function QueueFinish(m: WorkerMessage): nat {
    if m.Finish? then 1 else 0
  }

  function Gone(w: Worker): nat {
    if w.Leaving? || w.Exited? then 1 else 0
  }

  function HasExited(w: Worker): nat {
    if w.Exited? then 1 else 0
  }

  function ChannelFinished(m: MasterMessage): nat {
    if m.WorkerFinished? then 1 else 0
  }

  function Told(c: Config, m: Master): nat {
    if Reading(m) then 0 else if m.Finishing? then m.told else c.workers
  }

  function Collected(c: Config, m: Master): nat {
    if m.Waiting? then m.finished else if m.Done? then c.workers else 0
  }

  /** Each finish message is queued or was taken by one worker, behind all the pieces; each
      exit is announced after everything that worker sent. */
  predicate Orderly(c: Config, s: State) {
    && Sum(s.queue, QueueFinish) + Sum(s.workers, Gone) == Told(c, s.master)
    && Sum(s.workers, HasExited) == Sum(s.channel, ChannelFinished) + Collected(c, s.master)
    && (forall i, j :: 0 <= i < j < |s.queue| && s.queue[i].Finish? ==> s.queue[j].Finish?)
    && (Sum(s.workers, Gone) > 0 ==> forall i :: 0 <= i < |s.queue| ==> s.queue[i].Finish?)
    && (s.channel != [] && s.channel[|s.channel| - 1].AcceptPiece? ==> Sum(s.workers, HasExited) < |s.workers|)
  }

  lemma NoFinishQueued(s: State)
    requires Sum(s.queue, QueueFinish) == 0
    ensures forall i :: 0 <= i < |s.queue| ==> s.queue[i].HashPiece?
  {
    forall i | 0 <= i < |s.queue| ensures s.queue[i].HashPiece? {
      SumPart(s.queue, i, QueueFinish);
    }
  }

  lemma SomeoneStays(s: State, w: nat)
    requires w < |s.workers| && !s.workers[w].Exited?
    ensures Sum(s.workers, HasExited) < |s.workers|
  {
    SumBelow(s.workers, HasExited, w);
  }

  lemma OrderlyKept(c: Config, s: State, a: Action)
    requires Structure(c, s) && Enabled(c, s, a) && Orderly(c, s)
    ensures Orderly(c, Apply(c, s, a))
  {
    if ByWorker(a) {
      OrderlyCounts(c, s, a);
      OrderlyKeptByWorker(c, s, a);
    } else {
      OrderlyKeptByMaster(c, s, a);
    }
  }

  lemma OrderlyKeptByMaster(c: Config, s: State, a: Action)
    requires Structure(c, s) && Enabled(c, s, a) && Orderly(c, s) && !ByWorker(a)
    ensures Orderly(c, Apply(c, s, a))
  {
    if a.Close? || a.Push? || a.TellFinish? {
      OrderlyKeptByPush(c, s, a);
    } else if a.Receive? {
      OrderlyKeptByReceive(c, s);
    } else {
      hide Sum, SortByIndex, Structure, Written, AsSlice;
    }
  }

  lemma OrderlyKeptByReceive(c: Config, s: State)
    requires Enabled(c, s, Receive) && Orderly(c, s)
    ensures Orderly(c, Apply(c, s, Receive))
  {
    hide Sum, AsSlice;
    SumHead(s.channel, ChannelFinished);
  }

  lemma OrderlyKeptByPush(c: Config, s: State, a: Action)
    requires Structure(c, s) && Enabled(c, s, a) && Orderly(c, s) && (a.Close? || a.Push? || a.TellFinish?)
    ensures Orderly(c, Apply(c, s, a))
  {
    hide Sum, Structure, AsSlice;
    var t := Apply(c, s, a);
    if Reading(s.master) {
      NoFinishQueued(s);
    }
    if t.queue != s.queue {
      SumAppend(s.queue, t.queue[|s.queue|], QueueFinish);
      assert t.queue == s.queue + [t.queue[|s.queue|]];
    }
  }

  /** How one worker step moves the finish messages and the announced exits. */
  predicate WorkerMoves(s: State, a: Action, t: State) {
    && Sum(t.queue, QueueFinish) + Sum(t.workers, Gone) == Sum(s.queue, QueueFinish) + Sum(s.workers, Gone)
    && Sum(t.workers, HasExited) + Sum(s.channel, ChannelFinished) == Sum(s.workers, HasExited) + Sum(t.channel, ChannelFinished)
    && (Sum(t.workers, Gone) > Sum(s.workers, Gone) ==> a.Pop? && s.queue != [] && s.queue[0].Finish?)
    && (Sum(t.workers, HasExited) > Sum(s.workers, HasExited) ==> a.Leave?)
    && (a.Send? ==> Sum(t.workers, HasExited) < |t.workers|)
  }

  lemma OrderlyCounts(c: Config, s: State, a: Action)
    requires Structure(c, s) && Enabled(c, s, a) && ByWorker(a)
    ensures WorkerMoves(s, a, Apply(c, s, a))
  {
    hide Sum, AsSlice;
    var t := Apply(c, s, a);
    if a.Pop? {
      SumHead(s.queue, QueueFinish);
    }
    SumUpdate(s.workers, a.w, t.workers[a.w], Gone);
    SumUpdate(s.workers, a.w, t.workers[a.w], HasExited);
    if a.Send? || a.Leave? {
      SumAppend(s.channel, t.channel[|s.channel|], ChannelFinished);
    }
    if a.Send? {
      SomeoneStays(t, a.w);
    }
  }

  lemma OrderlyKeptByWorker(c: Config, s: State, a: Action)
    requires Structure(c, s) && Enabled(c, s, a) && Orderly(c, s) && ByWorker(a)
    requires WorkerMoves(s, a, Apply(c, s, a))
    ensures Orderly(c, Apply(c, s, a))
  {
    hide Sum;
  }

  // ----- Whole runs

  ghost predicate Inv(c: Config, s: State) {
    && ValidConfig(c) && Structure(c, s) && Conserved(c, s) && BuffersKept(c, s) && Orderly(c, s)
    && Outlook(c, s) == Sequential(c)
  }

  ghost predicate IsRun(c: Config, run: seq<State>) {
    run != [] && run[0] == Init(c) && forall i :: 0 <= i < |run| - 1 ==> Step(c, run[i], run[i + 1])
  }

  lemma InitInv(c: Config)
    requires ValidConfig(c)
    ensures Inv(c, Init(c))
  {
    var s := Init(c);
    SumZero(s.workers, Gone);
    SumZero(s.workers, HasExited);
    SumZero(s.workers, WorkerBuffer);
    forall x ensures Tokens(c, s, x) == IsIssued(s.issued, x) {
      SumZero(s.workers, WorkerToken(c, x));
    }
  }

  lemma InvKept(c: Config, s: State, t: State)
    requires ValidConfig(c) && Inv(c, s) && Step(c, s, t)
    ensures Inv(c, t)
  {
    hide Structure, Conserved, BuffersKept, Orderly, Outlook, Apply;
    var a :| Enabled(c, s, a) && t == Apply(c, s, a);
    hide Enabled;
    OutlookKept(c, s, a);
    ConservedKept(c, s, a);
    BuffersKeptByStep(c, s, a);
    OrderlyKept(c, s, a);
  }

  lemma {:induction false} RunInv(c: Config, run: seq<State>, i: nat)
    requires ValidConfig(c) && IsRun(c, run) && i < |run|
    ensures Inv(c, run[i])
  {
    hide Inv, Step, Init;
    if i == 0 {
      InitInv(c);
    } else {
      RunInv(c, run, i - 1);
      assert Step(c, run[i - 1], run[i - 1 + 1]);
      InvKept(c, run[i - 1], run[i]);
    }
  }

  /** In a finished state nothing is queued, worked on or on its way. */
  lemma NothingLeft(c: Config, s: State)
    requires Structure(c, s) && Orderly(c, s) && Collected(c, s.master) == c.workers && ValidConfig(c)
    ensures s.queue == [] && s.channel == [] && forall w :: 0 <= w < |s.workers| ==> s.workers[w].Exited?
  {
    hide SortByIndex;
    SumBound(s.workers, HasExited, 1);
    forall w | 0 <= w < |s.workers| ensures s.workers[w].Exited? {
      if !s.workers[w].Exited? {
        SomeoneStays(s, w);
      }
    }
    if s.channel != [] {
      SumPart(s.channel, |s.channel| - 1, ChannelFinished);
    }
    SumAllOnes(s.workers, Gone);
  }

  // ----- The sorted list

  predicate Ascending(ps: seq<(nat, ShaHash)>) {
    forall i, j :: 0 <= i < j < |ps| ==> ps[i].0 <= ps[j].0
  }

  lemma {:induction false} SortInMembers(ps: seq<(nat, ShaHash)>, p: (nat, ShaHash))
    ensures forall q :: q in SortIn(ps, p) ==> q in ps || q == p
  {
    if ps != [] && p.0 < ps[|ps| - 1].0 {
      SortInMembers(ps[..|ps| - 1], p);
    }
  }

  lemma {:induction false} SortInSum(ps: seq<(nat, ShaHash)>, p: (nat, ShaHash), f: ((nat, ShaHash)) -> nat)
    ensures Sum(SortIn(ps, p), f) == Sum(ps, f) + f(p)
  {
    if ps == [] || ps[|ps| - 1].0 <= p.0 {
      SumAppend(ps, p, f);
    } else {
      var front, last := ps[..|ps| - 1], ps[|ps| - 1];
      SortInSum(front, p, f);
      SumAppend(front, last, f);
      SumAppend(SortIn(front, p), last, f);
      assert ps == front + [last];
    }
  }

  lemma {:induction false} SortInAscends(ps: seq<(nat, ShaHash)>, p: (nat, ShaHash))
    requires Ascending(ps)
    ensures Ascending(SortIn(ps, p))
  {
    if ps != [] && p.0 < ps[|ps| - 1].0 {
      var front := ps[..|ps| - 1];
      SortInAscends(front, p);
      SortInMembers(front, p);
      var q := SortIn(front, p);
      forall i | 0 <= i < |q| ensures q[i].0 <= ps[|ps| - 1].0 {
        assert q[i] in q;
      }
    }
  }

  lemma {:induction false} SortAscends(ps: seq<(nat, ShaHash)>)
    ensures Ascending(SortByIndex(ps))
  {
    if ps != [] {
      SortAscends(ps[..|ps| - 1]);
      SortInAscends(SortByIndex(ps[..|ps| - 1]), ps[|ps| - 1]);
    }
  }

  lemma {:induction false} SortSum(ps: seq<(nat, ShaHash)>, f: ((nat, ShaHash)) -> nat)
    ensures Sum(SortByIndex(ps), f) == Sum(ps, f)
  {
    if ps != [] {
      var front, last := ps[..|ps| - 1], ps[|ps| - 1];
      SortSum(front, f);
      SortInSum(SortByIndex(front), last, f);
      SumAppend(front, last, f);
      assert ps == front + [last];
    }
  }

  /** An ascending list holding each indexed hash once is the indexed list. */
  lemma {:induction false} AscendingIsIndexed(ps: seq<(nat, ShaHash)>, hs: seq<ShaHash>)
    requires Ascending(ps) && forall x: (nat, ShaHash) :: Sum(ps, PieceToken(x)) == IsIssued(hs, x)
    ensures ps == Indexed(hs)
  {
    forall i | 0 <= i < |ps| ensures ps[i].0 < |hs| && hs[ps[i].0] == ps[i].1 {
      SumPart(ps, i, PieceToken(ps[i]));
    }
    if hs == [] {
      assert |ps| > 0 ==> ps[0].0 < 0;
    } else {
      var n := |hs| - 1;
      var x: (nat, ShaHash) := (n, hs[n]);
      assert Sum(ps, PieceToken(x)) == 1;
      var j := SumPositive(ps, PieceToken(x));
      var front := ps[..|ps| - 1];
      assert ps[|ps| - 1] == x;
      assert ps == front + [x];
      forall y: (nat, ShaHash) ensures Sum(front, PieceToken(y)) == IsIssued(hs[..n], y) {
        SumAppend(front, x, PieceToken(y));
        assert Sum(ps, PieceToken(y)) == IsIssued(hs, y);
      }
      AscendingIsIndexed(front, hs[..n]);
      assert Indexed(hs) == Indexed(hs[..n]) + [x];
    }
  }

  /** Whatever the interleaving, a finished run returns the sequential hashes in order. */
  lemma ResultIsSequential(c: Config, s: State)
    requires Inv(c, s) && s.master.Done?
    ensures s.master.result == Indexed(Sequential(c))
  {
    NothingLeft(c, s);
    SortAscends(s.pieces);
    forall x: (nat, ShaHash) ensures Sum(SortByIndex(s.pieces), PieceToken(x)) == IsIssued(s.issued, x) {
      assert Tokens(c, s, x) == IsIssued(s.issued, x);
      SumZero(s.workers, WorkerToken(c, x));
      SortSum(s.pieces, PieceToken(x));
    }
    AscendingIsIndexed(SortByIndex(s.pieces), s.issued);
  }

  // ----- Progress

  lemma WorkerCanStep(c: Config, s: State, w: nat) returns (a: Action)
    requires Structure(c, s) && w < |s.workers| && !s.workers[w].Exited? && (s.workers[w].Idle? ==> s.queue != [])
    ensures Enabled(c, s, a)
  {
    a := match s.workers[w]
      case Idle => Pop(w)
      case Holding(_, _) => Send(w)
      case Sent(_) => Checkin(w)
      case Leaving => Leave(w)
      case Exited => Leave(w);
  }

  /** A master waiting for a buffer is waiting for some worker that can move. */
  lemma CheckoutIsServed(c: Config, s: State) returns (a: Action)
    requires ValidConfig(c) && Structure(c, s) && BuffersKept(c, s) && Orderly(c, s) && s.master.Checkout?
    ensures Enabled(c, s, a)
  {
    hide SortByIndex;
    if s.free != [] {
      a := TakeBuffer;
    } else if Sum(s.workers, WorkerBuffer) > 0 {
      var w := SumPositive(s.workers, WorkerBuffer);
      a := WorkerCanStep(c, s, w);
    } else {
      SumPart(s.workers, 0, Gone);
      a := WorkerCanStep(c, s, 0);
    }
  }

  /** A master waiting for results is waiting for some worker that can move. */
  lemma WaitingIsServed(c: Config, s: State) returns (a: Action)
    requires Structure(c, s) && Orderly(c, s) && s.master.Waiting?
    ensures Enabled(c, s, a)
  {
    hide SortByIndex;
    if s.master.finished >= c.workers {
      a := Return;
    } else if s.channel != [] {
      a := Receive;
    } else {
      if forall w :: 0 <= w < |s.workers| ==> s.workers[w].Exited? {
        SumAllOnes(s.workers, HasExited);
      }
      var w :| 0 <= w < |s.workers| && !s.workers[w].Exited?;
      if s.workers[w].Idle? {
        SumBelow(s.workers, Gone, w);
      }
      a := WorkerCanStep(c, s, w);
    }
  }

  ghost predicate CanStep(c: Config, s: State) {
    exists t :: Step(c, s, t)
  }

  lemma NoDeadlock(c: Config, s: State)
    requires Inv(c, s) && !s.master.Done?
    ensures CanStep(c, s)
  {
    var a;
    match s.master {
      case Between(_) => a := if s.todo == [] then Close else NextAccess;
      case Checkout(_) => a := CheckoutIsServed(c, s);
      case Filling(_, rest) => a := Read(if rest == [] then 0 else 1);
      case Pushing(_, _) => a := Push;
      case Finishing(told) => a := if told < c.workers then TellFinish else StopTelling;
      case Waiting(_) => a := WaitingIsServed(c, s);
    }
    assert Enabled(c, s, a);
    assert Step(c, s, Apply(c, s, a));
  }

  function QueueWeight(m: WorkerMessage): nat {
    if m.HashPiece? then 4 else 3
  }

  function WorkerWeight(w: Worker): nat {
    match w case Idle => 0 case Holding(_, _) => 3 case Sent(_) => 1 case Leaving => 2 case Exited => 0
  }

  function AccessWeight(a: Access): nat {
    if a.Compute? then 10 + 10 * |a.region| else 10
  }

  function MasterWeight(c: Config, m: Master): nat {
    match m
    case Between(_) => 7 + 4 * c.workers
    case Checkout(rest) => 9 + 4 * c.workers + 10 * |rest|
    case Filling(_, rest) => 8 + 4 * c.workers + 10 * |rest|
    case Pushing(_, rest) => 14 + 4 * c.workers + 10 * |rest|
    case Finishing(told) => 2 + if told < c.workers then 4 * (c.workers - told) else 0
    case Waiting(_) => 1
    case Done(_) => 0
  }

  /** The work left; every step does some of it. */
  function WorkLeft(c: Config, s: State): nat {
    MasterWeight(c, s.master) + Sum(s.todo, AccessWeight) + Sum(s.queue, QueueWeight) + Sum(s.workers, WorkerWeight) + |s.channel|
  }

  lemma StepWorks(c: Config, s: State, t: State)
    requires Step(c, s, t)
    ensures WorkLeft(c, t) < WorkLeft(c, s)
  {
    hide Enabled, Apply, WorkLeft;
    var a :| Enabled(c, s, a) && t == Apply(c, s, a);
    if ByWorker(a) {
      WorkerWorks(c, s, a);
    } else {
      MasterWorks(c, s, a);
    }
  }

  lemma WorkerWorks(c: Config, s: State, a: Action)
    requires Enabled(c, s, a) && ByWorker(a)
    ensures WorkLeft(c, Apply(c, s, a)) < WorkLeft(c, s)
  {
    hide Sum, AsSlice;
    if a.Pop? {
      SumHead(s.queue, QueueWeight);
    }
    SumUpdate(s.workers, a.w, Apply(c, s, a).workers[a.w], WorkerWeight);
  }

  lemma MasterWorks(c: Config, s: State, a: Action)
    requires Enabled(c, s, a) && !ByWorker(a)
    ensures WorkLeft(c, Apply(c, s, a)) < WorkLeft(c, s)
  {
    hide Sum, SortByIndex, AsSlice, Written;
    match a
    case NextAccess => SumHead(s.todo, AccessWeight);
    case Close =>
      if s.master.held.Some? {
        SumAppend(s.queue, HashPiece(s.pieceIndex, s.master.held.value), QueueWeight);
      }
    case Push => SumAppend(s.queue, HashPiece(s.pieceIndex, s.master.buf), QueueWeight);
    case TellFinish => SumAppend(s.queue, Finish, QueueWeight);
    case _ =>
  }

  /** No run is longer than the work it started with. */
  lemma {:induction false} RunsEnd(c: Config, run: seq<State>, i: nat)
    requires ValidConfig(c) && IsRun(c, run) && i < |run|
    ensures i + WorkLeft(c, run[i]) <= WorkLeft(c, Init(c))
  {
    hide Step, WorkLeft, Init;
    if i > 0 {
      RunsEnd(c, run, i - 1);
      RunInv(c, run, i - 1);
      assert Step(c, run[i - 1], run[i - 1 + 1]);
      StepWorks(c, run[i - 1], run[i]);
    }
  }

  /** Under every scheduler: a run that cannot go on has returned exactly the sequential result. */
  lemma MaximalRunsAreCorrect(c: Config, run: seq<State>)
    requires ValidConfig(c) && IsRun(c, run) && !CanStep(c, run[|run| - 1])
    ensures run[|run| - 1].master == Done(Indexed(Sequential(c)))
  {
    hide Step, Inv;
    var s := run[|run| - 1];
    RunInv(c, run, |run| - 1);
    if s.master.Done? {
      ResultIsSequential(c, s);
    } else {
      NoDeadlock(c, s);
    }
  }

  // ----- Chunks

  function Chunks(length: nat, data: seq<Byte>): seq<seq<Byte>>
    requires length > 0
  {
    if data == [] then [] else if |data| <= length then [data] else [data[..length]] + Chunks(length, data[length..])
  }

  function HashAll(c: Config, chunks: seq<seq<Byte>>): (r: seq<ShaHash>) {
    if chunks == [] then [] else [c.hash(chunks[0])] + HashAll(c, chunks[1..])
  }

  function Concat(todo: seq<Access>): seq<Byte>
    requires forall i :: 0 <= i < |todo| ==> todo[i].Compute?
  {
    if todo == [] then [] else todo[0].region + Concat(todo[1..])
  }

  /** The hashes still due for the bytes of a partial piece and all that follow. */
  function Rest(c: Config, p: Progress, data: seq<Byte>): seq<ShaHash>
    requires c.pieceLength > 0
  {
    p.issued + HashAll(c, Chunks(c.pieceLength, p.partial + data))
  }

  lemma CutOne(c: Config, p: Progress, data: seq<Byte>, tail: seq<Byte>, k: nat)
    requires |p.partial| < c.pieceLength == |p.partial| + k && k <= |data|
    ensures Rest(c, p, data + tail) == Rest(c, Progress(p.issued + [c.hash(p.partial + data[..k])], []), data[k..] + tail)
  {
    var all, head, left := p.partial + (data + tail), p.partial + data[..k], [] + (data[k..] + tail);
    assert all[..c.pieceLength] == head && all[c.pieceLength..] == left;
    if left == [] {
      assert all == head;
      assert HashAll(c, [head]) == [c.hash(head)] + HashAll(c, []);
    } else {
      var more := Chunks(c.pieceLength, left);
      assert ([head] + more)[1..] == more;
    }
  }

  lemma {:induction false} FeedIsChunking(c: Config, p: Progress, data: seq<Byte>, tail: seq<Byte>)
    requires |p.partial| < c.pieceLength
    ensures Rest(c, Feed(c, p, data), tail) == Rest(c, p, data + tail)
    decreases |data|
  {
    if |p.partial| + |data| < c.pieceLength {
      assert p.partial + data + tail == p.partial + (data + tail);
    } else {
      var k := c.pieceLength - |p.partial|;
      CutOne(c, p, data, tail, k);
      FeedIsChunking(c, Progress(p.issued + [c.hash(p.partial + data[..k])], []), data[k..], tail);
    }
  }

  lemma {:induction false} FeedAllIsChunking(c: Config, p: Progress, todo: seq<Access>)
    requires |p.partial| < c.pieceLength && forall i :: 0 <= i < |todo| ==> todo[i].Compute?
    ensures Finished(c, FeedAll(c, p, todo)) == Rest(c, p, Concat(todo))
    decreases |todo|
  {
    if todo == [] {
      assert p.partial + [] == p.partial;
      if p.partial != [] {
        assert HashAll(c, [p.partial]) == [c.hash(p.partial)];
      }
    } else {
      FeedIsChunking(c, p, todo[0].region, Concat(todo[1..]));
      FeedAllIsChunking(c, Feed(c, p, todo[0].region), todo[1..]);
    }
  }

  /** With computed accesses only, the result is the hash of each piece-length chunk of the
      concatenated regions, in order. */
  lemma SequentialIsChunking(c: Config)
    requires c.pieceLength > 0 && forall i :: 0 <= i < |c.accesses| ==> c.accesses[i].Compute?
    ensures Sequential(c) == HashAll(c, Chunks(c.pieceLength, Concat(c.accesses)))
  {
    FeedAllIsChunking(c, Progress([], []), c.accesses);
    assert [] + Concat(c.accesses) == Concat(c.accesses);
  }

  /** Chunks are what they should be: together the data, each of full length but the last. */
  lemma {:induction false} ChunkAt(length: nat, data: seq<Byte>, i: nat)
    requires length > 0 && i < |Chunks(length, data)|
    ensures i * length < |data|
    ensures var end := if (i + 1) * length <= |data| then (i + 1) * length else |data|;
            Chunks(length, data)[i] == data[i * length..end]
    ensures i == |Chunks(length, data)| - 1 <==> (i + 1) * length >= |data|
    decreases i
  {
    if |data| > length && i > 0 {
      ChunkAt(length, data[length..], i - 1);
      assert (i - 1) * length + length == i * length && i * length + length == (i + 1) * length;
    } else if |data| > length {
      assert Chunks(length, data[length..]) != [];
    }
  }
}
