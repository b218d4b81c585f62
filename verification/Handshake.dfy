/** The handshake message and the framer that reads one from a socket, however the bytes arrive. */
module Handshake {
  import opened Wrappers
  import opened Bytes

  /** "BitTorrent protocol". */
  const BT_PROTOCOL: seq<Byte> := [66, 105, 116, 84, 111, 114, 114, 101, 110, 116, 32, 112, 114, 111, 116, 111, 99, 111, 108]
  const NUM_EXTENSION_BYTES := 8
  const INFO_HASH_LEN := 20
  const PEER_ID_LEN := 20

  datatype Protocol = BitTorrent | Custom(name: seq<Byte>)

  datatype HandshakeMessage = HandshakeMessage(prot: Protocol, ext: seq<Byte>, hash: seq<Byte>, pid: seq<Byte>)

  /** What the fixed-size fields and the length assertion of `from_parts` guarantee. */
  predicate Valid(m: HandshakeMessage) {
    && (m.prot.Custom? ==> |m.prot.name| <= 255)
    && |m.ext| == NUM_EXTENSION_BYTES
    && |m.hash| == INFO_HASH_LEN
    && |m.pid| == PEER_ID_LEN
  }

  function ProtocolBytes(p: Protocol): seq<Byte> {
    if p.BitTorrent? then BT_PROTOCOL else p.name
  }

  function WriteLenWithProtocolLen(len: Byte): nat {
    1 + len + NUM_EXTENSION_BYTES + INFO_HASH_LEN + PEER_ID_LEN
  }

  /** The wire format: the name's length and the name, the extensions, the hash, the peer id. */
  function Wire(m: HandshakeMessage): seq<Byte> {
    [|ProtocolBytes(m.prot)| % 256] + ProtocolBytes(m.prot) + m.ext + m.hash + m.pid
  }

  /** A custom protocol with the standard name cannot be told from the standard protocol. */
  function Canonical(m: HandshakeMessage): HandshakeMessage {
    if m.prot == Custom(BT_PROTOCOL) then m.(prot := BitTorrent) else m
  }

  method WriteBytesSync(m: HandshakeMessage, writer: ByteVec)
    modifies writer
    ensures writer.bytes == old(writer.bytes) + Wire(m)
  {
    var bytes := if m.prot.BitTorrent? then BT_PROTOCOL else m.prot.name;
    writer.Push(|bytes| % 256);
    writer.Extend(bytes);
    writer.Extend(m.ext);
    writer.Extend(m.hash);
    writer.Extend(m.pid);
  }

  lemma WireLength(m: HandshakeMessage)
    requires Valid(m)
    ensures Wire(m) != [] && |Wire(m)| == WriteLenWithProtocolLen(Wire(m)[0])
  {}

  /** Where each field stands: the length, the name, the extensions, the hash and last the peer id. */
  lemma WireLayout(m: HandshakeMessage)
    requires Valid(m)
    ensures var w, n := Wire(m), |ProtocolBytes(m.prot)|;
            && |w| == n + 49 && w[0] == n && Reads(w, 1, ProtocolBytes(m.prot))
            && Reads(w, n + 1, m.ext) && Reads(w, n + 9, m.hash) && Reads(w, n + 29, m.pid)
  {
    hide ProtocolBytes, Reads;
    var name := ProtocolBytes(m.prot);
    assert |name| <= 255 by { NameFits(m); }
    var w, n := Wire(m), |name|;
    assert w == [n] + (name + (m.ext + (m.hash + m.pid)));
    ReadsWhole(w);
    ReadsConcat(w, 0, [n], name + (m.ext + (m.hash + m.pid)));
    ReadsConcat(w, 1, name, m.ext + (m.hash + m.pid));
    ReadsConcat(w, n + 1, m.ext, m.hash + m.pid);
    ReadsConcat(w, n + 9, m.hash, m.pid);
  }

  lemma ReadsWhole(w: seq<Byte>)
    ensures Reads(w, 0, w)
  {}

  lemma NameFits(m: HandshakeMessage)
    requires Valid(m)
    ensures |ProtocolBytes(m.prot)| <= 255
  {}

  // ----- Parsing

  function Take(bytes: seq<Byte>, n: nat): Option<(seq<Byte>, seq<Byte>)> {
    if n <= |bytes| then Some((bytes[..n], bytes[n..])) else None
  }

  /** The first byte is indexed before it is parsed. */
  function ParseProtocol(bytes: seq<Byte>): Option<(Protocol, seq<Byte>)>
    requires bytes != []
  {
    match Take(bytes[1..], bytes[0])
    case None => None
    case Some((raw, rest)) => Some((if raw == BT_PROTOCOL then BitTorrent else Custom(raw), rest))
  }

  function FromBytes(bytes: seq<Byte>): Option<HandshakeMessage>
    requires bytes != []
  {
    match ParseProtocol(bytes)
    case None => None
    case Some((prot, a)) =>
      match Take(a, NUM_EXTENSION_BYTES)
      case None => None
      case Some((ext, b)) =>
        match Take(b, INFO_HASH_LEN)
        case None => None
        case Some((hash, c)) =>
          match Take(c, PEER_ID_LEN)
          case None => None
          case Some((pid, _)) => Some(HandshakeMessage(prot, ext, hash, pid))
  }

  lemma TakeBack(s: seq<Byte>, rest: seq<Byte>)
    ensures Take(s + rest, |s|) == Some((s, rest))
  {
    assert (s + rest)[..|s|] == s && (s + rest)[|s|..] == rest;
  }

  /** Reading back what was written, whatever follows, gives the message in canonical form. */
  lemma RoundTrip(m: HandshakeMessage, rest: seq<Byte>)
    requires Valid(m)
    ensures FromBytes(Wire(m) + rest) == Some(Canonical(m))
  {
    hide Take;
    var name := ProtocolBytes(m.prot);
    var d := rest;
    var c := m.pid + d;
    var b := m.hash + c;
    var a := m.ext + b;
    assert Wire(m) + rest == [|name| % 256] + (name + a);
    assert ([|name| % 256] + (name + a))[1..] == name + a;
    TakeBack(name, a);
    TakeBack(m.ext, b);
    TakeBack(m.hash, c);
    TakeBack(m.pid, d);
  }

  /** A message parses exactly when its announced length is there, and is what those bytes stand for. */
  lemma ParsedIsWire(bytes: seq<Byte>)
    requires bytes != []
    ensures FromBytes(bytes).Some? <==> WriteLenWithProtocolLen(bytes[0]) <= |bytes|
    ensures FromBytes(bytes).Some? ==>
              var m := FromBytes(bytes).value;
              Valid(m) && Canonical(m) == m && Wire(m) == bytes[..WriteLenWithProtocolLen(bytes[0])]
  {
    if FromBytes(bytes).Some? {
      var m, n := FromBytes(bytes).value, bytes[0];
      WireOfFields(bytes, n, m);
    }
  }

  lemma WireOfFields(bytes: seq<Byte>, n: Byte, m: HandshakeMessage)
    requires WriteLenWithProtocolLen(n) <= |bytes| && n == bytes[0]
    requires ProtocolBytes(m.prot) == bytes[1..][..n] && m.ext == bytes[1..][n..][..NUM_EXTENSION_BYTES]
    requires m.hash == bytes[1..][n..][NUM_EXTENSION_BYTES..][..INFO_HASH_LEN]
    requires m.pid == bytes[1..][n..][NUM_EXTENSION_BYTES..][INFO_HASH_LEN..][..PEER_ID_LEN]
    ensures Wire(m) == bytes[..WriteLenWithProtocolLen(n)]
  {
    hide ProtocolBytes;
    assert bytes[..1] == [n];
  }

  // ----- The framer

  datatype State = Waiting | Reading | Ready | Finished | Errored

  datatype Framer = Framer(state: State, buffer: seq<Byte>, pos: nat)

  /** What the socket answers when it is read. */
  datatype Read = NotReady | Broken | Data(bytes: seq<Byte>)

  datatype Poll = Pending | Yields(message: HandshakeMessage) | Fails | Ended

  /** How many bytes the socket is offered room for. */
  function Room(f: Framer): nat {
    match f.state
    case Waiting => 1
    case Reading => if f.pos <= |f.buffer| then |f.buffer| - f.pos else 0
    case _ => 0
  }

  /** In these states a poll reads the socket. */
  predicate AtSocket(f: Framer) {
    f.state.Waiting? || f.state.Reading?
  }

  /** A socket never fills more than the room it is offered. */
  predicate Fits(f: Framer, read: Read) {
    AtSocket(f) && read.Data? ==> |read.bytes| <= Room(f)
  }

  /** The assertions the framer makes about itself. */
  predicate Sound(f: Framer) {
    match f.state
    case Waiting => f.buffer == [] && f.pos == 0
    case Reading => 0 < f.pos < |f.buffer|
    case Ready => f.buffer != [] && f.pos == |f.buffer|
    case _ => true
  }

  function Polled(f: Framer, read: Read): (Framer, Poll)
    requires Sound(f) && Fits(f, read)
  {
    match f.state
    case Waiting =>
      (match read
       case NotReady => (f, Pending)
       case Broken => (Framer(Errored, [0], 0), Fails)
       case Data(bytes) =>
         if bytes == [] then (f, Pending)
         else (Framer(Reading, bytes + Zeros(WriteLenWithProtocolLen(bytes[0]) - 1), 1), Pending))
    case Reading =>
      (match read
       case NotReady => (f, Pending)
       case Broken => (f.(state := Errored), Fails)
       case Data(bytes) =>
         var filled := f.pos + |bytes|;
         var buffer := f.buffer[..f.pos] + bytes + f.buffer[filled..];
         (Framer(if filled == |f.buffer| then Ready else Reading, buffer, filled), Pending))
    case Ready =>
      (match FromBytes(f.buffer)
       case Some(message) => (Framer(Finished, [], f.pos), Yields(message))
       case None => (Framer(Errored, [], f.pos), Fails))
    case Finished => (f, Ended)
    case Errored => (f, Ended)
  }

  /** What the socket answers when it is written to; it takes no more than it is given. */
  datatype Write = Taken(count: nat) | Refused | Later

  /** What it answers when, with nothing left to write, it is flushed itself. */
  datatype SocketFlush = FlushDone | FlushRefused | FlushLater

  /** How many bytes the first `k` writes offer to take. */
  function TakenBy(writes: nat -> Write, k: nat): nat {
    if k == 0 then 0 else TakenBy(writes, k - 1) + match writes(k - 1) case Taken(count) => count case _ => 0
  }

  datatype Flush = Flushed | WriteZero | WriteError | FlushError | FlushPending

  ghost function WireAll(ms: seq<HandshakeMessage>): seq<Byte> {
    if ms == [] then [] else WireAll(ms[..|ms| - 1]) + Wire(ms[|ms| - 1])
  }

  lemma WireAllNext(ms: seq<HandshakeMessage>, m: HandshakeMessage)
    ensures WireAll(ms + [m]) == WireAll(ms) + Wire(m)
  {
    assert (ms + [m])[..|ms|] == ms;
  }

  lemma MovedOver(a: seq<Byte>, b: seq<Byte>, n: nat)
    requires n <= |b|
    ensures (a + b[..n]) + b[n..] == a + b
  {}

  class FramedHandshake {
    var writeBuffer: seq<Byte>
    var state: State
    var readBuffer: seq<Byte>
    var readPos: nat
    /** What has been sent, and what of it the socket has taken. */
    ghost var sent: seq<HandshakeMessage>
    ghost var wrote: seq<Byte>

    /** Nothing sent is lost, repeated or out of order. */
    ghost predicate Conserved()
      reads this
    {
      wrote + writeBuffer == WireAll(sent)
    }

    function Value(): Framer
      reads this
    {
      Framer(state, readBuffer, readPos)
    }

    constructor ()
      ensures Value() == Framer(Waiting, [], 0) && Sound(Value())
      ensures sent == [] && wrote == [] && Conserved()
    {
      state, readBuffer, readPos := Waiting, [], 0;
      writeBuffer, sent, wrote := [], [], [];
    }

    method StartSend(item: HandshakeMessage)
      requires Conserved()
      modifies `writeBuffer, `sent
      ensures Conserved() && sent == old(sent) + [item]
    {
      hide Wire, WireAll;
      var cursor := new ByteVec();
      WriteBytesSync(item, cursor);
      WireAllNext(sent, item);
      writeBuffer := writeBuffer + cursor.bytes;
      sent := sent + [item];
      assert wrote + writeBuffer == old(wrote + writeBuffer) + Wire(item);
    }

    /**
     * `writes(n)` is what the socket answers to write n, and `flush` to its own flush after the last. After `k` writes
     * that took something either all is written or the next answer ends the flush.
     */
    method PollFlush(writes: nat -> Write, flush: SocketFlush) returns (r: Flush, ghost k: nat)
      requires Conserved()
      modifies `writeBuffer, `wrote
      ensures Conserved() && old(wrote) <= wrote
      ensures forall i :: 0 <= i < k ==> writes(i).Taken? && writes(i).count > 0
      ensures |writeBuffer| == if TakenBy(writes, k) < |old(writeBuffer)| then |old(writeBuffer)| - TakenBy(writes, k) else 0
      ensures writeBuffer == [] ==>
                wrote == WireAll(sent) &&
                r == match flush case FlushDone => Flushed case FlushRefused => FlushError case FlushLater => FlushPending
      ensures writeBuffer != [] ==>
                match writes(k)
                case Taken(count) => count == 0 && r == WriteZero
                case Refused => r == WriteError
                case Later => r == FlushPending
    {
      hide WireAll;
      k := 0;
      var n := 0;
      while writeBuffer != []
        invariant k == n && Conserved() && old(wrote) <= wrote
        invariant forall i :: 0 <= i < k ==> writes(i).Taken? && writes(i).count > 0
        invariant |writeBuffer| == if TakenBy(writes, k) < |old(writeBuffer)| then |old(writeBuffer)| - TakenBy(writes, k) else 0
        decreases |writeBuffer|
      {
        match writes(n) {
          case Taken(count) =>
            if count == 0 {
              r := WriteZero;
              return;
            }
            var written := if count <= |writeBuffer| then count else |writeBuffer|;
            MovedOver(wrote, writeBuffer, written);
            wrote := wrote + writeBuffer[..written];
            writeBuffer := writeBuffer[written..];
          case Refused =>
            r := WriteError;
            return;
          case Later =>
            r := FlushPending;
            return;
        }
        n := n + 1;
        k := n;
      }
      assert wrote + [] == wrote;
      r := match flush case FlushDone => Flushed case FlushRefused => FlushError case FlushLater => FlushPending;
    }

    method PollNext(read: Read) returns (r: Poll)
      requires Sound(Value()) && Fits(Value(), read)
      modifies `state, `readBuffer, `readPos
      ensures (Value(), r) == Polled(old(Value()), read)
      ensures Sound(Value())
    {
      match state {
        case Waiting =>
          readBuffer := readBuffer + [0];
          assert readBuffer == [0];
          match read {
            case NotReady =>
              readBuffer := [];
              return Pending;
            case Broken =>
              state := Errored;
              return Fails;
            case Data(bytes) =>
              if bytes == [] {
                readBuffer := [];
                return Pending;
              }
              var length := WriteLenWithProtocolLen(bytes[0]);
              readBuffer := bytes + Zeros(length - 1);
              readPos := 1;
              state := Reading;
              return Pending;
          }
        case Reading =>
          match read {
            case NotReady =>
              return Pending;
            case Broken =>
              state := Errored;
              return Fails;
            case Data(bytes) =>
              var filled := readPos + |bytes|;
              readBuffer := readBuffer[..readPos] + bytes + readBuffer[filled..];
              readPos := filled;
              if filled == |readBuffer| {
                state := Ready;
              }
              return Pending;
          }
        case Ready =>
          var buf := readBuffer;
          readBuffer := [];
          match FromBytes(buf) {
            case Some(message) =>
              state := Finished;
              return Yields(message);
            case None =>
              state := Errored;
              return Fails;
          }
        case Finished =>
          return Ended;
        case Errored =>
          return Ended;
      }
    }
  }

  // ----- Whole runs

  /** The framer, the bytes it has taken from the socket, and its answers other than Pending. */
  datatype Run = Run(framer: Framer, taken: seq<Byte>, answers: seq<Poll>)

  const START := Run(Framer(Waiting, [], 0), [], [])

  function Next(r: Run, read: Read): Run
    requires Sound(r.framer) && Fits(r.framer, read)
  {
    var (framer, poll) := Polled(r.framer, read);
    Run(framer,
        r.taken + (if AtSocket(r.framer) && read.Data? then read.bytes else []),
        r.answers + (if poll.Pending? then [] else [poll]))
  }

  /** Where a framer stands, whatever it was sent. */
  ghost predicate Inv(r: Run) {
    && Sound(r.framer)
    && |r.taken| <= Need(r.taken)
    && match r.framer.state
       case Waiting => r.taken == [] && r.answers == []
       case Reading =>
         && 0 < |r.taken| == r.framer.pos < Need(r.taken) == |r.framer.buffer|
         && r.framer.buffer[..|r.taken|] == r.taken
         && r.answers == []
       case Ready => r.framer.buffer == r.taken && |r.taken| == Need(r.taken) && r.answers == []
       case Finished =>
         && 0 < |r.taken| == Need(r.taken)
         && FromBytes(r.taken).Some?
         && Answered(r.answers, Yields(FromBytes(r.taken).value))
       case Errored => Answered(r.answers, Fails)
  }

  /** The length the first byte announces; before it, just that byte. */
  function Need(taken: seq<Byte>): nat {
    if taken == [] then 1 else WriteLenWithProtocolLen(taken[0])
  }

  /** One answer, then nothing but the end. */
  ghost predicate Answered(answers: seq<Poll>, first: Poll) {
    && answers != [] && answers[0] == first
    && forall i :: 1 <= i < |answers| ==> answers[i] == Ended
  }

  /** Filling the buffer keeps the bytes taken at its front. */
  lemma FilledFront(buffer: seq<Byte>, taken: seq<Byte>, bytes: seq<Byte>)
    requires |taken| + |bytes| <= |buffer| && buffer[..|taken|] == taken
    ensures var filled := buffer[..|taken|] + bytes + buffer[|taken| + |bytes|..];
            && |filled| == |buffer| && filled[..|taken| + |bytes|] == taken + bytes
            && (|taken| + |bytes| == |buffer| ==> filled == taken + bytes)
  {}

  lemma NextInv(r: Run, read: Read)
    requires Inv(r) && Fits(r.framer, read)
    ensures Inv(Next(r, read))
    ensures Next(r, read).framer.state.Errored? ==> r.framer.state.Errored? || read.Broken?
  {
    hide FromBytes, Inv;
    match r.framer.state {
      case Waiting => NextWaiting(r, read);
      case Reading => NextReading(r, read);
      case Ready => NextReady(r, read);
      case Finished => NextEnded(r, read);
      case Errored => NextEnded(r, read);
    }
  }

  lemma NextWaiting(r: Run, read: Read)
    requires Inv(r) && r.framer.state.Waiting? && Fits(r.framer, read)
    ensures Inv(Next(r, read)) && (Next(r, read).framer.state.Errored? ==> read.Broken?)
  {
    hide FromBytes;
    var n: Run := Next(r, read);
    if read.Data? && read.bytes != [] {
      assert n.framer.buffer[..1] == read.bytes && n.taken == read.bytes;
    }
  }

  lemma NextReading(r: Run, read: Read)
    requires Inv(r) && r.framer.state.Reading? && Fits(r.framer, read)
    ensures Inv(Next(r, read)) && (Next(r, read).framer.state.Errored? ==> read.Broken?)
  {
    hide FromBytes;
    var n: Run := Next(r, read);
    if read.Data? {
      FilledFront(r.framer.buffer, r.taken, read.bytes);
      assert n.taken[0] == r.taken[0];
    } else {
      assert n.taken == r.taken;
    }
  }

  lemma NextReady(r: Run, read: Read)
    requires Inv(r) && r.framer.state.Ready?
    ensures Inv(Next(r, read)) && !Next(r, read).framer.state.Errored?
  {
    hide FromBytes;
    ParsedIsWire(r.taken);
    assert Next(r, read).taken == r.taken;
  }

  lemma NextEnded(r: Run, read: Read)
    requires Inv(r) && (r.framer.state.Finished? || r.framer.state.Errored?)
    ensures Inv(Next(r, read)) && Next(r, read).framer == r.framer
  {
    hide FromBytes;
    assert Next(r, read).taken == r.taken;
  }

  // ----- Every run, however the reads go

  /** The framer is polled with each read in turn. */
  ghost predicate IsRun(runs: seq<Run>, socket: seq<Read>) {
    && |runs| == |socket| + 1
    && runs[0] == START
    && forall i :: 0 <= i < |socket| ==> StepsTo(runs[i], socket[i], runs[i + 1])
  }

  ghost predicate StepsTo(r: Run, read: Read, n: Run) {
    Sound(r.framer) && Fits(r.framer, read) && n == Next(r, read)
  }

  lemma {:induction false} RunInv(runs: seq<Run>, socket: seq<Read>, i: nat)
    requires IsRun(runs, socket) && i < |runs|
    ensures Inv(runs[i])
    ensures runs[i].framer.state.Errored? ==> exists j :: 0 <= j < i && socket[j].Broken?
  {
    hide Inv, Next;
    if i == 0 {
      StartInv();
    } else {
      RunInv(runs, socket, i - 1);
      assert StepsTo(runs[i - 1], socket[i - 1], runs[i]);
      NextInv(runs[i - 1], socket[i - 1]);
    }
  }

  lemma StartInv()
    ensures Inv(START)
  {}

  /** How often the socket came up with anything. */
  ghost function Productive(socket: seq<Read>): nat {
    if socket == [] then 0
    else
      var last := socket[|socket| - 1];
      Productive(socket[..|socket| - 1]) + if last.Data? && last.bytes != [] then 1 else 0
  }

  /** Each productive read is one byte further, until the message has been answered. */
  lemma {:induction false} RunProgress(runs: seq<Run>, socket: seq<Read>, i: nat)
    requires IsRun(runs, socket) && i < |runs|
    ensures runs[i].answers != [] || Productive(socket[..i]) <= |runs[i].taken|
    decreases i
  {
    hide FromBytes;
    if i > 0 {
      var r, read := runs[i - 1], socket[i - 1];
      RunProgress(runs, socket, i - 1);
      RunInv(runs, socket, i - 1);
      assert StepsTo(r, read, runs[i]);
      assert socket[..i][..i - 1] == socket[..i - 1];
    }
  }

  /** All the bytes the first one announces have been taken. */
  predicate Complete(r: Run) {
    0 < |r.taken| == Need(r.taken)
  }

  /** A complete run takes no more, and is answered by the next poll at the latest. */
  lemma CompleteNext(r: Run, read: Read)
    requires Inv(r) && Fits(r.framer, read) && (Complete(r) || r.answers != [])
    ensures Next(r, read).taken == r.taken && Next(r, read).answers != []
  {
    hide FromBytes;
  }

  /** The answer comes no sooner: without an error, only from a complete run. */
  lemma AnsweredNext(r: Run, read: Read)
    requires Inv(r) && Fits(r.framer, read) && !read.Broken? && !r.framer.state.Errored?
    requires Next(r, read).answers != []
    ensures Complete(r) && Next(r, read).taken == r.taken
  {
    hide FromBytes;
  }

  lemma {:induction false} CompleteIsAnswered(runs: seq<Run>, socket: seq<Read>, i: nat, k: nat)
    requires IsRun(runs, socket) && i < k < |runs| && Complete(runs[i])
    ensures runs[k].answers != [] && runs[k].taken == runs[i].taken
    decreases k
  {
    hide Inv, Next, Complete, Fits;
    RunInv(runs, socket, k - 1);
    assert StepsTo(runs[k - 1], socket[k - 1], runs[k]);
    if i < k - 1 {
      CompleteIsAnswered(runs, socket, i, k - 1);
    }
    CompleteNext(runs[k - 1], socket[k - 1]);
  }

  /** Without failed reads a run is answered exactly when an earlier one was complete. */
  lemma AnsweredIff(runs: seq<Run>, socket: seq<Read>)
    requires IsRun(runs, socket) && forall i :: 0 <= i < |socket| ==> !socket[i].Broken?
    ensures runs[|socket|].answers != [] <==> exists i :: 0 <= i < |socket| && Complete(runs[i])
  {
    hide Inv, Next, Complete, Fits;
    var n := |socket|;
    if i :| 0 <= i < n && Complete(runs[i]) {
      CompleteIsAnswered(runs, socket, i, n);
    }
    if runs[n].answers != [] {
      assert n > 0;
      RunInv(runs, socket, n - 1);
      assert StepsTo(runs[n - 1], socket[n - 1], runs[n]);
      AnsweredNext(runs[n - 1], socket[n - 1]);
    }
  }

  /** What is taken of a stream that starts with a message is part of the message. */
  lemma TakenOfMessage(m: HandshakeMessage, extra: seq<Byte>, taken: seq<Byte>)
    requires Valid(m) && taken <= Wire(m) + extra && |taken| <= Need(taken)
    ensures taken <= Wire(m) && (taken == Wire(m) <==> 0 < |taken| == Need(taken))
  {
    hide Wire;
    WireLength(m);
    if taken != [] {
      assert taken[0] == (Wire(m) + extra)[0];
      assert taken == Wire(m)[..|taken|];
    }
  }

  lemma {:induction false} TakenGrows(runs: seq<Run>, socket: seq<Read>, i: nat, k: nat)
    requires IsRun(runs, socket) && i <= k < |runs|
    ensures runs[i].taken <= runs[k].taken
    decreases k
  {
    hide Polled;
    if i < k {
      TakenGrows(runs, socket, i, k - 1);
      assert StepsTo(runs[k - 1], socket[k - 1], runs[k]);
    }
  }

  /**
   * A peer sends a message and anything after it; the socket delivers that in any pieces. The framer takes no more than
   * the message, and answers exactly if it has been polled once more after taking it all: the message once, in
   * canonical form, and then only the end.
   */
  lemma MessageCrosses(m: HandshakeMessage, extra: seq<Byte>, runs: seq<Run>, socket: seq<Read>)
    requires Valid(m) && IsRun(runs, socket)
    requires forall i :: 0 <= i < |socket| ==> !socket[i].Broken?
    requires runs[|socket|].taken <= Wire(m) + extra
    ensures var r := runs[|socket|];
            && r.taken <= Wire(m)
            && (r.answers != [] <==> exists i :: 0 <= i < |socket| && runs[i].taken == Wire(m))
            && (r.answers != [] ==> r.taken == Wire(m) && Answered(r.answers, Yields(Canonical(m))))
  {
    hide FromBytes, Wire, Next;
    var n := |socket|;
    forall i | 0 <= i <= n
      ensures Inv(runs[i]) && runs[i].taken <= Wire(m) && (runs[i].taken == Wire(m) <==> Complete(runs[i]))
    {
      RunInv(runs, socket, i);
      TakenGrows(runs, socket, i, n);
      TakenOfMessage(m, extra, runs[i].taken);
    }
    AnsweredIff(runs, socket);
    RunInv(runs, socket, n);
    RoundTrip(m, []);
    assert Wire(m) + [] == Wire(m);
  }

  /** A socket that breaks before the message is complete is answered with the error, once, and then the end. */
  lemma ErrorsEnd(runs: seq<Run>, socket: seq<Read>)
    requires IsRun(runs, socket)
    ensures var r := runs[|socket|];
            r.framer.state.Errored? ==>
              Answered(r.answers, Fails) && exists i :: 0 <= i < |socket| && socket[i].Broken?
  {
    RunInv(runs, socket, |socket|);
  }
}
