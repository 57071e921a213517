// The remote input stream: a frontend reads a regular file chunk by chunk into one buffer
// and relays the chunks to a backend.  Messages travel in order, both ways.  A message is
// queued without copying: what it carries is read out of the buffer and of the one shared
// DATA header when it is transmitted, and the buffer is released after that.
module StreamProtocol {

  type Byte = x: int | 0 <= x < 256

  const BUFFER_SIZE: nat := 4096

  /** A queued DATA message: `n` bytes of the buffer behind the header, or the header alone. */
  datatype Out = Chunk(n: nat) | Eof

  /** What is on the wire. */
  datatype Data = Data(bytes: seq<Byte>, avail: nat)

  /** The frontend: `count` bytes released, file offset `pos`, read events spawned but not
      yet run, the `avail` field of the shared header, messages not yet transmitted, and
      the sizes of the buffers transmitted but not yet released. */
  datatype Front = Front(
    doRead: bool,
    count: nat,
    pos: nat,
    spawned: nat,
    buffer: seq<Byte>,
    header: nat,
    outq: seq<Out>,
    held: seq<nat>)

  // ----- the frontend's functions -----

  /** The relay given to the frontend as its consumer. */
  function Consume(f: Front, item: Out, avail: nat): Front {
    f.(header := avail, outq := f.outq + [item])
  }

  function ReadSome(f: Front, len: nat): Front {
    if f.doRead && f.count < len then f.(spawned := f.spawned + 1) else f
  }

  function ReadStart(f: Front, len: nat): Front {
    if f.doRead then f else ReadSome(f.(doRead := true), len)
  }

  function ReadStop(f: Front): Front {
    f.(doRead := false)
  }

  /** The disposal of a buffer of `n` bytes. */
  function Dispose(f: Front, n: nat, len: nat): Front {
    var g := f.(count := f.count + n);
    if g.count == len then Consume(g, Eof, 0) else ReadSome(g, len)
  }

  /** `read` returns between 1 and BUFFER_SIZE bytes below the end of the file, 0 at the end. */
  predicate CanRead(f: Front, file: seq<Byte>, n: nat) {
    && f.spawned > 0 && |f.buffer| == BUFFER_SIZE
    && f.count <= f.pos <= |file| && n <= BUFFER_SIZE && f.pos + n <= |file|
    && (n == 0 <==> f.pos == |file|)
  }

  /** The buffer with a piece stored at its front. */
  function Overwritten(buffer: seq<Byte>, piece: seq<Byte>): seq<Byte>
    requires |piece| <= |buffer|
  {
    piece + buffer[|piece|..]
  }

  /** A spawned read event runs; the buffer of an empty read is disposed of at once. */
  function Read(f: Front, file: seq<Byte>, n: nat): Front
    requires CanRead(f, file, n)
  {
    var g := f.(spawned := f.spawned - 1, pos := f.pos + n,
                buffer := Overwritten(f.buffer, file[f.pos..f.pos + n]));
    if n > 0 then Consume(g, Chunk(n), |file| - (f.count + n)) else Dispose(g, 0, |file|)
  }

  predicate CanTransmit(f: Front) {
    f.outq != [] && (f.outq[0].Chunk? ==> f.outq[0].n <= |f.buffer|)
  }

  function Message(f: Front): Data
    requires CanTransmit(f)
  {
    match f.outq[0]
    case Chunk(n) => Data(f.buffer[..n], f.header)
    case Eof => Data([], f.header)
  }

  function Transmit(f: Front): Front
    requires CanTransmit(f)
  {
    match f.outq[0]
    case Chunk(n) => f.(outq := f.outq[1..], held := f.held + [n])
    case Eof => f.(outq := f.outq[1..])
  }

  function Release(f: Front, len: nat): Front
    requires f.held != []
  {
    Dispose(f.(held := f.held[1..]), f.held[0], len)
  }

  // ----- the two nodes and the wire -----

  datatype Control = START | STOP

  /** A call of the backend's consumer. */
  datatype Call = Got(bytes: seq<Byte>, avail: nat) | GotEof

  datatype System = System(backReads: bool, up: seq<Control>, front: Front, wire: seq<Data>, calls: seq<Call>)

  /** The backend takes a DATA message without bytes for the end of the file. */
  function ToCall(d: Data): Call {
    if d.bytes == [] then GotEof else Got(d.bytes, d.avail)
  }

  datatype Action =
    | BackStart               // the backend application starts to read
    | BackStop                // ... or stops
    | Handle                  // the frontend handles the next START or STOP
    | ReadEvent(n: nat)
    | Send
    | Free                    // a transmitted buffer is released
    | Deliver                 // the backend handles the next DATA

  predicate Can(s: System, file: seq<Byte>, a: Action) {
    match a
    case BackStart => true
    case BackStop => true
    case Handle => s.up != []
    case ReadEvent(n) => CanRead(s.front, file, n)
    case Send => CanTransmit(s.front)
    case Free => s.front.held != []
    case Deliver => s.wire != []
  }

  function Do(s: System, file: seq<Byte>, a: Action): System
    requires Can(s, file, a)
  {
    match a
    case BackStart => if s.backReads then s else s.(backReads := true, up := s.up + [START])
    case BackStop => if s.backReads then s.(backReads := false, up := s.up + [STOP]) else s
    case Handle =>
      s.(up := s.up[1..], front := if s.up[0].START? then ReadStart(s.front, |file|) else ReadStop(s.front))
    case ReadEvent(n) => s.(front := Read(s.front, file, n))
    case Send => s.(front := Transmit(s.front), wire := s.wire + [Message(s.front)])
    case Free => s.(front := Release(s.front, |file|))
    case Deliver => s.(wire := s.wire[1..], calls := s.calls + [ToCall(s.wire[0])])
  }

  ghost predicate Init(s: System) {
    && |s.front.buffer| == BUFFER_SIZE
    && s.front == Front(false, 0, 0, 0, s.front.buffer, s.front.header, [], [])
    && s == System(false, [], s.front, [], [])
  }

  // ----- who may touch the buffer -----

  function Chunks(q: seq<Out>): (n: nat)
    ensures n <= |q|
  {
    if q == [] then 0 else (if q[0].Chunk? then 1 else 0) + Chunks(q[1..])
  }

  /** Reads under way: spawned, waiting to be transmitted, or not yet released. */
  function UnderWay(f: Front): nat {
    f.spawned + Chunks(f.outq) + |f.held|
  }

  /** A START that reaches a stopped frontend while a read is under way. */
  predicate RestartsEarly(s: System, a: Action) {
    a.Handle? && s.up != [] && s.up[0].START? && !s.front.doRead && UnderWay(s.front) > 0
  }

  // ----- paths: systems and the actions between them -----

  ghost predicate IsPath(path: seq<System>, acts: seq<Action>, file: seq<Byte>) {
    && |path| == |acts| + 1
    && forall i :: 0 <= i < |acts| ==> Can(path[i], file, acts[i]) && path[i+1] == Do(path[i], file, acts[i])
  }

  /** No START on this path is handled too early. */
  ghost predicate Careful(path: seq<System>, acts: seq<Action>)
    requires |path| == |acts| + 1
  {
    forall i :: 0 <= i < |acts| ==> !RestartsEarly(path[i], acts[i])
  }

  ghost predicate IsRun(run: seq<System>, acts: seq<Action>, file: seq<Byte>) {
    IsPath(run, acts, file) && Init(run[0])
  }

  lemma {:induction false} ChunksAppend(q: seq<Out>, item: Out)
    ensures Chunks(q + [item]) == Chunks(q) + if item.Chunk? then 1 else 0
  {
    if q == [] {
      assert q + [item] == [item];
    } else {
      assert (q + [item])[1..] == q[1..] + [item];
      ChunksAppend(q[1..], item);
    }
  }

  /** A read may overlap another one only by an early restart below the end of the file: from
      a state with at most one read under way, that is the exact condition. */
  lemma OverlapIffEarlyRestart(s: System, file: seq<Byte>, a: Action)
    requires Can(s, file, a) && UnderWay(s.front) <= 1
    ensures UnderWay(Do(s, file, a).front) > 1 <==> RestartsEarly(s, a) && s.front.count < |file|
  {
    var f := s.front;
    match a
    case ReadEvent(n) =>
      if n > 0 { ChunksAppend(f.outq, Chunk(n)); } else { ChunksAppend(f.outq, Eof); }
    case Send =>
      assert f.outq == [f.outq[0]] + f.outq[1..];
    case Free =>
      ChunksAppend(f.outq, Eof);
    case _ =>
  }
}
