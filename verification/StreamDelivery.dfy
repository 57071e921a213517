// What the backend's consumer is given: the file, in order, and one end of file.
module StreamDelivery {
  import opened StreamProtocol

  // ----- a log of calls against the file -----

  function Bytes(calls: seq<Call>): seq<Byte> {
    if calls == [] then []
    else Bytes(calls[..|calls|-1]) + (var c := calls[|calls|-1]; if c.Got? then c.bytes else [])
  }

  /** The calls are non-empty chunks that cut up the first `k` bytes of the file; each says
      how many bytes of the file are left behind it. */
  ghost predicate Cuts(calls: seq<Call>, file: seq<Byte>, k: nat) {
    k <= |file| &&
    if calls == [] then k == 0
    else
      var c := calls[|calls|-1];
      && c.Got? && 0 < |c.bytes| <= k
      && c.bytes == file[k - |c.bytes|..k] && c.avail == |file| - k
      && Cuts(calls[..|calls|-1], file, k - |c.bytes|)
  }

  lemma {:induction false} CutsBytes(calls: seq<Call>, file: seq<Byte>, k: nat)
    requires Cuts(calls, file, k)
    ensures Bytes(calls) == file[..k]
    ensures forall c <- calls :: c.Got?
  {
    if calls != [] {
      var c := calls[|calls|-1];
      CutsBytes(calls[..|calls|-1], file, k - |c.bytes|);
      assert calls == calls[..|calls|-1] + [c];
      assert file[..k] == file[..k - |c.bytes|] + c.bytes;
    }
  }

  lemma {:induction false} CutsPrefix(calls: seq<Call>, file: seq<Byte>, k: nat, i: nat) returns (j: nat)
    requires Cuts(calls, file, k) && i <= |calls|
    ensures j <= k && Cuts(calls[..i], file, j)
  {
    if i == |calls| {
      assert calls[..i] == calls;
      j := k;
    } else {
      var init := calls[..|calls|-1];
      j := CutsPrefix(init, file, k - |calls[|calls|-1].bytes|, i);
      assert init[..i] == calls[..i];
    }
  }

  lemma CutsMore(calls: seq<Call>, file: seq<Byte>, k: nat, n: nat)
    requires Cuts(calls, file, k) && 0 < n && k + n <= |file|
    ensures Cuts(calls + [Got(file[k..k+n], |file| - (k + n))], file, k + n)
  {
    var more := calls + [Got(file[k..k+n], |file| - (k + n))];
    assert more[..|more|-1] == calls;
  }

  /** The whole file, then one end of file. */
  ghost predicate Ended(calls: seq<Call>, file: seq<Byte>) {
    calls != [] && calls[|calls|-1].GotEof? && Cuts(calls[..|calls|-1], file, |file|)
  }

  // ----- the invariant -----

  function Calls(wire: seq<Data>): seq<Call> {
    seq(|wire|, i requires 0 <= i < |wire| => ToCall(wire[i]))
  }

  /** The calls made and those on their way. */
  function Log(s: System): seq<Call> {
    s.calls + Calls(s.wire)
  }

  /** How much of the file has been put on the wire. */
  function Sent(f: Front): nat {
    if f.outq != [] && f.outq[0].Chunk? then f.count else f.pos
  }

  /** At most one read is under way and nothing writes the buffer or the header under it. */
  ghost predicate Owned(f: Front, file: seq<Byte>) {
    && |f.buffer| == BUFFER_SIZE && |f.outq| <= 1 && UnderWay(f) <= 1
    && f.count <= f.pos <= |file|
    && (f.spawned == 1 ==> f.pos == f.count < |file|)
    && (UnderWay(f) == 0 ==> f.pos == f.count)
    && (f.held != [] ==> f.pos == f.count + f.held[0] && f.held[0] > 0)
    && (f.outq != [] ==>
          match f.outq[0]
          case Chunk(n) =>
            && 0 < n <= BUFFER_SIZE && f.pos == f.count + n
            && f.buffer[..n] == file[f.count..f.pos] && f.header == |file| - f.pos
          case Eof => f.count == |file| > 0 && UnderWay(f) == 0 && f.header == 0)
    && (f.doRead && f.count < |file| ==> UnderWay(f) == 1)
  }

  /** Has the end of the file been put on the wire? */
  predicate EofSent(f: Front, file: seq<Byte>) {
    f.count == |file| > 0 && f.outq == []
  }

  /** The frontend owns its buffer, and what it has put on the wire is the file up to there. */
  ghost predicate FrontInv(f: Front, log: seq<Call>, file: seq<Byte>) {
    && Owned(f, file)
    && if EofSent(f, file) then Ended(log, file) else Cuts(log, file, Sent(f))
  }

  ghost predicate Inv(s: System, file: seq<Byte>) {
    FrontInv(s.front, Log(s), file)
  }

  lemma InitInv(s: System, file: seq<Byte>)
    requires Init(s)
    ensures Inv(s, file)
  {
  }

  lemma DisposeOwned(f: Front, n: nat, file: seq<Byte>)
    requires Owned(f, file) && f.held == [n]
    ensures var g := Release(f, |file|);
            Owned(g, file) && Sent(g) == Sent(f) && !EofSent(g, file) && g.count > f.count
  {
    assert f.outq == [];
    assert f.outq + [Eof] == [Eof];
  }

  lemma ReadOwned(f: Front, file: seq<Byte>, n: nat)
    requires Owned(f, file) && CanRead(f, file, n)
    ensures var g := Read(f, file, n);
            n > 0 && Owned(g, file) && Sent(g) == Sent(f) && !EofSent(g, file) && !EofSent(f, file)
  {
    assert f.outq == [];
    var g := Read(f, file, n);
    assert g.outq == [Chunk(n)];
    assert g.buffer[..n] == file[f.pos..f.pos + n];
  }

  lemma SendLogs(s: System, file: seq<Byte>)
    requires CanTransmit(s.front)
    ensures Log(Do(s, file, Send)) == Log(s) + [ToCall(Message(s.front))]
  {
  }

  /** The message on top of the log is the next piece of the file, or its one end. */
  lemma TransmitKeeps(f: Front, log: seq<Call>, file: seq<Byte>)
    requires FrontInv(f, log, file) && CanTransmit(f)
    ensures FrontInv(Transmit(f), log + [ToCall(Message(f))], file)
    ensures ToCall(Message(f)) == if f.outq[0].Chunk? then Got(file[f.count..f.pos], |file| - f.pos) else GotEof
    ensures f.outq[0].Eof? ==> Message(f) == Data([], 0)
  {
    hide Cuts;
    TransmitOwned(f, file);
    match f.outq[0]
    case Chunk(n) =>
      assert ToCall(Message(f)) == Got(file[f.count..f.count + n], |file| - (f.count + n));
      CutsMore(log, file, f.count, n);
    case Eof =>
      assert (log + [GotEof])[..|log|] == log;
  }

  lemma TransmitOwned(f: Front, file: seq<Byte>)
    requires Owned(f, file) && CanTransmit(f)
    ensures Owned(Transmit(f), file) && Transmit(f).outq == [] && Transmit(f).pos == f.pos
    ensures f.outq[0].Chunk? ==> f.count < |file| && f.pos == f.count + f.outq[0].n
    ensures Message(f) == if f.outq[0].Chunk? then Data(file[f.count..f.pos], |file| - f.pos) else Data([], 0)
  {
    assert f.outq[1..] == [];
  }

  lemma SendInv(s: System, file: seq<Byte>)
    requires Inv(s, file) && CanTransmit(s.front)
    ensures Inv(Do(s, file, Send), file)
  {
    hide FrontInv, Log;
    SendLogs(s, file);
    TransmitKeeps(s.front, Log(s), file);
  }

  lemma DeliverInv(s: System, file: seq<Byte>)
    requires Inv(s, file) && s.wire != []
    ensures Inv(Do(s, file, Deliver), file)
  {
    assert Log(Do(s, file, Deliver)) == Log(s);
  }

  lemma HandleOwned(f: Front, file: seq<Byte>, start: bool)
    requires Owned(f, file) && (start && !f.doRead ==> UnderWay(f) == 0)
    ensures var g := if start then ReadStart(f, |file|) else ReadStop(f);
            Owned(g, file) && Sent(g) == Sent(f) && (EofSent(g, file) <==> EofSent(f, file))
  {
  }

  lemma FreeInv(s: System, file: seq<Byte>)
    requires Inv(s, file) && s.front.held != []
    ensures Inv(Do(s, file, Free), file)
  {
    DisposeOwned(s.front, s.front.held[0], file);
    assert Log(Do(s, file, Free)) == Log(s);
  }

  /** Every step but an early restart keeps one owner of the buffer and a log without fault. */
  lemma StepKeepsInv(s: System, file: seq<Byte>, a: Action)
    requires Inv(s, file) && Can(s, file, a) && !RestartsEarly(s, a)
    ensures Inv(Do(s, file, a), file)
  {
    hide Owned;
    match a
    case BackStart =>
    case BackStop =>
    case Handle => HandleOwned(s.front, file, s.up[0].START?);
    case ReadEvent(n) => ReadOwned(s.front, file, n);
    case Send => SendInv(s, file);
    case Free => FreeInv(s, file);
    case Deliver => DeliverInv(s, file);
  }

  // ----- whole runs -----

  lemma {:induction false} RunInv(run: seq<System>, acts: seq<Action>, file: seq<Byte>, k: nat)
    requires IsRun(run, acts, file) && k < |run|
    requires forall i :: 0 <= i < k ==> !RestartsEarly(run[i], acts[i])
    ensures Inv(run[k], file)
  {
    hide Inv;
    if k == 0 {
      InitInv(run[0], file);
    } else {
      RunInv(run, acts, file, k - 1);
      StepKeepsInv(run[k-1], file, acts[k-1]);
    }
  }

  /** The last message that the frontend handled in the first `k` steps was a START. */
  ghost predicate ToldToRead(run: seq<System>, acts: seq<Action>, k: nat)
    requires k <= |acts| < |run|
  {
    if k == 0 then false
    else if acts[k-1].Handle? then run[k-1].up != [] && run[k-1].up[0].START?
    else ToldToRead(run, acts, k - 1)
  }

  /** The frontend reads if and only if the last message it handled was a START: none but a START
      starts it, and every STOP stops it. */
  lemma {:induction false} ReadsIffTold(run: seq<System>, acts: seq<Action>, file: seq<Byte>, k: nat)
    requires IsRun(run, acts, file) && k < |run|
    ensures run[k].front.doRead <==> ToldToRead(run, acts, k)
  {
    if k > 0 {
      ReadsIffTold(run, acts, file, k - 1);
      StepTold(run[k-1], file, acts[k-1]);
    }
  }

  lemma StepTold(s: System, file: seq<Byte>, a: Action)
    requires Can(s, file, a)
    ensures Do(s, file, a).front.doRead <==> if a.Handle? then s.up[0].START? else s.front.doRead
  {
  }

  /** Each of these requests asks for the opposite of what the frontend does when it comes. */
  predicate Alternate(up: seq<Control>, reading: bool) {
    up == [] || ((up[0].START? <==> !reading) && Alternate(up[1..], up[0].START?))
  }

  /** What the frontend does once it has handled these requests. */
  predicate Wanted(up: seq<Control>, reading: bool) {
    if up == [] then reading else up[|up|-1].START?
  }

  /** The requests on their way alternate, and the last one is what the backend wants. */
  predicate Asked(s: System) {
    Alternate(s.up, s.front.doRead) && (s.backReads <==> Wanted(s.up, s.front.doRead))
  }

  lemma {:induction false} AlternateMore(up: seq<Control>, reading: bool, c: Control)
    requires Alternate(up, reading) && (c.START? <==> !Wanted(up, reading))
    ensures Alternate(up + [c], reading)
  {
    if up == [] {
      assert [] + [c] == [c] && [c][1..] == [];
    } else {
      assert (up + [c])[1..] == up[1..] + [c];
      AlternateMore(up[1..], up[0].START?, c);
    }
  }

  /** No request is lost or repeated: every START meets a stopped frontend and every STOP a
      reading one, and with nothing on its way both nodes agree. */
  lemma {:induction false} RequestsArrive(run: seq<System>, acts: seq<Action>, file: seq<Byte>, k: nat)
    requires IsRun(run, acts, file) && k < |run|
    ensures Asked(run[k])
  {
    if k > 0 {
      RequestsArrive(run, acts, file, k - 1);
      StepAsked(run[k-1], file, acts[k-1]);
    }
  }

  lemma StepAsked(s: System, file: seq<Byte>, a: Action)
    requires Can(s, file, a) && Asked(s)
    ensures Asked(Do(s, file, a))
  {
    StepTold(s, file, a);
    var s' := Do(s, file, a);
    if a.BackStart? && !s.backReads {
      AlternateMore(s.up, s.front.doRead, START);
    } else if a.BackStop? && s.backReads {
      AlternateMore(s.up, s.front.doRead, STOP);
    } else if a.Handle? {
      assert s'.up == s.up[1..] && s'.backReads == s.backReads;
    }
  }

  /** No chunk is longer than the 4096 bytes of the buffer. */
  lemma {:induction false} ChunksFit(run: seq<System>, acts: seq<Action>, file: seq<Byte>, k: nat)
    requires IsRun(run, acts, file) && k < |run|
    ensures |run[k].front.buffer| == 4096
    ensures forall d <- run[k].wire :: |d.bytes| <= 4096
    ensures forall c <- run[k].calls :: c.Got? ==> |c.bytes| <= 4096
  {
    if k > 0 {
      ChunksFit(run, acts, file, k - 1);
      StepFits(run[k-1], file, acts[k-1]);
    }
  }

  lemma StepFits(s: System, file: seq<Byte>, a: Action)
    requires Can(s, file, a) && |s.front.buffer| == 4096
    requires forall d <- s.wire :: |d.bytes| <= 4096
    requires forall c <- s.calls :: c.Got? ==> |c.bytes| <= 4096
    ensures var s' := Do(s, file, a);
            && |s'.front.buffer| == 4096
            && (forall d <- s'.wire :: |d.bytes| <= 4096)
            && (forall c <- s'.calls :: c.Got? ==> |c.bytes| <= 4096)
  {
  }

  /** On a whole run at most one read is ever under way if and only if no START is handled
      while the read from before a stop still is. */
  lemma OneReadIffCareful(run: seq<System>, acts: seq<Action>, file: seq<Byte>)
    requires IsRun(run, acts, file)
    ensures Careful(run, acts) <==> forall k :: 0 <= k < |run| ==> UnderWay(run[k].front) <= 1
  {
    if Careful(run, acts) {
      forall k | 0 <= k < |run| ensures UnderWay(run[k].front) <= 1 {
        RunInv(run, acts, file, k);
      }
    } else {
      var i := FirstEarly(run, acts);
      RunInv(run, acts, file, i);
      OverlapIffEarlyRestart(run[i], file, acts[i]);
      assert UnderWay(run[i+1].front) > 1;
    }
  }

  lemma FirstEarly(run: seq<System>, acts: seq<Action>) returns (i: nat)
    requires |run| == |acts| + 1 && !Careful(run, acts)
    ensures i < |acts| && RestartsEarly(run[i], acts[i])
    ensures forall j :: 0 <= j < i ==> !RestartsEarly(run[j], acts[j])
  {
    i := 0;
    while !RestartsEarly(run[i], acts[i])
      invariant i < |acts| && forall j :: 0 <= j < i ==> !RestartsEarly(run[j], acts[j])
      decreases |acts| - i
    {
      i := i + 1;
    }
  }

  /** The bytes are a prefix of the file, every chunk comes with the number of bytes left
      behind it, and an end of file is the last call, after the whole of a non-empty file. */
  ghost predicate Faithful(calls: seq<Call>, file: seq<Byte>) {
    && Bytes(calls) <= file
    && (forall i :: 0 <= i < |calls| && calls[i].Got? ==>
          calls[i].bytes != [] && calls[i].avail == |file| - |Bytes(calls[..i+1])|)
    && (forall i :: 0 <= i < |calls| && calls[i].GotEof? ==>
          i == |calls| - 1 && Bytes(calls) == file && file != [])
  }

  lemma CutsFaithful(calls: seq<Call>, file: seq<Byte>, k: nat)
    requires Cuts(calls, file, k)
    ensures Faithful(calls, file)
  {
    CutsBytes(calls, file, k);
    forall i | 0 <= i < |calls|
      ensures calls[i].Got? && calls[i].bytes != [] && calls[i].avail == |file| - |Bytes(calls[..i+1])|
    {
      CutsAt(calls, file, k, i);
    }
  }

  lemma CutsAt(calls: seq<Call>, file: seq<Byte>, k: nat, i: nat)
    requires Cuts(calls, file, k) && i < |calls|
    ensures calls[i].Got? && calls[i].bytes != [] && calls[i].avail == |file| - |Bytes(calls[..i+1])|
  {
    var j := CutsPrefix(calls, file, k, i + 1);
    var init := calls[..i+1];
    assert init[|init|-1] == calls[i];
    CutsBytes(init, file, j);
  }

  lemma EndedBytes(calls: seq<Call>, file: seq<Byte>)
    requires Ended(calls, file)
    ensures Bytes(calls) == Bytes(calls[..|calls|-1]) == file
  {
    hide Cuts;
    var data := calls[..|calls|-1];
    CutsBytes(data, file, |file|);
    assert file[..|file|] == file && Bytes(data) + [] == Bytes(data);
  }

  lemma EndedAt(calls: seq<Call>, file: seq<Byte>, i: nat)
    requires Ended(calls, file) && i < |calls| - 1
    ensures calls[i].Got? && calls[i].bytes != [] && calls[i].avail == |file| - |Bytes(calls[..i+1])|
  {
    hide Cuts, Bytes;
    var data := calls[..|calls|-1];
    CutsAt(data, file, |file|, i);
    assert data[..i+1] == calls[..i+1];
  }

  lemma EndedFaithful(calls: seq<Call>, file: seq<Byte>)
    requires Ended(calls, file) && file != []
    ensures Faithful(calls, file) && Bytes(calls) == file
  {
    EndedBytes(calls, file);
    assert calls[|calls|-1].GotEof?;
    hide Ended, Bytes;
    forall i | 0 <= i < |calls| - 1
      ensures calls[i].Got? && calls[i].bytes != [] && calls[i].avail == |file| - |Bytes(calls[..i+1])|
    {
      EndedAt(calls, file, i);
    }
  }

  lemma LogFaithful(f: Front, log: seq<Call>, file: seq<Byte>)
    requires FrontInv(f, log, file)
    ensures Faithful(log, file)
    ensures EofSent(f, file) ==> Bytes(log) == file
  {
    if EofSent(f, file) { EndedFaithful(log, file); } else { CutsFaithful(log, file, Sent(f)); }
  }

  /** At every moment of every run without an early restart, however often the backend stops
      and starts, the backend's consumer has been called faithfully. */
  lemma Delivery(run: seq<System>, acts: seq<Action>, file: seq<Byte>, k: nat)
    requires IsRun(run, acts, file) && Careful(run, acts) && k < |run|
    ensures Faithful(run[k].calls, file)
  {
    hide Cuts, Faithful, Owned;
    RunInv(run, acts, file, k);
    var s := run[k];
    var n := |s.calls|;
    var log := Log(s);
    assert s.calls == log[..n];
    if !EofSent(s.front, file) {
      var j := CutsPrefix(log, file, Sent(s.front), n);
      CutsFaithful(s.calls, file, j);
    } else if n == |log| {
      assert log[..n] == log;
      EndedFaithful(s.calls, file);
    } else {
      var data := log[..|log|-1];
      assert data[..n] == s.calls;
      var j := CutsPrefix(data, file, |file|, n);
      CutsFaithful(s.calls, file, j);
    }
  }

  /** Nothing left to do but for the backend application. */
  predicate Quiet(s: System) {
    s.up == [] && s.wire == [] && s.front.spawned == 0 && s.front.outq == [] && s.front.held == []
  }

  /** A started run that comes to rest has delivered the whole file and its one end. An
      empty file never gets one. */
  lemma Complete(run: seq<System>, acts: seq<Action>, file: seq<Byte>, k: nat)
    requires IsRun(run, acts, file) && Careful(run, acts) && k < |run| && run[k].front.doRead && Quiet(run[k])
    ensures file != [] ==> Bytes(run[k].calls) == file && Ended(run[k].calls, file)
    ensures file == [] ==> run[k].calls == []
  {
    RunInv(run, acts, file, k);
    var s := run[k];
    assert Log(s) == s.calls;
    if file != [] { EndedFaithful(s.calls, file); }
  }

  // ----- progress -----

  predicate Internal(a: Action) {
    !a.BackStart? && !a.BackStop?
  }

  /** Unless everything is quiet some step of the two nodes can be taken. */
  lemma NotStuck(s: System, file: seq<Byte>)
    requires Inv(s, file) && !Quiet(s)
    ensures exists a :: Internal(a) && Can(s, file, a) && !RestartsEarly(s, a)
  {
    var f := s.front;
    if s.wire != [] {
      assert Can(s, file, Deliver) && Internal(Deliver) && !RestartsEarly(s, Deliver);
    } else if f.outq != [] {
      assert Can(s, file, Send) && Internal(Send) && !RestartsEarly(s, Send);
    } else if f.held != [] {
      assert Can(s, file, Free) && Internal(Free) && !RestartsEarly(s, Free);
    } else if f.spawned > 0 {
      assert Can(s, file, ReadEvent(1)) && Internal(ReadEvent(1)) && !RestartsEarly(s, ReadEvent(1));
    } else {
      assert Can(s, file, Handle) && Internal(Handle) && !RestartsEarly(s, Handle);
    }
  }

  /** Every byte of the file not yet released and every pending piece of work weighs in. */
  function Measure(s: System, file: seq<Byte>): int {
    var f := s.front;
    6 * (|file| - f.count) + 4 * f.spawned + 3 * |f.outq| + |f.held| + |s.wire| + 5 * |s.up|
  }

  /** Every step of the two nodes brings the run closer to rest; a start or stop of the
      backend application sets it back by one message. */
  lemma StepMeasure(s: System, file: seq<Byte>, a: Action)
    requires Inv(s, file) && Can(s, file, a) && !RestartsEarly(s, a)
    ensures Measure(Do(s, file, a), file) < Measure(s, file) + if Internal(a) then 0 else 6
  {
    hide Cuts, Ended, Sent, EofSent, Log, Calls;
    if a.Free? { DisposeOwned(s.front, s.front.held[0], file); }
    if a.ReadEvent? { ReadOwned(s.front, file, a.n); }
  }

  /** How often the backend application starts and stops. */
  function Requests(acts: seq<Action>): nat {
    if acts == [] then 0 else Requests(acts[..|acts|-1]) + if Internal(acts[|acts|-1]) then 0 else 1
  }

  lemma {:induction false} RunMeasure(run: seq<System>, acts: seq<Action>, file: seq<Byte>, k: nat)
    requires IsRun(run, acts, file) && Careful(run, acts) && k < |run|
    ensures Measure(run[k], file) + k <= 6 * |file| + 6 * Requests(acts[..k])
  {
    hide Inv, Can, Do, RestartsEarly, Internal;
    if k > 0 {
      RunMeasure(run, acts, file, k - 1);
      RunInv(run, acts, file, k - 1);
      hide Measure;
      assert run[k-1+1] == Do(run[k-1], file, acts[k-1]);
      StepMeasure(run[k-1], file, acts[k-1]);
      assert acts[..k][..k-1] == acts[..k-1];
    }
  }

  /** Nothing is left to do for the two nodes but to handle a START too early. */
  ghost predicate Final(s: System, file: seq<Byte>) {
    forall a :: Internal(a) && Can(s, file, a) ==> RestartsEarly(s, a)
  }

  /** With k starts and stops a run without an early restart has at most 6 * |file| + 6 * k
      steps. Where the two nodes can go no further everything is at rest, and the file and its
      one end have been delivered if the backend was left reading. */
  lemma RunsEnd(run: seq<System>, acts: seq<Action>, file: seq<Byte>)
    requires IsRun(run, acts, file) && Careful(run, acts)
    ensures |acts| <= 6 * |file| + 6 * Requests(acts)
    ensures var s := run[|run|-1];
            Final(s, file) ==>
              && Quiet(s)
              && s.front.doRead == s.backReads
              && (s.backReads && file != [] ==> Bytes(s.calls) == file && Ended(s.calls, file))
              && (s.backReads && file == [] ==> s.calls == [])
  {
    var k := |acts|;
    var s := run[k];
    RunMeasure(run, acts, file, k);
    assert acts[..k] == acts;
    RunInv(run, acts, file, k);
    RequestsArrive(run, acts, file, k);
    assert Owned(s.front, file) && 0 <= Measure(s, file);
    if Final(s, file) {
      if !Quiet(s) { NotStuck(s, file); }
      if s.front.doRead { Complete(run, acts, file, k); }
    }
  }

  // ----- the buffer -----

  /** While a chunk waits to be transmitted, or is transmitted and not yet released, nothing
      writes the buffer; while a message waits, nothing writes the shared header. */
  lemma BufferUntouched(s: System, file: seq<Byte>, a: Action)
    requires Inv(s, file) && Can(s, file, a) && !RestartsEarly(s, a)
    ensures var f, g := s.front, Do(s, file, a).front;
            && (Chunks(f.outq) + |f.held| > 0 ==> g.buffer == f.buffer)
            && (f.outq != [] && g.outq != [] ==> g.outq == f.outq && g.header == f.header)
  {
    hide Cuts, Ended;
    if a.Free? { DisposeOwned(s.front, s.front.held[0], file); }
    if a.ReadEvent? { ReadOwned(s.front, file, a.n); }
    if a.Send? { assert s.front.outq[1..] == []; }
  }

  // ----- restarting too early -----

  ghost predicate Leads(path: seq<System>, acts: seq<Action>, file: seq<Byte>, s: System, s': System) {
    IsPath(path, acts, file) && Careful(path, acts) && path[0] == s && path[|path|-1] == s'
  }

  /** Without another early restart, `s'` can come after `s`. */
  ghost predicate Reaches(s: System, s': System, file: seq<Byte>) {
    exists path, acts :: Leads(path, acts, file, s, s')
  }

  lemma Stays(s: System, file: seq<Byte>)
    ensures Reaches(s, s, file)
  {
    assert Leads([s], [], file, s, s);
  }

  lemma OneMore(s: System, s': System, file: seq<Byte>, a: Action)
    requires Reaches(s, s', file) && Can(s', file, a) && !RestartsEarly(s', a)
    ensures Reaches(s, Do(s', file, a), file)
  {
    var path, acts :| Leads(path, acts, file, s, s');
    assert Leads(path + [Do(s', file, a)], acts + [a], file, s, Do(s', file, a));
  }

  /** Some continuation leads to calls that are not faithful. */
  ghost predicate CanGoWrong(s: System, file: seq<Byte>) {
    exists s' :: Reaches(s, s', file) && !Faithful(s'.calls, file)
  }

  /** What is on the wire gets delivered. */
  lemma {:induction false} DeliverAll(s: System, s': System, file: seq<Byte>)
    requires Reaches(s, s', file) && !Faithful(Log(s'), file)
    ensures CanGoWrong(s, file)
    decreases |s'.wire|
  {
    hide Faithful, Reaches;
    if s'.wire == [] {
      assert Log(s') == s'.calls;
    } else {
      OneMore(s, s', file, Deliver);
      assert Log(Do(s', file, Deliver)) == Log(s');
      DeliverAll(s, Do(s', file, Deliver), file);
    }
  }

  /** A second read is about to run while the chunk before it has not been released. */
  ghost predicate Overlapping(s: System, file: seq<Byte>) {
    var f := s.front;
    && f.doRead && f.spawned == 1 && f.outq == [] && |f.buffer| == BUFFER_SIZE
    && |f.held| == 1 && 0 < f.held[0] && f.count + f.held[0] == f.pos <= |file|
    && Cuts(Log(s), file, f.pos)
  }

  lemma WrongAvail(calls: seq<Call>, file: seq<Byte>, k: nat, avail: nat)
    requires Cuts(calls, file, k) && k < |file| && avail != |file| - (k + 1)
    ensures !Faithful(calls + [Got(file[k..k+1], avail)], file)
  {
    var more := calls + [Got(file[k..k+1], avail)];
    CutsBytes(calls, file, k);
    assert more[..|calls|] == calls && more[..|calls|+1] == more;
    assert |Bytes(more)| == k + 1;
    assert more[|calls|].Got? && more[|calls|].avail != |file| - |Bytes(more[..|calls|+1])|;
  }

  lemma TwoEnds(calls: seq<Call>, file: seq<Byte>)
    ensures !Faithful(calls + [GotEof] + [GotEof], file)
  {
    var more := calls + [GotEof] + [GotEof];
    assert more[|calls|].GotEof? && |calls| != |more| - 1;
  }

  /** Below the end of the file the second chunk is announced with too many bytes left,
      because those of the chunk in front of it have not been counted. */
  lemma WrongBelowEnd(s: System, o: System, file: seq<Byte>)
    requires Reaches(s, o, file) && Overlapping(o, file) && o.front.pos < |file|
    ensures CanGoWrong(s, file)
  {
    hide Reaches, Cuts, Faithful, Log;
    var f := o.front;
    var read := Do(o, file, ReadEvent(1));
    OneMore(s, o, file, ReadEvent(1));
    assert Log(read) == Log(o) by { LogOf(o, read); }
    assert read.front.outq == [Chunk(1)] && read.front.buffer[..1] == file[f.pos..f.pos + 1];
    OneMore(s, read, file, Send);
    SendLogs(read, file);
    WrongAvail(Log(o), file, f.pos, |file| - (f.count + 1));
    DeliverAll(s, Do(read, file, Send), file);
  }

  lemma LogOf(s: System, s': System)
    requires s'.calls == s.calls && s'.wire == s.wire
    ensures Log(s') == Log(s)
  {
  }

  /** At the end of the file the second read finds nothing, and the disposal of its empty
      buffer passes on a second end of file. */
  lemma WrongAtEnd(s: System, o: System, file: seq<Byte>)
    requires Reaches(s, o, file) && Overlapping(o, file) && o.front.pos == |file|
    ensures CanGoWrong(s, file)
  {
    hide Reaches, Cuts, Faithful, Log;
    var freed := Do(o, file, Free);
    OneMore(s, o, file, Free);
    assert freed.front.outq == [Eof] && freed.front.count == |file|;
    var sent := Do(freed, file, Send);
    OneMore(s, freed, file, Send);
    SendLogs(freed, file);
    assert sent.front.outq == [];
    var read := Do(sent, file, ReadEvent(0));
    OneMore(s, sent, file, ReadEvent(0));
    assert read.front.outq == [Eof];
    OneMore(s, read, file, Send);
    SendLogs(read, file);
    LogOf(o, freed);
    LogOf(sent, read);
    TwoEnds(Log(o), file);
    DeliverAll(s, Do(read, file, Send), file);
  }

  /** A second read is about to run while the chunk before it waits to be transmitted. */
  ghost predicate Crowded(s: System, file: seq<Byte>) {
    var f := s.front;
    && f.doRead && f.spawned == 1 && f.held == [] && |f.buffer| == BUFFER_SIZE
    && |f.outq| == 1 && f.outq[0].Chunk? && 0 < f.outq[0].n <= BUFFER_SIZE
    && f.count + f.outq[0].n == f.pos <= |file|
    && f.buffer[..f.outq[0].n] == file[f.count..f.pos] && f.header == |file| - f.pos
    && Cuts(Log(s), file, f.count)
  }

  lemma CrowdedOverlaps(s: System, file: seq<Byte>)
    requires Crowded(s, file)
    ensures Can(s, file, Send) && Overlapping(Do(s, file, Send), file)
  {
    var f := s.front;
    SendLogs(s, file);
    hide Log;
    CutsMore(Log(s), file, f.count, f.outq[0].n);
    assert f.outq[1..] == [] && |f.held + [f.outq[0].n]| == 1;
  }

  /** Wherever the read from before the stop has got to, an early restart leads to overlapping
      reads. */
  lemma EarlyRestartOverlaps(s: System, file: seq<Byte>) returns (o: System)
    requires Inv(s, file) && RestartsEarly(s, Handle)
    ensures Reaches(Do(s, file, Handle), o, file) && Overlapping(o, file)
  {
    hide Cuts, Reaches;
    var f := s.front;
    var start := Do(s, file, Handle);
    Stays(start, file);
    LogOf(s, start);
    hide Log;
    if f.held != [] {
      o := start;
    } else if f.spawned == 0 {
      assert f.outq[1..] == [] && Crowded(start, file);
      CrowdedOverlaps(start, file);
      OneMore(start, start, file, Send);
      o := Do(start, file, Send);
    } else {
      var read := Do(start, file, ReadEvent(1));
      assert f.outq == [] && read.front.outq == [Chunk(1)];
      assert read.front.buffer[..1] == file[f.pos..f.pos + 1];
      OneMore(start, start, file, ReadEvent(1));
      LogOf(start, read);
      CrowdedOverlaps(read, file);
      OneMore(start, read, file, Send);
      o := Do(read, file, Send);
    }
  }

  lemma EarlyGoesWrong(s: System, file: seq<Byte>)
    requires Inv(s, file) && RestartsEarly(s, Handle)
    ensures CanGoWrong(Do(s, file, Handle), file)
  {
    var o := EarlyRestartOverlaps(s, file);
    hide Reaches, CanGoWrong, Inv;
    if o.front.pos < |file| {
      WrongBelowEnd(Do(s, file, Handle), o, file);
    } else {
      WrongAtEnd(Do(s, file, Handle), o, file);
    }
  }

  /** A run, a careful action and a careful path behind it are a run. */
  lemma JoinRun(run: seq<System>, acts: seq<Action>, file: seq<Byte>, a: Action, path: seq<System>, more: seq<Action>)
    requires IsRun(run, acts, file) && Careful(run, acts)
    requires Can(run[|run|-1], file, a) && !RestartsEarly(run[|run|-1], a)
    requires IsPath(path, more, file) && Careful(path, more) && path[0] == Do(run[|run|-1], file, a)
    ensures IsRun(run + path, acts + [a] + more, file) && Careful(run + path, acts + [a] + more)
  {
    hide Can, Do, RestartsEarly;
    var all, allActs := run + path, acts + [a] + more;
    forall i | 0 <= i < |allActs|
      ensures Can(all[i], file, allActs[i]) && all[i+1] == Do(all[i], file, allActs[i])
      ensures !RestartsEarly(all[i], allActs[i])
    {
      if i > |acts| {
        var j := i - |run|;
        assert all[i] == path[j] && all[i+1] == path[j+1] && allActs[i] == more[j];
      }
    }
  }

  lemma CarefulStaysRight(run: seq<System>, acts: seq<Action>, file: seq<Byte>, a: Action)
    requires IsRun(run, acts, file) && Careful(run, acts)
    requires Can(run[|run|-1], file, a) && !RestartsEarly(run[|run|-1], a)
    ensures !CanGoWrong(Do(run[|run|-1], file, a), file)
  {
    hide Faithful, Can, Do, RestartsEarly, Init;
    var s := Do(run[|run|-1], file, a);
    forall s' | Reaches(s, s', file) ensures Faithful(s'.calls, file) {
      var path, more :| Leads(path, more, file, s, s');
      JoinRun(run, acts, file, a, path, more);
      Delivery(run + path, acts + [a] + more, file, |run + path| - 1);
    }
  }

  /** When a START is handled after a careful run, the consumer can come to be called
      unfaithfully, by further careful steps, if and only if the restart was early: if the
      frontend was stopped and the read from before the stop was still under way. */
  lemma WrongIffEarlyRestart(run: seq<System>, acts: seq<Action>, file: seq<Byte>)
    requires IsRun(run, acts, file) && Careful(run, acts)
    requires var s := run[|run|-1]; s.up != [] && s.up[0].START?
    ensures var s := run[|run|-1]; CanGoWrong(Do(s, file, Handle), file) <==> RestartsEarly(s, Handle)
  {
    var s := run[|run|-1];
    RunInv(run, acts, file, |acts|);
    hide CanGoWrong, Inv, Do, Init;
    if RestartsEarly(s, Handle) {
      EarlyGoesWrong(s, file);
    } else {
      CarefulStaysRight(run, acts, file, Handle);
    }
  }

  lemma Extend(run: seq<System>, acts: seq<Action>, file: seq<Byte>, a: Action)
    returns (run': seq<System>, acts': seq<Action>)
    requires IsRun(run, acts, file) && Can(run[|run|-1], file, a)
    ensures IsRun(run', acts', file) && run' != [] && run'[|run'|-1] == Do(run[|run|-1], file, a)
  {
    run', acts' := run + [Do(run[|run|-1], file, a)], acts + [a];
  }

  /** The backend starts, the first byte of `file` is read and queued, the backend stops and
      starts again: the START is about to be handled too early. */
  lemma BeforeEarlyRestart(file: seq<Byte>, buffer: seq<Byte>) returns (run: seq<System>, acts: seq<Action>)
    requires |file| == 2 && |buffer| == BUFFER_SIZE
    ensures IsRun(run, acts, file) && run != []
    ensures run[|run|-1] == System(true, [START],
              Front(false, 0, 1, 0, file[0..1] + buffer[1..], 1, [Chunk(1)], []), [], [])
  {
    run, acts := [System(false, [], Front(false, 0, 0, 0, buffer, 0, [], []), [], [])], [];
    run, acts := Extend(run, acts, file, BackStart);
    run, acts := Extend(run, acts, file, Handle);
    assert run[|run|-1] == System(true, [], Front(true, 0, 0, 1, buffer, 0, [], []), [], []);
    run, acts := Extend(run, acts, file, ReadEvent(1));
    run, acts := Extend(run, acts, file, BackStop);
    run, acts := Extend(run, acts, file, Handle);
    run, acts := Extend(run, acts, file, BackStart);
  }

  lemma SecondByteFirst(file: seq<Byte>)
    requires |file| == 2 && file[0] != file[1]
    ensures !Faithful([Got([file[1]], 1)], file)
  {
    var calls := [Got([file[1]], 1)];
    assert calls[..0] == [];
    assert Bytes(calls) == [] + [file[1]];
  }

  /** Bytes can be lost, too: when the buffer is written again before its first chunk is
      transmitted, the backend is given the second byte of a file first. */
  lemma EarlyRestartCorrupts(file: seq<Byte>) returns (run: seq<System>, acts: seq<Action>)
    requires |file| == 2 && file[0] != file[1]
    ensures IsRun(run, acts, file)
    ensures var calls := run[|run|-1].calls; calls == [Got([file[1]], 1)] && !Faithful(calls, file)
  {
    hide IsRun, Faithful;
    var buffer := seq(BUFFER_SIZE, i => 0);
    run, acts := BeforeEarlyRestart(file, buffer);
    run, acts := Extend(run, acts, file, Handle);
    run, acts := Extend(run, acts, file, ReadEvent(1));
    var f := run[|run|-1].front;
    assert f.outq == [Chunk(1), Chunk(1)] && f.buffer[..1] == [file[1]] && f.header == 1;
    run, acts := Extend(run, acts, file, Send);
    assert run[|run|-1].wire == [Data([file[1]], 1)];
    run, acts := Extend(run, acts, file, Deliver);
    var calls := run[|run|-1].calls;
    assert calls == [Got([file[1]], 1)];
    SecondByteFirst(file);
  }

  // ----- stopping -----

  /** Chunks handed to the frontend's consumer so far. */
  function Handed(s: System): nat {
    Gots(s.calls) + Gots(Calls(s.wire)) + Chunks(s.front.outq)
  }

  function Gots(calls: seq<Call>): nat {
    if calls == [] then 0 else Gots(calls[..|calls|-1]) + if calls[|calls|-1].Got? then 1 else 0
  }

  lemma GotsMore(calls: seq<Call>, c: Call)
    ensures Gots(calls + [c]) == Gots(calls) + if c.Got? then 1 else 0
  {
    assert (calls + [c])[..|calls|] == calls;
  }

  lemma {:induction false} GotsSplit(a: seq<Call>, b: seq<Call>)
    ensures Gots(a + b) == Gots(a) + Gots(b)
  {
    if b == [] {
      assert a + b == a;
    } else {
      GotsSplit(a, b[..|b|-1]);
      assert (a + b)[..|a + b|-1] == a + b[..|b|-1];
    }
  }

  lemma DeliverHands(s: System, file: seq<Byte>)
    requires s.wire != []
    ensures Handed(Do(s, file, Deliver)) == Handed(s)
  {
    var call, rest := ToCall(s.wire[0]), Calls(s.wire[1..]);
    assert Calls(s.wire) == [call] + rest;
    GotsSplit([call], rest);
    GotsMore(s.calls, call);
    GotsMore([], call);
    assert [] + [call] == [call];
  }

  lemma SendHands(s: System, file: seq<Byte>)
    requires Owned(s.front, file) && CanTransmit(s.front)
    ensures Handed(Do(s, file, Send)) == Handed(s)
  {
    var call := ToCall(Message(s.front));
    assert Calls(Do(s, file, Send).wire) == Calls(s.wire) + [call];
    GotsMore(Calls(s.wire), call);
    assert s.front.outq[1..] == [];
  }

  lemma StoppedStep(s: System, file: seq<Byte>, a: Action)
    requires Inv(s, file) && Can(s, file, a) && !RestartsEarly(s, a)
    requires !s.front.doRead && !Do(s, file, a).front.doRead
    ensures var s' := Do(s, file, a); Handed(s') + s'.front.spawned <= Handed(s) + s.front.spawned
  {
    match a
    case ReadEvent(n) =>
      ReadOwned(s.front, file, n);
      ChunksAppend(s.front.outq, Chunk(n));
    case Send => SendHands(s, file);
    case Free => ChunksAppend(s.front.outq, Eof);
    case Deliver => DeliverHands(s, file);
    case _ =>
  }

  lemma {:induction false} StoppedHands(run: seq<System>, acts: seq<Action>, file: seq<Byte>, i: nat, j: nat)
    requires IsRun(run, acts, file) && Careful(run, acts) && i <= j < |run|
    requires forall k :: i <= k <= j ==> !run[k].front.doRead
    ensures Handed(run[j]) + run[j].front.spawned <= Handed(run[i]) + run[i].front.spawned
  {
    hide Handed, Inv, Can, Do, RestartsEarly, Init;
    if i < j {
      StoppedHands(run, acts, file, i, j - 1);
      RunInv(run, acts, file, j - 1);
      assert run[j-1+1] == Do(run[j-1], file, acts[j-1]);
      StoppedStep(run[j-1], file, acts[j-1]);
    }
  }

  /** As long as the frontend stays stopped at most one more chunk is handed over. */
  lemma StoppedHandsAtMostOne(run: seq<System>, acts: seq<Action>, file: seq<Byte>, i: nat, j: nat)
    requires IsRun(run, acts, file) && Careful(run, acts) && i <= j < |run|
    requires forall k :: i <= k <= j ==> !run[k].front.doRead
    ensures Handed(run[j]) <= Handed(run[i]) + 1
  {
    StoppedHands(run, acts, file, i, j);
    RunInv(run, acts, file, i);
    hide Handed, IsRun, Careful;
    assert Owned(run[i].front, file);
  }

  /** Once the frontend has handled a STOP it is stopped until it handles a START, and in all
      that time it hands over at most one more chunk. */
  lemma StopHandsAtMostOne(run: seq<System>, acts: seq<Action>, file: seq<Byte>, i: nat, j: nat)
    requires IsRun(run, acts, file) && Careful(run, acts) && i < j < |run|
    requires acts[i].Handle? && run[i].up[0].STOP?
    requires forall k :: i < k < j && acts[k].Handle? ==> run[k].up != [] && run[k].up[0].STOP?
    ensures !run[j].front.doRead
    ensures Handed(run[j]) <= Handed(run[i]) + 1
  {
    forall k | i < k <= j ensures !run[k].front.doRead {
      StaysStopped(run, acts, file, i, k);
    }
    StoppedHandsAtMostOne(run, acts, file, i + 1, j);
    assert run[i+1] == Do(run[i], file, Handle);
  }

  lemma {:induction false} StaysStopped(run: seq<System>, acts: seq<Action>, file: seq<Byte>, i: nat, k: nat)
    requires IsRun(run, acts, file) && i < k < |run|
    requires acts[i].Handle? && run[i].up[0].STOP?
    requires forall h :: i < h < k && acts[h].Handle? ==> run[h].up != [] && run[h].up[0].STOP?
    ensures !run[k].front.doRead
  {
    StepTold(run[k-1], file, acts[k-1]);
    if i < k - 1 { StaysStopped(run, acts, file, i, k - 1); }
  }
}
