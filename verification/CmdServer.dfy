// The command server: what inbound connections receive is collected in one buffer, and the
// end of an inbound connection relays the buffer over an outgoing connection.
module CmdServer {
  import opened Connection
  import opened ReceiveBuffer

  const BUFSIZE: nat := 4096
  const SENDWINDOWSIZE: nat := 256

  // ----- the server as a function of what happened -----

  /** A chunk arrives; an inbound connection closes, which calls `Do`; a `Do` comes back from
      its blocking send. Events run one at a time, so these are the points that interleave. */
  datatype Event = Receive(chunk: seq<char>) | Close | Sent

  /** The filled part of the buffer, the calls of `Do` under way, what each `Do` handed to
      `Send`, and whether the assertion of `Buffer` failed. */
  datatype Server = Server(pending: seq<char>, busy: nat, handed: seq<seq<char>>, down: bool)

  predicate Fits(s: Server, chunk: seq<char>) {
    |chunk| < BUFSIZE - |s.pending|
  }

  function Step(s: Server, e: Event): Server {
    if s.down then s
    else
      match e
      case Receive(chunk) => if Fits(s, chunk) then s.(pending := s.pending + chunk) else s.(down := true)
      case Close => s.(busy := s.busy + 1, handed := s.handed + [s.pending])
      case Sent => if s.busy > 0 then s.(busy := s.busy - 1, pending := []) else s
  }

  function Exec(trace: seq<Event>): Server {
    if trace == [] then Server([], 0, [], false)
    else Step(Exec(trace[..|trace|-1]), trace[|trace|-1])
  }

  // ----- what was received, independently of the buffer -----

  function Received(trace: seq<Event>): seq<char> {
    if trace == [] then []
    else Received(trace[..|trace|-1]) + (var e := trace[|trace|-1]; if e.Receive? then e.chunk else [])
  }

  /** The length of the longest tail of the trace in which no `Do` came back. */
  function Quiet(trace: seq<Event>): (n: nat)
    ensures n <= |trace|
  {
    if trace == [] || trace[|trace|-1].Sent? then 0 else Quiet(trace[..|trace|-1]) + 1
  }

  function SinceSent(trace: seq<Event>): seq<char> {
    Received(trace[|trace| - Quiet(trace)..])
  }

  lemma SinceSentStep(trace: seq<Event>, e: Event)
    ensures SinceSent(trace + [e]) ==
            if e.Sent? then [] else SinceSent(trace) + if e.Receive? then e.chunk else []
  {
    var more := trace + [e];
    assert more[..|trace|] == trace;
    if !e.Sent? {
      var tail := trace[|trace| - Quiet(trace)..];
      assert more[|more| - Quiet(more)..] == tail + [e];
      assert (tail + [e])[..|tail|] == tail;
    }
  }

  /** A `Do` comes back only while one is under way. */
  predicate Sensible(trace: seq<Event>) {
    trace != [] ==>
      && Sensible(trace[..|trace|-1])
      && (trace[|trace|-1].Sent? ==> Exec(trace[..|trace|-1]).busy > 0)
  }

  /** What one more event changes. */
  lemma OneEvent(trace: seq<Event>, e: Event)
    ensures Exec(trace + [e]) == Step(Exec(trace), e)
    ensures Sensible(trace + [e]) <==> Sensible(trace) && (e.Sent? ==> Exec(trace).busy > 0)
    ensures Quiet(trace + [e]) == if e.Sent? then 0 else Quiet(trace) + 1
    ensures Received(trace + [e]) == Received(trace) + if e.Receive? then e.chunk else []
  {
    assert (trace + [e])[..|trace|] == trace;
  }

  /** As long as no assertion failed the buffer holds exactly the chunks received since the
      last `Do` came back, in order, and is never full. */
  lemma {:induction false} PendingIsSinceSent(trace: seq<Event>)
    requires Sensible(trace) && !Exec(trace).down
    ensures Exec(trace).pending == SinceSent(trace) && |Exec(trace).pending| < BUFSIZE
  {
    if trace != [] {
      var init, e := trace[..|trace|-1], trace[|trace|-1];
      assert trace == init + [e];
      PendingIsSinceSent(init);
      SinceSentStep(init, e);
    }
  }

  /** Each `Do` hands over exactly that, and the server goes down exactly when a chunk does
      not leave the buffer at least one free place. */
  lemma RelayStep(trace: seq<Event>, e: Event)
    requires Sensible(trace) && !Exec(trace).down
    ensures e.Close? ==> Exec(trace + [e]).handed == Exec(trace).handed + [SinceSent(trace)]
    ensures !e.Close? ==> Exec(trace + [e]).handed == Exec(trace).handed
    ensures Exec(trace + [e]).down <==> e.Receive? && |SinceSent(trace)| + |e.chunk| >= BUFSIZE
  {
    assert (trace + [e])[..|trace|] == trace;
    PendingIsSinceSent(trace);
  }

  // ----- nothing lost, nothing twice -----

  /** One `Do` at a time. */
  predicate Serial(trace: seq<Event>) {
    Sensible(trace) &&
    (trace != [] ==>
      && Serial(trace[..|trace|-1])
      && (trace[|trace|-1].Close? ==> Exec(trace[..|trace|-1]).busy == 0))
  }

  /** How many characters arrived while a `Do` was under way. */
  function Overheard(trace: seq<Event>): nat {
    if trace == [] then 0
    else
      var init, e := trace[..|trace|-1], trace[|trace|-1];
      Overheard(init) + if e.Receive? && Exec(init).busy > 0 then |e.chunk| else 0
  }

  /** What has been handed over, and what is waiting to be. */
  function Relayed(s: Server): seq<char> {
    Concat(s.handed) + if s.busy == 0 then s.pending else []
  }

  lemma {:induction false} LengthsAddUp(trace: seq<Event>)
    requires Serial(trace) && !Exec(trace).down
    ensures Exec(trace).busy <= 1
    ensures |Received(trace)| == |Relayed(Exec(trace))| + Overheard(trace)
    ensures Overheard(trace) == 0 ==> Relayed(Exec(trace)) == Received(trace)
  {
    if trace != [] {
      var init, e := trace[..|trace|-1], trace[|trace|-1];
      LengthsAddUp(init);
      var s := Exec(init);
      if e.Close? {
        ConcatMore(s.handed, s.pending);
      } else if e.Receive? && s.busy == 0 {
        assert Relayed(Exec(trace)) == Relayed(s) + e.chunk;
      }
    }
  }

  /** With one `Do` at a time, everything received is relayed once and in order if and only
      if nothing arrives while a `Do` is under way; what does arrive then is lost. */
  lemma RelayedIffNotOverheard(trace: seq<Event>)
    requires Serial(trace) && !Exec(trace).down
    ensures Relayed(Exec(trace)) == Received(trace) <==> Overheard(trace) == 0
    ensures |Received(trace)| - |Relayed(Exec(trace))| == Overheard(trace)
  {
    LengthsAddUp(trace);
  }

  /** What a `Do` was called with stays at the front of the buffer, whatever arrives, until
      some `Do` comes back: the windows that are read out of the buffer one after the other are
      pieces of what there was when it was called. */
  lemma {:induction false} HandedStays(trace: seq<Event>, c: nat)
    requires Sensible(trace) && !Exec(trace).down
    requires |trace| - Quiet(trace) <= c < |trace| && trace[c].Close?
    ensures Sensible(trace[..c]) && !Exec(trace[..c]).down
    ensures SinceSent(trace[..c]) <= Exec(trace).pending
  {
    var init, e := trace[..|trace|-1], trace[|trace|-1];
    assert trace == init + [e];
    OneEvent(init, e);
    hide Exec, Sensible, Quiet, SinceSent;
    if c == |init| {
      PendingIsSinceSent(init);
    } else {
      assert init[..c] == trace[..c] && init[c] == trace[c];
      HandedStays(init, c);
    }
  }

  /** The arrivals of these chunks. */
  function Receives(chunks: seq<seq<char>>): seq<Event> {
    seq(|chunks|, i requires 0 <= i < |chunks| => Receive(chunks[i]))
  }

  lemma ReceivesMore(trace: seq<Event>, chunks: seq<seq<char>>, i: nat)
    requires i < |chunks|
    ensures trace + Receives(chunks[..i+1]) == trace + Receives(chunks[..i]) + [Receive(chunks[i])]
    ensures Concat(chunks[..i+1]) == Concat(chunks[..i]) + chunks[i]
  {
    assert chunks[..i+1] == chunks[..i] + [chunks[i]];
    ConcatMore(chunks[..i], chunks[i]);
  }

  /** Chunks that arrive while a `Do` is under way count as overheard. */
  lemma {:induction false} OverheardMore(trace: seq<Event>, chunks: seq<seq<char>>)
    requires Exec(trace).busy > 0 && Sensible(trace) && !Exec(trace + Receives(chunks)).down
    ensures Overheard(trace + Receives(chunks)) == Overheard(trace) + |Concat(chunks)|
    ensures Exec(trace + Receives(chunks)).busy == Exec(trace).busy
    ensures Serial(trace) ==> Serial(trace + Receives(chunks))
    decreases |chunks|
  {
    if chunks == [] {
      assert trace + Receives(chunks) == trace;
    } else {
      var k := |chunks| - 1;
      var before := trace + Receives(chunks[..k]);
      assert chunks[..k+1] == chunks;
      ReceivesMore(trace, chunks, k);
      assert (before + [Receive(chunks[k])])[..|before|] == before;
      OverheardMore(trace, chunks[..k]);
    }
  }

  /** A whole `Do`, during which these chunks arrive. */
  lemma WholeDo(trace: seq<Event>, chunks: seq<seq<char>>)
    requires Serial(trace) && Exec(trace).busy == 0 && !Exec(trace + [Close] + Receives(chunks)).down
    ensures var after := trace + [Close] + Receives(chunks) + [Sent];
            Serial(after) && Exec(after).busy == 0 && Overheard(after) == Overheard(trace) + |Concat(chunks)|
  {
    var called := trace + [Close];
    var arrived := called + Receives(chunks);
    assert called[..|trace|] == trace;
    assert (arrived + [Sent])[..|arrived|] == arrived;
    NotDown(called, chunks);
    OverheardMore(called, chunks);
  }

  /** A server that is down stays down. */
  lemma {:induction false} NotDown(trace: seq<Event>, chunks: seq<seq<char>>)
    requires !Exec(trace + Receives(chunks)).down
    ensures !Exec(trace).down
    decreases |chunks|
  {
    if chunks == [] {
      assert trace + Receives(chunks) == trace;
    } else {
      var k := |chunks| - 1;
      var before := trace + Receives(chunks[..k]);
      assert chunks[..k+1] == chunks;
      ReceivesMore(trace, chunks, k);
      assert (before + [Receive(chunks[k])])[..|before|] == before;
      NotDown(trace, chunks[..k]);
    }
  }

  /** A server goes down exactly when chunks that arrive do not find room. */
  lemma {:induction false} DownIff(trace: seq<Event>, chunks: seq<seq<char>>)
    requires Sensible(trace) && !Exec(trace).down
    ensures var s, s' := Exec(trace), Exec(trace + Receives(chunks));
            && Sensible(trace + Receives(chunks))
            && (s'.down <==> |s.pending| + |Concat(chunks)| >= BUFSIZE)
            && (!s'.down ==> s'.pending == s.pending + Concat(chunks) && s'.busy == s.busy)
    decreases |chunks|
  {
    PendingIsSinceSent(trace);
    if chunks == [] {
      assert trace + Receives(chunks) == trace;
    } else {
      var k := |chunks| - 1;
      var before := trace + Receives(chunks[..k]);
      assert chunks[..k+1] == chunks;
      ReceivesMore(trace, chunks, k);
      assert (before + [Receive(chunks[k])])[..|before|] == before;
      DownIff(trace, chunks[..k]);
    }
  }

  // ----- the server object -----

  /** The network serves the wait for the connection and every wait of the send. */
  ghost predicate ServesAll(bytes: seq<char>, connecting: seq<Callback>, sending: nat -> seq<Callback>) {
    && Serves([Save], connecting)
    && (!FirstAborts(connecting) ==>
          ServesSend(FireAll([Save], connecting), Windows(bytes, SENDWINDOWSIZE), sending))
  }

  /** How many windows a `Do` called with these bytes sends. */
  function SentBy(bytes: seq<char>, connecting: seq<Callback>, sending: nat -> seq<Callback>): (n: nat)
    ensures n <= |Windows(bytes, SENDWINDOWSIZE)|
  {
    if FirstAborts(connecting) then 0 else SentCount(|Windows(bytes, SENDWINDOWSIZE)|, 0, sending)
  }

  /** What arrives while a `Do` waits: first for the connection, then for its windows. */
  function Meanwhile(early: seq<seq<char>>, arriving: nat -> seq<seq<char>>, n: nat): seq<seq<char>> {
    early + Arrived(arriving, n)
  }

  /** The buffer after a send: what arrived lies behind what was there, or found no room. */
  ghost predicate Filled(before: seq<char>, after: seq<char>, chunks: seq<seq<char>>, ok: bool) {
    (ok <==> |before| + |Concat(chunks)| < BUFSIZE) && (ok ==> after == before + Concat(chunks))
  }

  /** What has been sent of these bytes, and the buffer it was sent out of. */
  ghost predicate WasSent(before: seq<char>, bytes: nat, connecting: seq<Callback>, sending: nat -> seq<Callback>,
                          early: seq<seq<char>>, arriving: nat -> seq<seq<char>>,
                          pieces: seq<seq<char>>, after: seq<char>, ok: bool)
    requires bytes <= |before|
  {
    var windows := Windows(before[..bytes], SENDWINDOWSIZE);
    var n := SentBy(before[..bytes], connecting, sending);
    && (if ok then pieces == windows[..n] else pieces <= windows)
    && Filled(before, after, Meanwhile(early, arriving, n), ok)
  }

  lemma NoRoomEarly(before: seq<char>, bytes: nat, connecting: seq<Callback>, sending: nat -> seq<Callback>,
                    early: seq<seq<char>>, arriving: nat -> seq<seq<char>>, after: seq<char>)
    requires bytes <= |before| && |before| + |Concat(early)| >= BUFSIZE
    ensures WasSent(before, bytes, connecting, sending, early, arriving, [], after, false)
  {
    ConcatSplit(early, Arrived(arriving, SentBy(before[..bytes], connecting, sending)));
  }

  lemma NoConnection(before: seq<char>, bytes: nat, connecting: seq<Callback>, sending: nat -> seq<Callback>,
                     early: seq<seq<char>>, arriving: nat -> seq<seq<char>>, after: seq<char>)
    requires bytes <= |before| && |before| + |Concat(early)| < BUFSIZE && after == before + Concat(early)
    requires FirstAborts(connecting)
    ensures WasSent(before, bytes, connecting, sending, early, arriving, [], after, true)
  {
    assert early + [] == early;
  }

  lemma SendOutcome(p: Plan, before: seq<char>, connecting: seq<Callback>, early: seq<seq<char>>,
                    r: int, pieces: seq<seq<char>>, events: seq<Connection.Event>, after: seq<char>, ok: bool)
    requires p.n <= |before| && p.before == before + Concat(early) && p.size == BUFSIZE && p.w == SENDWINDOWSIZE
    requires Ended(p, r, pieces, events, after, ok) && !FirstAborts(connecting)
    ensures WasSent(before, p.n, connecting, p.cbs, early, p.arriving, pieces, after, ok)
  {
    hide Windows, SentCount, Concat, SendAll, NoAborts;
    assert p.before[..p.n] == before[..p.n];
    ConcatSplit(early, Arrived(p.arriving, SentBy(before[..p.n], connecting, p.cbs)));
  }

  class CmdServer {
    const inbox: Inbox
    ghost var trace: seq<Event>

    /** Any number of calls of `Do` may be under way. */
    ghost predicate Valid()
      reads this, inbox, inbox.data
    {
      && inbox.Valid() && inbox.data.Length == BUFSIZE
      && Sensible(trace) && !Exec(trace).down && Exec(trace).pending == inbox.Contents()
    }

    /** The length is taken to start at 0. */
    constructor ()
      ensures Valid() && fresh(inbox) && fresh(inbox.data) && trace == []
    {
      inbox := new Inbox(BUFSIZE);
      trace := [];
    }

    /** `ok` is the assertion: where it fails nothing is stored. */
    method Buffer(chunk: seq<char>) returns (ok: bool)
      requires Valid()
      modifies this, inbox, inbox.data
      ensures Valid() && trace == old(trace) + if ok then [Receive(chunk)] else []
      ensures ok <==> |SinceSent(old(trace))| + |chunk| < 4096
    {
      PendingIsSinceSent(trace);
      ok := inbox.Append(chunk);
      if ok {
        trace := trace + [Receive(chunk)];
        assert trace[..|trace|-1] == old(trace);
      } else {
        assert trace + [] == trace;
      }
    }

    /** `Do` up to its blocking send: how many bytes `Send` is called with. */
    method BeginDo() returns (bytes: nat)
      requires Valid()
      modifies this
      ensures Valid() && trace == old(trace) + [Close] && inbox.Contents() == old(inbox.Contents())
      ensures bytes == inbox.len && inbox.Contents() == SinceSent(old(trace))
      ensures Exec(trace).busy == Exec(old(trace)).busy + 1
    {
      PendingIsSinceSent(trace);
      bytes := inbox.len;
      trace := trace + [Close];
      assert trace[..|trace|-1] == old(trace);
    }

    /** A window read while the `Do` called at event `c` is under way, and none has come back
        since, is a piece of what that `Do` was called with. */
    method ReadWindow(ghost c: nat, sent: nat, sendLen: nat) returns (piece: seq<char>)
      requires Valid() && |trace| - Quiet(trace) <= c < |trace| && trace[c].Close?
      requires sent + sendLen <= |SinceSent(trace[..c])|
      ensures piece == SinceSent(trace[..c])[sent..sent + sendLen]
    {
      HandedStays(trace, c);
      piece := inbox.Window(sent, sendLen);
    }

    /** `Do` once its send has come back. */
    method EndDo()
      requires Valid() && Exec(trace).busy > 0
      modifies this, inbox`len
      ensures Valid() && trace == old(trace) + [Sent] && inbox.Contents() == []
    {
      inbox.Clear();
      trace := trace + [Sent];
      assert trace[..|trace|-1] == old(trace);
    }

    /** Connect, then send; what was sent is nothing when the connection is not made. The
        chunks `early` arrive while the sender waits for the connection. */
    method Send(bytes: nat, connecting: seq<Callback>, sending: nat -> seq<Callback>,
                early: seq<seq<char>>, arriving: nat -> seq<seq<char>>)
      returns (pieces: seq<seq<char>>, ok: bool)
      requires inbox.Valid() && bytes <= inbox.len && inbox.data.Length == BUFSIZE
      requires ServesAll(inbox.Contents()[..bytes], connecting, sending)
      modifies inbox, inbox.data
      ensures inbox.Valid()
      ensures WasSent(old(inbox.Contents()), bytes, connecting, sending, early, arriving, pieces, inbox.Contents(), ok)
    {
      ghost var before := inbox.Contents();
      hide Windows, OneAtATime, InFlight, FireAll, MayFireAll, Concat, WasSent, Ended, ServesSend;
      pieces := [];
      ok := inbox.AppendAll(early);
      if !ok {
        NoRoomEarly(before, bytes, connecting, sending, early, arriving, inbox.Contents());
        return;
      }
      ghost var middle := inbox.Contents();
      assert middle[..bytes] == before[..bytes];
      var connection := new OutConnection(SENDWINDOWSIZE);
      var connected := connection.ConnectAndBlock(connecting);
      if connected == 0 {
        NoConnection(before, bytes, connecting, sending, early, arriving, inbox.Contents());
        return;
      }
      ghost var p := Plan(middle, BUFSIZE, bytes, SENDWINDOWSIZE, sending, arriving, connection.trace);
      var r;
      r, pieces, ok := connection.SendAndBlock(inbox, bytes, sending, arriving);
      SendOutcome(p, before, connecting, early, r, pieces, connection.trace, inbox.Contents(), ok);
    }

    /** A `Do` during which chunks arrive: `early` while it waits for the connection, `arriving(k)`
        while it waits for window `k`. What it was called with goes on the wire, or a prefix of
        that when a wait is aborted. What arrives meanwhile is dropped. `ok` says that no
        assertion failed. */
    method Do(connecting: seq<Callback>, sending: nat -> seq<Callback>,
              early: seq<seq<char>>, arriving: nat -> seq<seq<char>>)
      returns (pieces: seq<seq<char>>, ok: bool)
      requires Valid() && ServesAll(SinceSent(trace), connecting, sending)
      modifies this, inbox, inbox.data
      ensures var n := SentBy(SinceSent(old(trace)), connecting, sending);
              var during := old(trace) + [Close] + Receives(Meanwhile(early, arriving, n));
              && (ok <==> !Exec(during).down)
              && trace == (if ok then during + [Sent] else during)
              && (ok && Serial(old(trace)) && Exec(old(trace)).busy == 0 ==>
                    && Serial(trace)
                    && Overheard(trace) == Overheard(old(trace)) + |Concat(Meanwhile(early, arriving, n))|)
      ensures ok ==> Valid() && inbox.Contents() == []
      ensures Concat(pieces) <= SinceSent(old(trace))
      ensures forall i :: 0 <= i < |pieces| ==> 0 < |pieces[i]| <= 256
      ensures ok && !FirstAborts(connecting) && (forall k: nat :: !FirstAborts(sending(k))) ==>
                Concat(pieces) == SinceSent(old(trace))
    {
      ghost var bytes := SinceSent(trace);
      ghost var n := SentBy(bytes, connecting, sending);
      ghost var chunks := Meanwhile(early, arriving, n);
      var length := BeginDo();
      ghost var called := trace;
      assert bytes[..length] == bytes;
      pieces, ok := Send(length, connecting, sending, early, arriving);
      DownIff(called, chunks);
      SentIsPrefix(bytes, pieces, connecting, sending);
      trace := called + Receives(chunks);
      if ok {
        if Serial(old(trace)) && Exec(old(trace)).busy == 0 { WholeDo(old(trace), chunks); }
        EndDo();
      }
    }
  }

  lemma SentIsPrefix(bytes: seq<char>, pieces: seq<seq<char>>, connecting: seq<Callback>, sending: nat -> seq<Callback>)
    requires pieces <= Windows(bytes, SENDWINDOWSIZE)
    ensures Concat(pieces) <= bytes
    ensures forall i :: 0 <= i < |pieces| ==> 0 < |pieces[i]| <= 256
    ensures !FirstAborts(connecting) && (forall k: nat :: !FirstAborts(sending(k))) ==>
              |pieces| == SentBy(bytes, connecting, sending) ==> Concat(pieces) == bytes
  {
    var windows := Windows(bytes, SENDWINDOWSIZE);
    hide Windows, SentCount;
    SentCountIs(|windows|, 0, sending);
    WindowsConcat(bytes, SENDWINDOWSIZE);
    assert windows[..|windows|] == windows && windows[..|pieces|] == pieces;
    WindowsPrefix(bytes, SENDWINDOWSIZE, |pieces|);
    forall i | 0 <= i < |pieces| ensures 0 < |pieces[i]| <= 256 {
      WindowsSizes(bytes, SENDWINDOWSIZE, i);
      assert pieces[i] == windows[i];
    }
  }
}
