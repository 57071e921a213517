// The outgoing connection of the command server: a sender that saves its context and the
// callbacks that wake it up, and the loop that sends a window at a time.
module Connection {
  import opened ReceiveBuffer

  // ----- waiting and waking -----

  datatype Status = NONE | BLOCKED | SUCCESS | ERROR

  /** The callbacks of a connection: established, the buffer of a window freed, aborted. */
  datatype Callback = Connected | Freed(window: nat) | Aborted

  /** `saves` and `wakes` count the contexts saved and activated; `failed` is a failed assertion. */
  datatype Waiter = Waiter(status: Status, saves: nat, wakes: nat, failed: bool)

  function Block(w: Waiter): Waiter {
    w.(status := BLOCKED, saves := w.saves + 1)
  }

  function Wake(w: Waiter, status: Status): Waiter {
    w.(status := status, wakes := w.wakes + 1)
  }

  function Call(w: Waiter, cb: Callback): Waiter {
    match cb
    case Connected => if w.status.BLOCKED? then Wake(w, SUCCESS) else w.(failed := true)
    case Freed(_) => if w.status.BLOCKED? then Wake(w, SUCCESS) else w
    case Aborted => if w.status.BLOCKED? then Wake(w, ERROR) else w
  }

  function Calls(w: Waiter, cbs: seq<Callback>): Waiter {
    if cbs == [] then w else Call(Calls(w, cbs[..|cbs|-1]), cbs[|cbs|-1])
  }

  function Outcome(cb: Callback): Status {
    if cb.Aborted? then ERROR else SUCCESS
  }

  /** A save wakes once, with the outcome of the first callback, whatever follows it; later
      callbacks change nothing, except that a late `Connected` fails its assertion. */
  lemma {:induction false} FirstCallbackDecides(w: Waiter, cbs: seq<Callback>)
    requires !w.failed
    ensures var r := Calls(Block(w), cbs);
            && r.saves == w.saves + 1
            && r.wakes == w.wakes + (if cbs == [] then 0 else 1)
            && r.status == (if cbs == [] then BLOCKED else Outcome(cbs[0]))
            && (r.failed <==> exists i :: 0 < i < |cbs| && cbs[i].Connected?)
  {
    if cbs != [] {
      var init := cbs[..|cbs|-1];
      FirstCallbackDecides(w, init);
      assert forall i :: 0 <= i < |init| ==> init[i] == cbs[i];
      if Calls(Block(w), init).failed {
        var i :| 0 < i < |init| && init[i].Connected?;
        assert cbs[i].Connected?;
      }
    }
  }

  // ----- the history of a connection -----

  /** What the sender and the network do, in any order. */
  datatype Event =
    | HandOver(window: nat, piece: seq<char>)   // a window is given to the network
    | Save                                      // the sender saves its context
    | Fire(cb: Callback)

  function Handle(w: Waiter, e: Event): Waiter {
    match e
    case HandOver(_, _) => w
    case Save => Block(w)
    case Fire(cb) => Call(w, cb)
  }

  function StateAfter(trace: seq<Event>): Waiter {
    if trace == [] then Waiter(NONE, 0, 0, false)
    else Handle(StateAfter(trace[..|trace|-1]), trace[|trace|-1])
  }

  lemma StateAfterMore(trace: seq<Event>, e: Event)
    ensures StateAfter(trace + [e]) == Handle(StateAfter(trace), e)
  {
    assert (trace + [e])[..|trace|] == trace;
  }

  /** The sender runs, and can save its context, only when it is not blocked. */
  predicate SavesAwake(trace: seq<Event>) {
    trace != [] ==>
      && SavesAwake(trace[..|trace|-1])
      && (trace[|trace|-1].Save? ==> !StateAfter(trace[..|trace|-1]).status.BLOCKED?)
  }

  /** In every order of saves and callbacks, wakeups never overtake saves, a saved context
      that has not been activated is exactly a blocked sender, and an activation happens
      only from there. */
  lemma {:induction false} WakesPairWithSaves(trace: seq<Event>)
    requires SavesAwake(trace)
    ensures var w := StateAfter(trace);
            w.wakes <= w.saves <= w.wakes + 1 && (w.status.BLOCKED? <==> w.saves == w.wakes + 1)
    ensures trace != [] ==>
              var before, e := StateAfter(trace[..|trace|-1]), trace[|trace|-1];
              StateAfter(trace).wakes > before.wakes ==>
                e.Fire? && before.status.BLOCKED? && StateAfter(trace).status == Outcome(e.cb)
  {
    if trace != [] { WakesPairWithSaves(trace[..|trace|-1]); }
  }

  function Outstanding(before: set<nat>, e: Event): set<nat> {
    match e
    case HandOver(k, _) => before + {k}
    case Save => before
    case Fire(cb) => if cb.Freed? then before - {cb.window} else before
  }

  /** The windows handed over whose buffers have not been freed. */
  function InFlight(trace: seq<Event>): set<nat> {
    if trace == [] then {} else Outstanding(InFlight(trace[..|trace|-1]), trace[|trace|-1])
  }

  lemma InFlightMore(trace: seq<Event>, e: Event)
    ensures InFlight(trace + [e]) == Outstanding(InFlight(trace), e)
  {
    assert (trace + [e])[..|trace|] == trace;
  }

  /** Nothing is handed over before everything handed over earlier has been freed. */
  predicate OneAtATime(trace: seq<Event>) {
    trace != [] ==>
      && OneAtATime(trace[..|trace|-1])
      && (trace[|trace|-1].HandOver? ==> InFlight(trace[..|trace|-1]) == {})
  }

  lemma OneAtATimeMore(trace: seq<Event>, e: Event)
    requires OneAtATime(trace) && (e.HandOver? ==> InFlight(trace) == {})
    ensures OneAtATime(trace + [e])
  {
    assert (trace + [e])[..|trace|] == trace;
  }

  /** What the network may do next: it establishes a connection once, and not an aborted
      one, and it frees only buffers that it has. */
  predicate MayFire(trace: seq<Event>, cb: Callback) {
    match cb
    case Connected => Fire(Connected) !in trace && Fire(Aborted) !in trace
    case Freed(k) => k in InFlight(trace)
    case Aborted => true
  }

  /** The callbacks may fire one after the other. */
  predicate MayFireAll(trace: seq<Event>, cbs: seq<Callback>)
    decreases |cbs|
  {
    cbs == [] || (MayFire(trace, cbs[0]) && MayFireAll(trace + [Fire(cbs[0])], cbs[1..]))
  }

  function FireAll(trace: seq<Event>, cbs: seq<Callback>): seq<Event>
    decreases |cbs|
  {
    if cbs == [] then trace else FireAll(trace + [Fire(cbs[0])], cbs[1..])
  }

  /** A saved context is served by at least one callback. */
  predicate Serves(trace: seq<Event>, cbs: seq<Callback>) {
    cbs != [] && MayFireAll(trace, cbs)
  }

  lemma {:induction false} NoSecondConnected(trace: seq<Event>, cbs: seq<Callback>)
    requires MayFireAll(trace, cbs) && (Fire(Connected) in trace || Fire(Aborted) in trace)
    ensures forall cb <- cbs :: !cb.Connected?
    decreases |cbs|
  {
    if cbs != [] {
      NoSecondConnected(trace + [Fire(cbs[0])], cbs[1..]);
      assert cbs == [cbs[0]] + cbs[1..];
    }
  }

  /** Callbacks only ever free windows; what has happened stays in the history. */
  lemma {:induction false} FireAllKeeps(trace: seq<Event>, cbs: seq<Callback>)
    ensures trace <= FireAll(trace, cbs)
    ensures InFlight(FireAll(trace, cbs)) <= InFlight(trace)
    ensures OneAtATime(trace) ==> OneAtATime(FireAll(trace, cbs))
    decreases |cbs|
  {
    if cbs != [] {
      FireAllKeeps(trace + [Fire(cbs[0])], cbs[1..]);
      InFlightMore(trace, Fire(cbs[0]));
      if OneAtATime(trace) { OneAtATimeMore(trace, Fire(cbs[0])); }
    }
  }

  lemma {:induction false} CallsFront(w: Waiter, cbs: seq<Callback>)
    requires cbs != []
    ensures Calls(w, cbs) == Calls(Call(w, cbs[0]), cbs[1..])
  {
    if |cbs| == 1 {
      assert cbs[..0] == [] && cbs[1..] == [];
    } else {
      var init := cbs[..|cbs|-1];
      CallsFront(w, init);
      assert init[1..] == cbs[1..][..|cbs|-2];
    }
  }

  lemma {:induction false} FireAllState(trace: seq<Event>, cbs: seq<Callback>)
    ensures StateAfter(FireAll(trace, cbs)) == Calls(StateAfter(trace), cbs)
    decreases |cbs|
  {
    if cbs != [] {
      FireAllState(trace + [Fire(cbs[0])], cbs[1..]);
      StateAfterMore(trace, Fire(cbs[0]));
      hide StateAfter;
      CallsFront(StateAfter(trace), cbs);
    }
  }

  // ----- waiting for the only window in flight -----

  /** Was it an abort that ended the wait? */
  predicate FirstAborts(cbs: seq<Callback>) {
    cbs != [] && cbs[0].Aborted?
  }

  /** On an established connection with one window in flight, a wait that no abort ends is
      ended by the release of that very window. */
  lemma WaitFrees(trace: seq<Event>, k: nat, cbs: seq<Callback>)
    requires Serves(trace, cbs) && Fire(Connected) in trace && InFlight(trace) == {k}
    ensures !FirstAborts(cbs) ==> cbs[0] == Freed(k) && InFlight(FireAll(trace, cbs)) == {}
    ensures forall i :: 0 <= i < |cbs| ==> !cbs[i].Connected?
  {
    NoSecondConnected(trace, cbs);
    InFlightMore(trace, Fire(cbs[0]));
    FireAllKeeps(trace + [Fire(cbs[0])], cbs[1..]);
  }

  // ----- windows -----

  /** The pieces of at most `w` characters that the send loop makes of `bytes`. */
  function Windows(bytes: seq<char>, w: nat): (r: seq<seq<char>>)
    requires w > 0
  {
    if bytes == [] then []
    else if |bytes| <= w then [bytes]
    else [bytes[..w]] + Windows(bytes[w..], w)
  }

  lemma WindowsNone(w: nat)
    requires w > 0
    ensures Windows([], w) == []
  {
  }

  lemma WindowsStep(bytes: seq<char>, w: nat)
    requires w > 0 && bytes != []
    ensures var n := if |bytes| > w then w else |bytes|;
            Windows(bytes, w) == [bytes[..n]] + Windows(bytes[n..], w)
  {
    if |bytes| <= w { assert bytes[..|bytes|] == bytes && bytes[|bytes|..] == []; }
  }

  /** The window that starts at `sent`, when `k` windows lie before it. */
  lemma WindowAt(bytes: seq<char>, w: nat, pieces: seq<seq<char>>, k: nat, sent: nat)
    requires w > 0 && sent < |bytes| && k <= |pieces| && pieces[k..] == Windows(bytes[sent..], w)
    ensures var n := if |bytes| - sent > w then w else |bytes| - sent;
            && k < |pieces| && pieces[k] == bytes[sent..sent + n]
            && pieces[k+1..] == Windows(bytes[sent + n..], w)
            && pieces[..k+1] == pieces[..k] + [bytes[sent..sent + n]]
  {
    hide Windows;
    var rest := bytes[sent..];
    var n := if |rest| > w then w else |rest|;
    WindowsStep(rest, w);
    assert rest[..n] == bytes[sent..sent + n] && rest[n..] == bytes[sent + n..];
    assert pieces[k] == pieces[k..][0] && pieces[k+1..] == pieces[k..][1..];
  }

  /** The pieces put together again are the bytes. */
  lemma {:induction false} WindowsConcat(bytes: seq<char>, w: nat)
    requires w > 0
    ensures Concat(Windows(bytes, w)) == bytes
    decreases |bytes|
  {
    if bytes == [] {
      WindowsNone(w);
    } else {
      var n := if |bytes| > w then w else |bytes|;
      WindowsStep(bytes, w);
      hide Windows;
      WindowsConcat(bytes[n..], w);
      assert Windows(bytes, w)[1..] == Windows(bytes[n..], w);
      assert bytes == bytes[..n] + bytes[n..];
    }
  }

  /** All pieces but the last fill the window and the last is not empty. */
  lemma {:induction false} WindowsSizes(bytes: seq<char>, w: nat, i: nat)
    requires w > 0 && i < |Windows(bytes, w)|
    ensures if i < |Windows(bytes, w)| - 1 then |Windows(bytes, w)[i]| == w else 0 < |Windows(bytes, w)[i]| <= w
    decreases |bytes|
  {
    if |bytes| > w {
      assert Windows(bytes, w)[1..] == Windows(bytes[w..], w);
      if i > 0 { WindowsSizes(bytes[w..], w, i - 1); }
    }
  }

  /** There are |bytes| / w pieces, rounded up. */
  lemma {:induction false} WindowsCount(bytes: seq<char>, w: nat)
    requires w > 0
    ensures |bytes| <= |Windows(bytes, w)| * w < |bytes| + w
    decreases |bytes|
  {
    if |bytes| > w {
      WindowsCount(bytes[w..], w);
      var k := |Windows(bytes[w..], w)|;
      assert |Windows(bytes, w)| == k + 1;
      assert (k + 1) * w == k * w + w;
    }
  }

  /** The first so many pieces put together are a prefix of the bytes. */
  lemma {:induction false} WindowsPrefix(bytes: seq<char>, w: nat, k: nat)
    requires w > 0 && k <= |Windows(bytes, w)|
    ensures Concat(Windows(bytes, w)[..k]) <= bytes
    decreases |bytes|
  {
    var p := Windows(bytes, w);
    if k > 0 {
      assert p[..k][1..] == p[1..][..k-1];
      if |bytes| > w {
        assert p[1..] == Windows(bytes[w..], w);
        WindowsPrefix(bytes[w..], w, k - 1);
        assert bytes == bytes[..w] + bytes[w..];
      } else {
        assert p[..k] == [bytes] && Concat(p[1..][..k-1]) == [];
      }
    }
  }

  // ----- a whole send -----

  /** How many of `n` windows get sent: up to the first one whose wait is aborted. */
  function SentCount(n: nat, from: nat, cbs: nat -> seq<Callback>): (k: nat)
    requires from <= n
    ensures from <= k <= n
    decreases n - from
  {
    if from == n then n
    else if FirstAborts(cbs(from)) then from + 1
    else SentCount(n, from + 1, cbs)
  }

  lemma {:induction false} SentCountIs(n: nat, from: nat, cbs: nat -> seq<Callback>)
    requires from <= n
    ensures var to := SentCount(n, from, cbs);
            && (forall k :: from <= k < to - 1 ==> !FirstAborts(cbs(k)))
            && (to < n ==> from < to && FirstAborts(cbs(to - 1)))
    decreases n - from
  {
    if from < n && !FirstAborts(cbs(from)) { SentCountIs(n, from + 1, cbs); }
  }

  lemma SentCountStep(n: nat, k: nat, cbs: nat -> seq<Callback>)
    requires k < n
    ensures SentCount(n, k, cbs) == if FirstAborts(cbs(k)) then k + 1 else SentCount(n, k + 1, cbs)
    ensures SentCount(n, k, cbs) > k
  {
  }

  /** Window `k` is handed over and the sender saves its context. */
  function Waiting(trace: seq<Event>, k: nat, piece: seq<char>): seq<Event> {
    trace + [HandOver(k, piece)] + [Save]
  }

  /** The history once `n` windows have been handed over and waited for. */
  function SendAll(trace: seq<Event>, pieces: seq<seq<char>>, cbs: nat -> seq<Callback>, n: nat): seq<Event>
    requires n <= |pieces|
  {
    if n == 0 then trace
    else FireAll(Waiting(SendAll(trace, pieces, cbs, n - 1), n - 1, pieces[n-1]), cbs(n - 1))
  }

  lemma SendMore(trace: seq<Event>, pieces: seq<seq<char>>, cbs: nat -> seq<Callback>, n: nat)
    requires n < |pieces|
    ensures SendAll(trace, pieces, cbs, n + 1) ==
            FireAll(Waiting(SendAll(trace, pieces, cbs, n), n, pieces[n]), cbs(n))
  {
  }

  predicate ServesWindow(trace: seq<Event>, pieces: seq<seq<char>>, cbs: nat -> seq<Callback>, k: nat) {
    k < |pieces| && Serves(Waiting(SendAll(trace, pieces, cbs, k), k, pieces[k]), cbs(k))
  }

  /** The network serves every wait of the send. */
  ghost predicate ServesSend(trace: seq<Event>, pieces: seq<seq<char>>, cbs: nat -> seq<Callback>) {
    forall k: nat :: k < SentCount(|pieces|, 0, cbs) ==> ServesWindow(trace, pieces, cbs, k)
  }

  lemma WaitingIs(trace: seq<Event>, k: nat, piece: seq<char>)
    requires OneAtATime(trace) && InFlight(trace) == {}
    ensures OneAtATime(Waiting(trace, k, piece)) && InFlight(Waiting(trace, k, piece)) == {k}
    ensures trace <= Waiting(trace, k, piece)
  {
    var handed := trace + [HandOver(k, piece)];
    OneAtATimeMore(trace, HandOver(k, piece));
    InFlightMore(trace, HandOver(k, piece));
    OneAtATimeMore(handed, Save);
    InFlightMore(handed, Save);
  }

  /** One window more, with nothing in flight before it. */
  lemma WindowFreed(trace: seq<Event>, k: nat, piece: seq<char>, cbs: seq<Callback>)
    requires OneAtATime(trace) && InFlight(trace) == {} && Fire(Connected) in trace
    requires Serves(Waiting(trace, k, piece), cbs)
    ensures var after := FireAll(Waiting(trace, k, piece), cbs);
            && OneAtATime(after) && trace <= after && InFlight(after) <= {k}
            && (!FirstAborts(cbs) ==> InFlight(after) == {})
    ensures forall i :: 0 <= i < |cbs| ==> !cbs[i].Connected?
  {
    hide FireAll, InFlight, OneAtATime, MayFireAll;
    var waiting := Waiting(trace, k, piece);
    WaitingIs(trace, k, piece);
    FireAllKeeps(waiting, cbs);
    assert Fire(Connected) in waiting;
    WaitFrees(waiting, k, cbs);
  }

  /** Each window takes one save and one wakeup. */
  lemma WindowCounts(trace: seq<Event>, k: nat, piece: seq<char>, cbs: seq<Callback>)
    requires OneAtATime(trace) && InFlight(trace) == {} && Fire(Connected) in trace && !StateAfter(trace).failed
    requires Serves(Waiting(trace, k, piece), cbs)
    ensures Counted(StateAfter(trace), StateAfter(FireAll(Waiting(trace, k, piece), cbs)), 1)
  {
    var handed := trace + [HandOver(k, piece)];
    WindowFreed(trace, k, piece, cbs);
    StateAfterMore(trace, HandOver(k, piece));
    StateAfterMore(handed, Save);
    FireAllState(handed + [Save], cbs);
    hide StateAfter, FireAll, MayFireAll, OneAtATime, InFlight, Calls;
    FirstCallbackDecides(StateAfter(trace), cbs);
  }

  /** So many saves and wakeups later, and no assertion failed. */
  predicate Counted(w: Waiter, w': Waiter, n: nat) {
    w'.saves == w.saves + n && w'.wakes == w.wakes + n && !w'.failed
  }

  /** As long as no wait is aborted, every window is freed before the next. */
  lemma {:induction false} AllFreed(trace: seq<Event>, pieces: seq<seq<char>>, cbs: nat -> seq<Callback>, n: nat)
    requires OneAtATime(trace) && InFlight(trace) == {} && Fire(Connected) in trace
    requires n <= SentCount(|pieces|, 0, cbs) && ServesSend(trace, pieces, cbs)
    requires forall k: nat :: k < n ==> !FirstAborts(cbs(k))
    ensures var after := SendAll(trace, pieces, cbs, n);
            OneAtATime(after) && InFlight(after) == {} && trace <= after
  {
    hide FireAll, InFlight, OneAtATime, Waiting, Serves, SentCount, FirstAborts;
    if n > 0 {
      AllFreed(trace, pieces, cbs, n - 1);
      var before := SendAll(trace, pieces, cbs, n - 1);
      assert ServesWindow(trace, pieces, cbs, n - 1);
      WindowFreed(before, n - 1, pieces[n-1], cbs(n - 1));
    }
  }

  lemma {:induction false} SendCounts(trace: seq<Event>, pieces: seq<seq<char>>, cbs: nat -> seq<Callback>, n: nat)
    requires OneAtATime(trace) && InFlight(trace) == {} && Fire(Connected) in trace && !StateAfter(trace).failed
    requires n <= SentCount(|pieces|, 0, cbs) && ServesSend(trace, pieces, cbs)
    ensures Counted(StateAfter(trace), StateAfter(SendAll(trace, pieces, cbs, n)), n)
  {
    hide FireAll, InFlight, OneAtATime, Waiting, Serves, SentCount, FirstAborts, StateAfter;
    if n > 0 {
      SendCounts(trace, pieces, cbs, n - 1);
      SentCountIs(|pieces|, 0, cbs);
      AllFreed(trace, pieces, cbs, n - 1);
      var before := SendAll(trace, pieces, cbs, n - 1);
      assert ServesWindow(trace, pieces, cbs, n - 1);
      WindowCounts(before, n - 1, pieces[n-1], cbs(n - 1));
    }
  }

  /** Whatever the network does, at most one window is in flight: when one is handed over all
      earlier ones have been freed, and none is left behind by a send that nothing aborted. */
  lemma OneWindowInFlight(trace: seq<Event>, pieces: seq<seq<char>>, cbs: nat -> seq<Callback>, n: nat)
    requires OneAtATime(trace) && InFlight(trace) == {} && Fire(Connected) in trace
    requires n <= SentCount(|pieces|, 0, cbs) && ServesSend(trace, pieces, cbs)
    ensures var after := SendAll(trace, pieces, cbs, n);
            && OneAtATime(after) && trace <= after
            && (InFlight(after) == {} || (n > 0 && FirstAborts(cbs(n - 1)) && InFlight(after) == {n - 1}))
  {
    SentCountIs(|pieces|, 0, cbs);
    if n > 0 {
      AllFreed(trace, pieces, cbs, n - 1);
      var before := SendAll(trace, pieces, cbs, n - 1);
      hide FireAll, InFlight, OneAtATime, Waiting, Serves, SentCount, FirstAborts;
      assert ServesWindow(trace, pieces, cbs, n - 1);
      WindowFreed(before, n - 1, pieces[n-1], cbs(n - 1));
      assert SendAll(trace, pieces, cbs, n) == FireAll(Waiting(before, n - 1, pieces[n-1]), cbs(n - 1));
    }
  }

  /** Is none of the first `n` waits ended by an abort? */
  predicate NoAborts(cbs: nat -> seq<Callback>, n: nat) {
    forall k :: 0 <= k < n ==> !FirstAborts(cbs(k))
  }

  /** The 32-bit signed number `r` agrees with `n` modulo 2^32, and is `n` if that fits. */
  predicate Wraps(r: int, n: nat) {
    && -0x8000_0000 <= r < 0x8000_0000 && (r - n) % 0x1_0000_0000 == 0
    && (n < 0x8000_0000 ==> r == n)
  }

  /** Conversion of a size to the 32-bit signed result of `SendAndBlock`. */
  function ToInt32(n: nat): (r: int)
    ensures Wraps(r, n)
  {
    var m := n % 0x1_0000_0000;
    if m < 0x8000_0000 then m else m - 0x1_0000_0000
  }

  /** Where the send loop is: `k` windows, none of them aborted, cover the first `sent`
      bytes, and have been handed over and waited for. */
  ghost predicate Sending(bytes: seq<char>, w: nat, cbs: nat -> seq<Callback>, start: seq<Event>,
                          k: nat, sent: nat, sentPieces: seq<seq<char>>, trace: seq<Event>)
    requires w > 0
  {
    var pieces := Windows(bytes, w);
    && sent <= |bytes| && k <= |pieces| && pieces[k..] == Windows(bytes[sent..], w)
    && sentPieces == pieces[..k] && trace == SendAll(start, pieces, cbs, k)
    && SentCount(|pieces|, 0, cbs) == SentCount(|pieces|, k, cbs)
    && NoAborts(cbs, k)
  }

  lemma SendingStarts(bytes: seq<char>, w: nat, cbs: nat -> seq<Callback>, start: seq<Event>)
    requires w > 0
    ensures Sending(bytes, w, cbs, start, 0, 0, [], start)
  {
    hide Windows;
    assert bytes[0..] == bytes;
  }

  /** What a send leaves behind that has come to its end: the windows up to the first abort
      have been handed over, with one save and one wakeup each and none before all earlier ones
      had been freed, and none is in flight any more unless the last wait was aborted. */
  ghost predicate Sent(bytes: seq<char>, w: nat, cbs: nat -> seq<Callback>, start: seq<Event>,
                       r: int, sentPieces: seq<seq<char>>, trace: seq<Event>)
    requires w > 0
  {
    var pieces := Windows(bytes, w);
    var n := SentCount(|pieces|, 0, cbs);
    && sentPieces == pieces[..n] && trace == SendAll(start, pieces, cbs, n)
    && r == (if NoAborts(cbs, |pieces|) then ToInt32(|bytes|) else 0)
    && OneAtATime(trace) && (InFlight(trace) == {} || (n > 0 && FirstAborts(cbs(n - 1))))
    && Counted(StateAfter(start), StateAfter(trace), n)
  }

  /** The next window may be handed over. Its wait ends the send or leads one step on. */
  lemma SendingStep(bytes: seq<char>, w: nat, cbs: nat -> seq<Callback>, start: seq<Event>,
                    k: nat, sent: nat, sentPieces: seq<seq<char>>, trace: seq<Event>)
    requires w > 0 && Sending(bytes, w, cbs, start, k, sent, sentPieces, trace) && sent < |bytes|
    requires OneAtATime(start) && InFlight(start) == {} && Fire(Connected) in start && !StateAfter(start).failed
    requires ServesSend(start, Windows(bytes, w), cbs)
    ensures OneAtATime(trace) && InFlight(trace) == {} && Fire(Connected) in trace
    ensures var n := if |bytes| - sent > w then w else |bytes| - sent;
            var piece := bytes[sent..sent + n];
            var sentPieces', trace' := sentPieces + [piece], FireAll(Waiting(trace, k, piece), cbs(k));
            && Serves(Waiting(trace, k, piece), cbs(k)) && |sentPieces| == k
            && k < SentCount(|Windows(bytes, w)|, 0, cbs) && sentPieces' <= Windows(bytes, w)
            && if FirstAborts(cbs(k))
               then
                 && k + 1 == SentCount(|Windows(bytes, w)|, 0, cbs)
                 && Sent(bytes, w, cbs, start, 0, sentPieces', trace')
               else Sending(bytes, w, cbs, start, k + 1, sent + n, sentPieces', trace')
  {
    hide Windows, InFlight, OneAtATime, FireAll, Waiting, MayFireAll, StateAfter;
    var pieces := Windows(bytes, w);
    WindowAt(bytes, w, pieces, k, sent);
    SentCountStep(|pieces|, k, cbs);
    assert ServesWindow(start, pieces, cbs, k);
    AllFreed(start, pieces, cbs, k);
    SendMore(start, pieces, cbs, k);
    WindowFreed(trace, k, pieces[k], cbs(k));
    SendCounts(start, pieces, cbs, k + 1);
  }

  /** The chunks that arrive during the first `n` waits. */
  function Arrived(arriving: nat -> seq<seq<char>>, n: nat): seq<seq<char>> {
    if n == 0 then [] else Arrived(arriving, n - 1) + arriving(n - 1)
  }

  lemma {:induction false} ArrivedGrows(arriving: nat -> seq<seq<char>>, k: nat, n: nat)
    requires k <= n
    ensures |Concat(Arrived(arriving, k))| <= |Concat(Arrived(arriving, n))|
  {
    if k < n {
      ArrivedGrows(arriving, k, n - 1);
      ConcatSplit(Arrived(arriving, n - 1), arriving(n - 1));
    }
  }

  /** The buffer took the chunks of the first `n` waits behind what was in it; or there was no
      room for them, and it still holds what was in it. */
  ghost predicate Took(before: seq<char>, after: seq<char>, size: nat, arriving: nat -> seq<seq<char>>,
                       n: nat, ok: bool)
  {
    var more := Concat(Arrived(arriving, n));
    (ok <==> |before| + |more| < size) && if ok then after == before + more else before <= after
  }

  lemma TookNone(before: seq<char>, size: nat, arriving: nat -> seq<seq<char>>)
    requires |before| < size
    ensures Took(before, before, size, arriving, 0, true)
  {
  }

  /** One wait more; when its chunks find no room those of all `n` waits do not either. */
  lemma TookMore(before: seq<char>, middle: seq<char>, after: seq<char>, size: nat,
                 arriving: nat -> seq<seq<char>>, k: nat, n: nat, ok: bool)
    requires Took(before, middle, size, arriving, k, true) && k < n
    requires ok <==> |middle| + |Concat(arriving(k))| < size
    requires if ok then after == middle + Concat(arriving(k)) else middle <= after
    ensures before <= after
    ensures if ok then Took(before, after, size, arriving, k + 1, true)
            else Took(before, after, size, arriving, n, false)
  {
    ConcatSplit(Arrived(arriving, k), arriving(k));
    ArrivedGrows(arriving, k + 1, n);
  }

  lemma SendingEnds(bytes: seq<char>, w: nat, cbs: nat -> seq<Callback>, start: seq<Event>,
                    k: nat, sentPieces: seq<seq<char>>, trace: seq<Event>)
    requires w > 0 && Sending(bytes, w, cbs, start, k, |bytes|, sentPieces, trace)
    requires OneAtATime(start) && InFlight(start) == {} && Fire(Connected) in start && !StateAfter(start).failed
    requires ServesSend(start, Windows(bytes, w), cbs)
    ensures k == SentCount(|Windows(bytes, w)|, 0, cbs)
    ensures Sent(bytes, w, cbs, start, ToInt32(|bytes|), sentPieces, trace) && sentPieces == Windows(bytes, w)
  {
    hide InFlight, OneAtATime, StateAfter;
    AllFreed(start, Windows(bytes, w), cbs, k);
    SendCounts(start, Windows(bytes, w), cbs, k);
    WindowsNone(w);
    assert bytes[|bytes|..] == [];
  }

  // ----- what the network can do to a send -----

  /** Every window before number `m` is freed, and the wait for that one is aborted. */
  function FreesUntil(m: nat): nat -> seq<Callback> {
    (k: nat) => if k == m then [Aborted] else [Freed(k)]
  }

  /** The connection can be established or aborted, and a send on it aborted at any of its
      windows or at none: all windows before that one are freed. */
  lemma AnyOutcome(pieces: seq<seq<char>>, m: nat)
    ensures Serves([Save], [Connected]) && Serves([Save], [Aborted])
    ensures var start, cbs := FireAll([Save], [Connected]), FreesUntil(m);
            && ServesSend(start, pieces, cbs)
            && SentCount(|pieces|, 0, cbs) == if m < |pieces| then m + 1 else |pieces|
  {
    var start, cbs := FireAll([Save], [Connected]), FreesUntil(m);
    assert Serves([Save], [Connected]) && Serves([Save], [Aborted]);
    FirstEvents([Connected]);
    AbortsAt(|pieces|, 0, m);
    forall k: nat | k < SentCount(|pieces|, 0, cbs) ensures ServesWindow(start, pieces, cbs, k) {
      FreedSoFar(start, pieces, m, k);
      ServedOnce(SendAll(start, pieces, cbs, k), k, pieces[k], m);
    }
  }

  lemma {:induction false} AbortsAt(n: nat, from: nat, m: nat)
    requires from <= n && from <= m
    ensures SentCount(n, from, FreesUntil(m)) == if m < n then m + 1 else n
    decreases n - from
  {
    if from < n && from != m { AbortsAt(n, from + 1, m); }
  }

  /** A window can be freed, and its wait can be aborted. */
  lemma ServedOnce(trace: seq<Event>, k: nat, piece: seq<char>, m: nat)
    requires OneAtATime(trace) && InFlight(trace) == {} && Fire(Connected) in trace
    ensures Serves(Waiting(trace, k, piece), FreesUntil(m)(k))
  {
    hide InFlight, OneAtATime;
    WaitingIs(trace, k, piece);
    var waiting, cbs := Waiting(trace, k, piece), FreesUntil(m)(k);
    assert MayFire(waiting, cbs[0]);
    assert cbs[1..] == [] && MayFireAll(waiting + [Fire(cbs[0])], []);
  }

  lemma {:induction false} FreedSoFar(start: seq<Event>, pieces: seq<seq<char>>, m: nat, k: nat)
    requires k <= m && k <= |pieces|
    requires OneAtATime(start) && InFlight(start) == {} && Fire(Connected) in start
    ensures var after := SendAll(start, pieces, FreesUntil(m), k);
            OneAtATime(after) && InFlight(after) == {} && Fire(Connected) in after
  {
    hide InFlight, OneAtATime, FireAll, Serves, Waiting;
    if k > 0 {
      FreedSoFar(start, pieces, m, k - 1);
      var before := SendAll(start, pieces, FreesUntil(m), k - 1);
      ServedOnce(before, k - 1, pieces[k-1], m);
      WindowFreed(before, k - 1, pieces[k-1], FreesUntil(m)(k - 1));
    }
  }

  // ----- sending out of a buffer that fills up meanwhile -----

  /** The first `n` characters of `before`, which is in a buffer of the given size, are to be
      sent in windows of `w`; during wait `k` the chunks `arriving(k)` come in. */
  datatype Plan = Plan(before: seq<char>, size: nat, n: nat, w: nat, cbs: nat -> seq<Callback>,
                       arriving: nat -> seq<seq<char>>, start: seq<Event>)

  ghost predicate Ready(p: Plan) {
    && 0 < p.w && p.n <= |p.before| < p.size
    && OneAtATime(p.start) && InFlight(p.start) == {} && Fire(Connected) in p.start && !StateAfter(p.start).failed
    && ServesSend(p.start, Windows(p.before[..p.n], p.w), p.cbs)
  }

  /** The send and the buffer after `k` windows. */
  ghost predicate Midway(p: Plan, k: nat, sent: nat, sentPieces: seq<seq<char>>, trace: seq<Event>, now: seq<char>) {
    && 0 < p.w && p.n <= |p.before| && |sentPieces| == k
    && Sending(p.before[..p.n], p.w, p.cbs, p.start, k, sent, sentPieces, trace)
    && p.before <= now && Took(p.before, now, p.size, p.arriving, k, true)
  }

  /** The end of the send. What arrived lies behind what was sent and has not changed it; where
      it found no room (`ok` is false) the windows handed over until then were still the right
      ones. */
  ghost predicate Ended(p: Plan, r: int, sentPieces: seq<seq<char>>, trace: seq<Event>, now: seq<char>, ok: bool) {
    && 0 < p.w && p.n <= |p.before|
    && Took(p.before, now, p.size, p.arriving, SentCount(|Windows(p.before[..p.n], p.w)|, 0, p.cbs), ok)
    && if ok then Sent(p.before[..p.n], p.w, p.cbs, p.start, r, sentPieces, trace)
       else sentPieces <= Windows(p.before[..p.n], p.w)
  }

  lemma PlanStarts(p: Plan)
    requires Ready(p)
    ensures Midway(p, 0, 0, [], p.start, p.before)
  {
    hide Sending, Took;
    SendingStarts(p.before[..p.n], p.w, p.cbs, p.start);
    TookNone(p.before, p.size, p.arriving);
  }

  /** The length of the window at `sent`. */
  function WindowLength(p: Plan, sent: nat): nat
    requires sent <= p.n
  {
    if p.n - sent > p.w then p.w else p.n - sent
  }

  lemma SamePiece(before: seq<char>, now: seq<char>, n: nat, i: nat, j: nat)
    requires before <= now && i <= j <= n <= |before|
    ensures now[i..j] == before[..n][i..j]
  {
    assert now == before + now[|before|..];
  }

  lemma PlanStep(p: Plan, k: nat, sent: nat, sentPieces: seq<seq<char>>, trace: seq<Event>, now: seq<char>)
    requires Ready(p) && Midway(p, k, sent, sentPieces, trace, now) && sent < p.n
    ensures var m := WindowLength(p, sent);
            && sent + m <= |now| && Serves(Waiting(trace, k, now[sent..sent + m]), p.cbs(k))
            && OneAtATime(trace) && InFlight(trace) == {} && Fire(Connected) in trace
  {
    hide Windows, Sending, Sent, Took, OneAtATime, InFlight, FireAll, Waiting, Serves, ServesSend, SentCount;
    var m := WindowLength(p, sent);
    SamePiece(p.before, now, p.n, sent, sent + m);
    SendingStep(p.before[..p.n], p.w, p.cbs, p.start, k, sent, sentPieces, trace);
  }

  lemma PlanWent(p: Plan, k: nat, sent: nat, sentPieces: seq<seq<char>>, trace: seq<Event>, now: seq<char>,
                 piece: seq<char>, trace': seq<Event>, now': seq<char>, ok: bool)
    requires Ready(p) && Midway(p, k, sent, sentPieces, trace, now) && sent < p.n
    requires sent + WindowLength(p, sent) <= |now| && piece == now[sent..sent + WindowLength(p, sent)]
    requires ok <==> |now| + |Concat(p.arriving(k))| < p.size
    requires if ok then now' == now + Concat(p.arriving(k)) else now <= now'
    requires ok ==> trace' == FireAll(Waiting(trace, k, piece), p.cbs(k))
    ensures var sentPieces' := sentPieces + [piece];
            if !ok || FirstAborts(p.cbs(k)) then Ended(p, 0, sentPieces', trace', now', ok)
            else Midway(p, k + 1, sent + WindowLength(p, sent), sentPieces', trace', now')
  {
    hide Windows, Sending, Sent, Took, OneAtATime, InFlight, FireAll, Waiting, Serves, ServesSend, SentCount;
    var all := p.before[..p.n];
    SamePiece(p.before, now, p.n, sent, sent + WindowLength(p, sent));
    SendingStep(all, p.w, p.cbs, p.start, k, sent, sentPieces, trace);
    TookMore(p.before, now, now', p.size, p.arriving, k, SentCount(|Windows(all, p.w)|, 0, p.cbs), ok);
  }

  lemma PlanEnds(p: Plan, k: nat, sentPieces: seq<seq<char>>, trace: seq<Event>, now: seq<char>)
    requires Ready(p) && Midway(p, k, p.n, sentPieces, trace, now)
    ensures Ended(p, ToInt32(p.n), sentPieces, trace, now, true)
  {
    hide Windows, Sending, Sent, Took, OneAtATime, InFlight, ServesSend, SentCount;
    SendingEnds(p.before[..p.n], p.w, p.cbs, p.start, k, sentPieces, trace);
  }

  /** The result of a send that was not aborted is the length itself, if 32 bits hold it. */
  lemma EndedResult(p: Plan, r: int, sentPieces: seq<seq<char>>, trace: seq<Event>, now: seq<char>, ok: bool)
    requires Ended(p, r, sentPieces, trace, now, ok)
    ensures ok && NoAborts(p.cbs, |Windows(p.before[..p.n], p.w)|) ==>
              Wraps(r, p.n)
  {
    hide Took, SendAll, Windows, SentCount, NoAborts;
  }

  // ----- the connection object -----

  class OutConnection {
    const windowSize: nat
    var status: Status
    var saves: nat
    var wakes: nat
    var failed: bool
    ghost var trace: seq<Event>

    ghost predicate Valid()
      reads this
    {
      Waiter(status, saves, wakes, failed) == StateAfter(trace)
    }

    constructor (windowSize: nat)
      ensures Valid() && trace == [] && this.windowSize == windowSize
    {
      this.windowSize := windowSize;
      status, saves, wakes, failed, trace := NONE, 0, 0, false, [];
    }

    method Connected()
      requires Valid()
      modifies this
      ensures Valid() && trace == old(trace) + [Fire(Callback.Connected)]
    {
      StateAfterMore(trace, Fire(Callback.Connected));
      trace := trace + [Fire(Callback.Connected)];
      if status != BLOCKED {
        failed := true;
        return;
      }
      status := SUCCESS;
      wakes := wakes + 1;
    }

    method BufferFreed(ghost window: nat)
      requires Valid()
      modifies this
      ensures Valid() && trace == old(trace) + [Fire(Freed(window))]
    {
      StateAfterMore(trace, Fire(Freed(window)));
      trace := trace + [Fire(Freed(window))];
      if status == BLOCKED {
        status := SUCCESS;
        wakes := wakes + 1;
      }
    }

    method Abort()
      requires Valid()
      modifies this
      ensures Valid() && trace == old(trace) + [Fire(Aborted)]
    {
      StateAfterMore(trace, Fire(Aborted));
      trace := trace + [Fire(Aborted)];
      if status == BLOCKED {
        status := ERROR;
        wakes := wakes + 1;
      }
    }

    /** Saves the context; the event loop then runs these callbacks before the sender resumes. */
    method SaveContext(cbs: seq<Callback>)
      requires Valid() && cbs != []
      modifies this
      ensures Valid() && trace == FireAll(old(trace) + [Save], cbs)
      ensures !old(failed) ==>
                && saves == old(saves) + 1 && wakes == old(wakes) + 1 && status == Outcome(cbs[0])
                && (failed <==> exists i :: 0 < i < |cbs| && cbs[i].Connected?)
    {
      ghost var before, start := StateAfter(trace), trace + [Save];
      StateAfterMore(trace, Save);
      FireAllState(start, cbs);
      hide StateAfter;
      trace := start;
      status := BLOCKED;
      saves := saves + 1;
      var i := 0;
      assert cbs[0..] == cbs;
      while i < |cbs|
        invariant i <= |cbs| && Valid() && FireAll(trace, cbs[i..]) == FireAll(start, cbs)
      {
        assert cbs[i..][1..] == cbs[i+1..];
        match cbs[i] {
          case Connected => Connected();
          case Freed(k) => BufferFreed(k);
          case Aborted => Abort();
        }
        i := i + 1;
      }
      assert cbs[i..] == [];
      if !before.failed { FirstCallbackDecides(before, cbs); }
    }

    method ConnectAndBlock(cbs: seq<Callback>) returns (r: int)
      requires Valid() && trace == [] && Serves([Save], cbs)
      modifies this
      ensures Valid() && trace == FireAll([Save], cbs) && !failed
      ensures r == (if FirstAborts(cbs) then 0 else 1)
      ensures r == 1 ==> Fire(Callback.Connected) in trace
      ensures OneAtATime(trace) && InFlight(trace) == {} && saves == wakes == 1
    {
      FirstEvents(cbs);
      assert [] + [Save] == [Save];
      SaveContext(cbs);
      if status == SUCCESS {
        return 1;
      }
      return 0;
    }

    /** Reads one window out of the buffer, hands it to the network and waits; while it waits
        `chunks` arrive. */
    method SendWindow(inbox: Inbox, sent: nat, sendLen: nat, ghost k: nat,
                      cbs: seq<Callback>, chunks: seq<seq<char>>)
      returns (piece: seq<char>, ok: bool)
      requires Valid() && !failed && inbox.Valid() && sent + sendLen <= inbox.len
      requires Serves(Waiting(trace, k, inbox.Contents()[sent..sent + sendLen]), cbs)
      requires OneAtATime(trace) && InFlight(trace) == {} && Fire(Callback.Connected) in trace
      modifies this, inbox, inbox.data
      ensures piece == old(inbox.Contents()[sent..sent + sendLen])
      ensures inbox.Valid() && (ok <==> |old(inbox.Contents())| + |Concat(chunks)| < inbox.data.Length)
      ensures if ok then inbox.Contents() == old(inbox.Contents()) + Concat(chunks)
              else old(inbox.Contents()) <= inbox.Contents()
      ensures ok ==>
                && Valid() && !failed && trace == FireAll(Waiting(old(trace), k, piece), cbs)
                && status == (if FirstAborts(cbs) then ERROR else SUCCESS)
                && saves == old(saves) + 1 && wakes == old(wakes) + 1
    {
      piece := inbox.Window(sent, sendLen);
      ok := inbox.AppendAll(chunks);
      if !ok {
        return;
      }
      WindowFreed(trace, k, piece, cbs);
      hide FireAll, InFlight, OneAtATime, MayFireAll, Concat;
      StateAfterMore(trace, HandOver(k, piece));
      trace := trace + [HandOver(k, piece)];
      SaveContext(cbs);
    }

    /** The next window of a send, with its wait. */
    method SendNext(inbox: Inbox, ghost p: Plan, ghost k: nat, sent: nat, sendLen: nat,
                    sentPieces0: seq<seq<char>>, cbs: seq<Callback>, chunks: seq<seq<char>>)
      returns (sentPieces: seq<seq<char>>, ok: bool)
      requires Valid() && !failed && inbox.Valid() && inbox.data.Length == p.size
      requires Ready(p) && Midway(p, k, sent, sentPieces0, trace, inbox.Contents())
      requires sent < p.n && sendLen == WindowLength(p, sent) && cbs == p.cbs(k) && chunks == p.arriving(k)
      modifies this, inbox, inbox.data
      ensures inbox.Valid() && |sentPieces| == |sentPieces0| + 1
      ensures ok ==>
                && Valid() && !failed && status == (if FirstAborts(cbs) then ERROR else SUCCESS)
                && saves == old(saves) + 1 && wakes == old(wakes) + 1
      ensures if !ok || FirstAborts(cbs) then Ended(p, 0, sentPieces, trace, inbox.Contents(), ok)
              else Midway(p, k + 1, sent + sendLen, sentPieces, trace, inbox.Contents())
    {
      ghost var trace0, now := trace, inbox.Contents();
      PlanStep(p, k, sent, sentPieces0, trace, now);
      hide Ready, Midway, Ended, OneAtATime, InFlight, FireAll, Waiting, Serves, Concat, FirstAborts, StateAfter;
      var piece;
      piece, ok := SendWindow(inbox, sent, sendLen, k, cbs, chunks);
      sentPieces := sentPieces0 + [piece];
      PlanWent(p, k, sent, sentPieces0, trace0, now, piece, trace, inbox.Contents(), ok);
    }

    /** Hands over the first `bytes` of the buffer a window at a time, each read when its turn
        comes, and waits for each window to be freed before it hands over the next. While the
        sender waits for window `k` the chunks `arriving(k)` come in and `cbs(k)` runs; `ok`
        says that they all found room. */
    method SendAndBlock(inbox: Inbox, bytes: nat, cbs: nat -> seq<Callback>, arriving: nat -> seq<seq<char>>)
      returns (r: int, sentPieces: seq<seq<char>>, ok: bool)
      requires windowSize > 0 && Valid() && !failed && inbox.Valid() && bytes <= inbox.len
      requires Ready(Plan(inbox.Contents(), inbox.data.Length, bytes, windowSize, cbs, arriving, trace))
      modifies this, inbox, inbox.data
      ensures inbox.Valid()
      ensures var p := Plan(old(inbox.Contents()), inbox.data.Length, bytes, windowSize, cbs, arriving, old(trace));
              Ended(p, r, sentPieces, trace, inbox.Contents(), ok)
      ensures ok && NoAborts(cbs, |Windows(old(inbox.Contents()[..bytes]), windowSize)|) ==>
                Wraps(r, bytes)
      ensures ok ==> Valid() && !failed
    {
      var len: nat, sent: nat, k: nat := bytes, 0, 0;
      sentPieces := [];
      ghost var p := Plan(inbox.Contents(), inbox.data.Length, bytes, windowSize, cbs, arriving, trace);
      hide Ready, Midway, Ended, FirstAborts, StateAfter, ToInt32, NoAborts, Windows, Wraps, Inbox.Contents;
      PlanStarts(p);
      while len != 0
        invariant sent + len == bytes && |sentPieces| == k && Valid() && !failed && inbox.Valid()
        invariant Midway(p, k, sent, sentPieces, trace, inbox.Contents())
      {
        var sendLen := if len > windowSize then windowSize else len;
        sentPieces, ok := SendNext(inbox, p, k, sent, sendLen, sentPieces, cbs(k), arriving(k));
        if !ok || status != SUCCESS {
          r := 0;
          EndedResult(p, r, sentPieces, trace, inbox.Contents(), ok);
          return;
        }
        k := k + 1;
        sent := sent + sendLen;
        len := len - sendLen;
      }
      PlanEnds(p, k, sentPieces, trace, inbox.Contents());
      EndedResult(p, ToInt32(sent), sentPieces, trace, inbox.Contents(), true);
      return ToInt32(sent), sentPieces, true;
    }
  }

  lemma SavedOnly()
    ensures InFlight([Save]) == {} && OneAtATime([Save])
  {
    assert [Save][..0] == [];
  }

  /** The wait for a connection ends with its establishment or with an abort. */
  lemma FirstEvents(cbs: seq<Callback>)
    requires Serves([Save], cbs)
    ensures !FirstAborts(cbs) ==> cbs[0].Connected? && Fire(Connected) in FireAll([Save], cbs)
    ensures forall i :: 0 < i < |cbs| ==> !cbs[i].Connected?
    ensures OneAtATime(FireAll([Save], cbs)) && InFlight(FireAll([Save], cbs)) == {}
  {
    hide InFlight, OneAtATime;
    SavedOnly();
    FireAllKeeps([Save], cbs);
    var first := [Save] + [Fire(cbs[0])];
    assert MayFire([Save], cbs[0]) && Fire(cbs[0]) in first;
    assert FireAll(first, cbs[1..]) == FireAll([Save], cbs);
    hide FireAll;
    FireAllKeeps(first, cbs[1..]);
    NoSecondConnected(first, cbs[1..]);
    assert forall i :: 0 < i < |cbs| ==> cbs[i] == cbs[1..][i-1];
  }
}
