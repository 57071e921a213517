// How often what the command server receives is relayed. The server is run once more on the
// positions of the chunks in the trace instead of their characters, so that a chunk can be
// told from another one with the same characters.
module RelayAccount {
  import opened CmdServer
  import opened ReceiveBuffer

  /** The chunks in the buffer and in each `Do`, by the position at which they arrived. */
  datatype Tags = Tags(pending: seq<nat>, handed: seq<seq<nat>>)

  /** What an event does that happens at position `n`. */
  function TagStep(t: Tags, n: nat, e: Event): Tags {
    match e
    case Receive(_) => t.(pending := t.pending + [n])
    case Close => t.(handed := t.handed + [t.pending])
    case Sent => t.(pending := [])
  }

  function Tag(trace: seq<Event>): Tags {
    if trace == [] then Tags([], [])
    else TagStep(Tag(trace[..|trace|-1]), |trace| - 1, trace[|trace|-1])
  }

  predicate AreChunks(trace: seq<Event>, ids: seq<nat>) {
    forall k :: 0 <= k < |ids| ==> ids[k] < |trace| && trace[ids[k]].Receive?
  }

  function Chunks(trace: seq<Event>, ids: seq<nat>): seq<seq<char>>
    requires AreChunks(trace, ids)
  {
    seq(|ids|, k requires 0 <= k < |ids| => trace[ids[k]].chunk)
  }

  lemma ChunksEarlier(trace: seq<Event>, n: nat, ids: seq<nat>)
    requires n <= |trace| && AreChunks(trace[..n], ids)
    ensures AreChunks(trace, ids) && Chunks(trace, ids) == Chunks(trace[..n], ids)
  {
  }

  /** What the server holds and has handed over, in characters, is what the tags say. */
  ghost predicate Spells(trace: seq<Event>, s: Server, t: Tags) {
    && AreChunks(trace, t.pending) && s.pending == Concat(Chunks(trace, t.pending))
    && |s.handed| == |t.handed|
    && forall j :: 0 <= j < |t.handed| ==>
         AreChunks(trace, t.handed[j]) && s.handed[j] == Concat(Chunks(trace, t.handed[j]))
  }

  lemma SpellsMore(init: seq<Event>, e: Event, s: Server, t: Tags)
    requires Spells(init, s, t) && !s.down && !Step(s, e).down && (e.Sent? ==> s.busy > 0)
    ensures Spells(init + [e], Step(s, e), TagStep(t, |init|, e))
  {
    var trace := init + [e];
    hide Concat;
    assert trace[..|init|] == init;
    ChunksEarlier(trace, |init|, t.pending);
    forall j | 0 <= j < |t.handed|
      ensures AreChunks(trace, t.handed[j]) && s.handed[j] == Concat(Chunks(trace, t.handed[j]))
    {
      ChunksEarlier(trace, |init|, t.handed[j]);
    }
    match e
    case Receive(chunk) =>
      assert Chunks(trace, t.pending + [|init|]) == Chunks(trace, t.pending) + [chunk];
      ConcatMore(Chunks(trace, t.pending), chunk);
    case Close =>
    case Sent =>
      assert Chunks(trace, []) == [];
      ConcatNone();
  }

  lemma {:induction false} TagsSpell(trace: seq<Event>)
    requires Sensible(trace) && !Exec(trace).down
    ensures Spells(trace, Exec(trace), Tag(trace))
  {
    if trace != [] {
      var init, e := trace[..|trace|-1], trace[|trace|-1];
      assert trace == init + [e];
      TagsSpell(init);
      SpellsMore(init, e, Exec(init), Tag(init));
    }
  }

  // ----- one chunk -----

  /** How many of the calls of `Do` handed over chunk `i`. */
  function Times(handed: seq<seq<nat>>, i: nat): nat {
    if handed == [] then 0
    else Times(handed[..|handed|-1], i) + if i in handed[|handed|-1] then 1 else 0
  }

  /** The number of calls of `Do` before the next one comes back. */
  function ClosesBeforeSent(events: seq<Event>): nat {
    if events == [] || events[0].Sent? then 0
    else ClosesBeforeSent(events[1..]) + if events[0].Close? then 1 else 0
  }

  lemma {:induction false} ClosesMore(events: seq<Event>, e: Event)
    ensures ClosesBeforeSent(events + [e]) ==
            ClosesBeforeSent(events) + if e.Close? && Sent !in events then 1 else 0
  {
    if events == [] {
      assert [] + [e] == [e] && [e][1..] == [];
    } else {
      assert (events + [e])[1..] == events[1..] + [e];
      assert events == [events[0]] + events[1..];
      if !events[0].Sent? { ClosesMore(events[1..], e); }
    }
  }

  /** The chunk has been handed over as often as a `Do` was called before one came back, and is
      in the buffer as long as none has. */
  predicate Account(t: Tags, i: nat, later: seq<Event>) {
    && Times(t.handed, i) == ClosesBeforeSent(later)
    && (i in t.pending <==> Sent !in later)
  }

  /** A chunk is in the buffer until a `Do` comes back, and every `Do` called until then hands
      it over: exactly as many times as there are calls in between. */
  lemma {:induction false} HandedTimes(trace: seq<Event>, i: nat)
    requires i < |trace| && trace[i].Receive?
    ensures Account(Tag(trace), i, trace[i+1..])
  {
    var init, e := trace[..|trace|-1], trace[|trace|-1];
    if i == |init| {
      TagsAreEarlier(init);
      hide Times, ClosesBeforeSent;
      NotHandedYet(Tag(init).handed, i);
      NoEvents();
      assert trace[i+1..] == [];
    } else {
      HandedTimes(init, i);
      AccountMore(Tag(init), i, init[i+1..], |init|, e);
      hide Account, TagStep;
      assert trace[i+1..] == init[i+1..] + [e];
    }
  }

  lemma AccountMore(t: Tags, i: nat, later: seq<Event>, n: nat, e: Event)
    requires Account(t, i, later) && i < n
    ensures Account(TagStep(t, n, e), i, later + [e])
  {
    hide Times, ClosesBeforeSent;
    ClosesMore(later, e);
    TimesMore(t.handed, t.pending, i);
  }

  lemma NoEvents()
    ensures ClosesBeforeSent([]) == 0
  {
  }

  lemma TimesMore(handed: seq<seq<nat>>, ids: seq<nat>, i: nat)
    ensures Times(handed + [ids], i) == Times(handed, i) + if i in ids then 1 else 0
  {
    assert (handed + [ids])[..|handed|] == handed;
  }

  lemma {:induction false} TagsAreEarlier(trace: seq<Event>)
    ensures forall i <- Tag(trace).pending :: i < |trace|
    ensures forall ids <- Tag(trace).handed :: forall i <- ids :: i < |trace|
  {
    if trace != [] {
      var init, e := trace[..|trace|-1], trace[|trace|-1];
      assert Tag(trace) == TagStep(Tag(init), |init|, e);
      TagsAreEarlier(init);
      hide Tag;
    }
  }

  lemma {:induction false} NotHandedYet(handed: seq<seq<nat>>, i: nat)
    requires forall ids <- handed :: i !in ids
    ensures Times(handed, i) == 0
  {
    if handed != [] { NotHandedYet(handed[..|handed|-1], i); }
  }

  /** Once a `Do` has come back after it arrived, the account of a chunk is closed. It was
      relayed once if and only if exactly one `Do` was called in between; with none it is
      lost, with more it is repeated, and nothing that happens later changes that. */
  lemma RelayedOnceIff(trace: seq<Event>, more: seq<Event>, i: nat)
    requires i < |trace| && trace[i].Receive? && Sent in trace[i+1..]
    ensures Times(Tag(trace + more).handed, i) == ClosesBeforeSent(trace[i+1..])
    ensures Times(Tag(trace + more).handed, i) == 1 <==> ClosesBeforeSent(trace[i+1..]) == 1
  {
    HandedTimes(trace + more, i);
    assert (trace + more)[i+1..] == trace[i+1..] + more;
    ClosesKept(trace[i+1..], more);
  }

  lemma {:induction false} ClosesKept(events: seq<Event>, more: seq<Event>)
    requires Sent in events
    ensures ClosesBeforeSent(events + more) == ClosesBeforeSent(events)
  {
    if !events[0].Sent? {
      assert (events + more)[1..] == events[1..] + more && events == [events[0]] + events[1..];
      ClosesKept(events[1..], more);
    }
  }

  // ----- all chunks -----

  function Flat(lists: seq<seq<nat>>): seq<nat> {
    if lists == [] then [] else Flat(lists[..|lists|-1]) + lists[|lists|-1]
  }

  /** The chunks that arrived, in order. */
  function Arrivals(trace: seq<Event>): seq<nat> {
    if trace == [] then []
    else Arrivals(trace[..|trace|-1]) + if trace[|trace|-1].Receive? then [|trace| - 1] else []
  }

  /** The chunks that arrived since the last event of a `Do`: nothing has happened to them yet. */
  function Recent(trace: seq<Event>): seq<nat> {
    if trace == [] then []
    else if trace[|trace|-1].Receive? then Recent(trace[..|trace|-1]) + [|trace| - 1]
    else []
  }

  /** Exactly one `Do` was called before one came back, or neither has happened yet. */
  predicate OnceOrWaiting(trace: seq<Event>, i: nat)
    requires i < |trace|
  {
    var later := trace[i+1..];
    ClosesBeforeSent(later) == 1 || (ClosesBeforeSent(later) == 0 && Sent !in later)
  }

  predicate AllOnce(trace: seq<Event>) {
    forall i :: 0 <= i < |trace| && trace[i].Receive? ==> OnceOrWaiting(trace, i)
  }

  /** Everything that arrived has been handed over once, in order, or waits to be. */
  predicate InOrder(trace: seq<Event>) {
    Flat(Tag(trace).handed) + Recent(trace) == Arrivals(trace)
  }

  predicate Increasing(ids: seq<nat>, n: nat) {
    (forall a, b :: 0 <= a < b < |ids| ==> ids[a] < ids[b]) && forall i <- ids :: i < n
  }

  lemma IncreasingMore(ids: seq<nat>, n: nat)
    requires Increasing(ids, n)
    ensures Increasing(ids, n + 1) && Increasing(ids + [n], n + 1)
  {
    assert forall a :: 0 <= a < |ids| ==> ids[a] in ids;
    assert forall i <- ids + [n] :: i in ids || i == n;
  }

  /** What holds of the tags of a trace of length `n`. */
  predicate Ordered(trace: seq<Event>, t: Tags) {
    && Increasing(t.pending, |trace|) && AreChunks(trace, t.pending)
    && forall j :: 0 <= j < |t.handed| ==> Increasing(t.handed[j], |trace|)
  }

  lemma {:induction false} TagsIncrease(trace: seq<Event>)
    ensures Ordered(trace, Tag(trace))
  {
    if trace != [] {
      var init, e := trace[..|trace|-1], trace[|trace|-1];
      var t, t' := Tag(init), Tag(trace);
      assert t' == TagStep(t, |init|, e);
      TagsIncrease(init);
      hide Tag, Increasing;
      ChunksEarlier(trace, |init|, t.pending);
      IncreasingMore(t.pending, |init|);
      forall j | 0 <= j < |t'.handed| ensures Increasing(t'.handed[j], |trace|) {
        assert t'.handed[j] == if j < |t.handed| then t.handed[j] else t.pending;
        IncreasingMore(t'.handed[j], |init|);
      }
    }
  }

  lemma {:induction false} ArrivalsIncrease(trace: seq<Event>)
    ensures Increasing(Arrivals(trace), |trace|)
    ensures forall i :: 0 <= i < |trace| && trace[i].Receive? ==> i in Arrivals(trace)
  {
    if trace != [] {
      var init, e := trace[..|trace|-1], trace[|trace|-1];
      assert Arrivals(trace) == Arrivals(init) + if e.Receive? then [|init|] else [];
      ArrivalsIncrease(init);
      var ids := Arrivals(init);
      hide Arrivals, Increasing;
      IncreasingMore(ids, |init|);
      assert ids + [] == ids;
      assert forall i :: 0 <= i < |init| ==> init[i] == trace[i];
    }
  }

  /** What is in the buffer is what some `Do` has handed over already, and the chunks since. */
  predicate Split(t: Tags, recent: seq<nat>) {
    && |recent| <= |t.pending| && t.pending[|t.pending|-|recent|..] == recent
    && forall k :: 0 <= k < |t.pending| - |recent| ==> Times(t.handed, t.pending[k]) >= 1
  }

  lemma SplitMore(t: Tags, recent: seq<nat>, n: nat, e: Event)
    requires Split(t, recent)
    ensures Split(TagStep(t, n, e), if e.Receive? then recent + [n] else [])
  {
    hide Times;
    if e.Close? {
      forall k | 0 <= k < |t.pending| ensures Times(t.handed + [t.pending], t.pending[k]) >= 1 {
        TimesMore(t.handed, t.pending, t.pending[k]);
      }
    }
  }

  lemma {:induction false} PendingIs(trace: seq<Event>)
    ensures Split(Tag(trace), Recent(trace))
  {
    if trace != [] {
      var init, e := trace[..|trace|-1], trace[|trace|-1];
      PendingIs(init);
      SplitMore(Tag(init), Recent(init), |init|, e);
      hide Split, Times, TagStep;
    }
  }

  lemma {:induction false} RecentWaits(trace: seq<Event>, i: nat)
    requires i in Recent(trace)
    ensures i < |trace| && trace[i].Receive?
    ensures ClosesBeforeSent(trace[i+1..]) == 0 && Sent !in trace[i+1..]
  {
    var init, e := trace[..|trace|-1], trace[|trace|-1];
    assert Recent(trace) == Recent(init) + [|init|];
    hide Recent, ClosesBeforeSent;
    if i == |init| {
      assert trace[i+1..] == [];
      NoEvents();
    } else {
      RecentWaits(init, i);
      assert trace[i+1..] == init[i+1..] + [e];
      ClosesMore(init[i+1..], e);
    }
  }

  // ----- once each gives the right order -----

  lemma OnceEarlier(trace: seq<Event>)
    requires trace != [] && AllOnce(trace)
    ensures AllOnce(trace[..|trace|-1])
  {
    var n := |trace| - 1;
    var init := trace[..n];
    forall i | 0 <= i < n && init[i].Receive? ensures OnceOrWaiting(init, i) {
      assert OnceOrWaiting(trace, i);
      assert trace[i+1..] == init[i+1..] + [trace[n]];
      ClosesMore(init[i+1..], trace[n]);
    }
  }

  /** A `Do` that is called while chunks from before another one are left repeats the first. */
  lemma CloseRepeats(trace: seq<Event>)
    requires trace != [] && trace[|trace|-1].Close?
    requires var init := trace[..|trace|-1]; |Recent(init)| < |Tag(init).pending|
    ensures var i := Tag(trace[..|trace|-1]).pending[0];
            i < |trace| && trace[i].Receive? && !OnceOrWaiting(trace, i)
  {
    var init := trace[..|trace|-1];
    var t := Tag(init);
    assert Tag(trace).handed == t.handed + [t.pending];
    PendingIs(init);
    TagsIncrease(init);
    hide Tag, Recent, Times, ClosesBeforeSent;
    var i := t.pending[0];
    assert trace[i] == init[i] && i in t.pending;
    HandedTimes(trace, i);
    TimesMore(t.handed, t.pending, i);
  }

  /** A `Do` that comes back after something arrived since its call loses that. */
  lemma SentLoses(trace: seq<Event>)
    requires trace != [] && trace[|trace|-1].Sent? && Recent(trace[..|trace|-1]) != []
    ensures var i := Recent(trace[..|trace|-1])[0];
            i < |trace| && trace[i].Receive? && !OnceOrWaiting(trace, i)
  {
    var n := |trace| - 1;
    var init := trace[..n];
    var i := Recent(init)[0];
    RecentWaits(init, i);
    assert trace[i] == init[i];
    assert trace[i+1..] == init[i+1..] + [trace[n]];
    ClosesMore(init[i+1..], trace[n]);
  }

  /** So if all goes well a `Do` is called when nothing is left from before another one ... */
  lemma OnceAtClose(trace: seq<Event>)
    requires trace != [] && AllOnce(trace) && trace[|trace|-1].Close?
    ensures var init := trace[..|trace|-1]; Tag(init).pending == Recent(init)
  {
    var init := trace[..|trace|-1];
    hide Tag, Recent, OnceOrWaiting;
    PendingIs(init);
    assert Tag(init).pending[0..] == Tag(init).pending;
    if |Recent(init)| < |Tag(init).pending| { CloseRepeats(trace); }
  }

  /** ... and comes back when nothing has arrived since. */
  lemma OnceAtSent(trace: seq<Event>)
    requires trace != [] && AllOnce(trace) && trace[|trace|-1].Sent?
    ensures Recent(trace[..|trace|-1]) == []
  {
    hide Recent, OnceOrWaiting;
    if Recent(trace[..|trace|-1]) != [] { SentLoses(trace); }
  }

  lemma {:induction false} OnceInOrder(trace: seq<Event>)
    requires AllOnce(trace)
    ensures InOrder(trace)
  {
    if trace != [] {
      var init, e := trace[..|trace|-1], trace[|trace|-1];
      var t := Tag(init);
      OnceEarlier(trace);
      OnceInOrder(init);
      hide AllOnce;
      if e.Close? {
        OnceAtClose(trace);
        assert (t.handed + [t.pending])[..|t.handed|] == t.handed;
      } else if e.Sent? {
        OnceAtSent(trace);
      }
    }
  }

  // ----- the right order means once each -----

  lemma {:induction false} CountOf(ids: seq<nat>, n: nat, i: nat)
    requires Increasing(ids, n)
    ensures multiset(ids)[i] == if i in ids then 1 else 0
  {
    if ids != [] {
      var k := |ids| - 1;
      assert ids == ids[..k] + [ids[k]];
      assert forall j <- ids[..k] :: j in ids;
      CountOf(ids[..k], n, i);
    }
  }

  lemma {:induction false} CountFlat(lists: seq<seq<nat>>, n: nat, i: nat)
    requires forall ids <- lists :: Increasing(ids, n)
    ensures multiset(Flat(lists))[i] == Times(lists, i)
  {
    if lists != [] {
      var k := |lists| - 1;
      CountFlat(lists[..k], n, i);
      CountOf(lists[k], n, i);
    }
  }

  lemma InOrderOnce(trace: seq<Event>, i: nat)
    requires InOrder(trace) && i < |trace| && trace[i].Receive?
    ensures OnceOrWaiting(trace, i)
  {
    var t, recent := Tag(trace), Recent(trace);
    TagsIncrease(trace);
    ArrivalsIncrease(trace);
    hide Tag, Recent, Arrivals, Times, ClosesBeforeSent, Flat;
    CountFlat(t.handed, |trace|, i);
    CountOf(Arrivals(trace), |trace|, i);
    var handed, waiting: multiset<nat> := multiset(Flat(t.handed)), multiset(recent);
    assert multiset(Flat(t.handed) + recent) == handed + waiting;
    HandedTimes(trace, i);
    if Times(t.handed, i) == 0 {
      assert waiting[i] == 1 && i in recent;
      RecentWaits(trace, i);
    }
  }

  // ----- in characters -----

  lemma {:induction false} FlatSpells(trace: seq<Event>, lists: seq<seq<nat>>, texts: seq<seq<char>>)
    requires |texts| == |lists|
    requires forall j :: 0 <= j < |lists| ==> AreChunks(trace, lists[j]) && texts[j] == Concat(Chunks(trace, lists[j]))
    ensures AreChunks(trace, Flat(lists)) && Concat(texts) == Concat(Chunks(trace, Flat(lists)))
  {
    if lists != [] {
      var k := |lists| - 1;
      FlatSpells(trace, lists[..k], texts[..k]);
      assert texts == texts[..k] + [texts[k]];
      ConcatMore(texts[..k], texts[k]);
      assert Chunks(trace, Flat(lists)) == Chunks(trace, Flat(lists[..k])) + Chunks(trace, lists[k]);
      ConcatSplit(Chunks(trace, Flat(lists[..k])), Chunks(trace, lists[k]));
    }
  }

  lemma {:induction false} ArrivalsSpell(trace: seq<Event>)
    ensures AreChunks(trace, Arrivals(trace)) && Concat(Chunks(trace, Arrivals(trace))) == Received(trace)
  {
    if trace != [] {
      var n := |trace| - 1;
      var ids := Arrivals(trace[..n]);
      ArrivalsSpell(trace[..n]);
      ChunksEarlier(trace, n, ids);
      assert ids + [] == ids && Received(trace[..n]) + [] == Received(trace[..n]);
      if trace[n].Receive? {
        assert Chunks(trace, ids + [n]) == Chunks(trace, ids) + [trace[n].chunk];
        ConcatMore(Chunks(trace, ids), trace[n].chunk);
      }
    }
  }

  /** What waits in the buffer and has not been handed over. */
  function Waiting(trace: seq<Event>): seq<char>
    requires AreChunks(trace, Recent(trace))
  {
    Concat(Chunks(trace, Recent(trace)))
  }

  lemma RecentAreChunks(trace: seq<Event>)
    ensures AreChunks(trace, Recent(trace))
  {
    forall k | 0 <= k < |Recent(trace)| ensures Recent(trace)[k] < |trace| && trace[Recent(trace)[k]].Receive? {
      RecentWaits(trace, Recent(trace)[k]);
    }
  }

  lemma InOrderSpells(trace: seq<Event>)
    requires Sensible(trace) && !Exec(trace).down && InOrder(trace) && AreChunks(trace, Recent(trace))
    ensures Concat(Exec(trace).handed) + Waiting(trace) == Received(trace)
  {
    hide Tag, Exec, Concat, Received, Flat, Recent, Arrivals, Sensible;
    var lists, recent := Tag(trace).handed, Recent(trace);
    TagsSpell(trace);
    FlatSpells(trace, lists, Exec(trace).handed);
    ArrivalsSpell(trace);
    var ids := Flat(lists);
    assert Chunks(trace, ids + recent) == Chunks(trace, ids) + Chunks(trace, recent);
    ConcatSplit(Chunks(trace, ids), Chunks(trace, recent));
  }

  /** However many calls of `Do` overlap: all that arrived has been handed over once and in
      order, or waits to be, if and only if for every chunk exactly one `Do` was called before
      one came back (or none was yet, and none came back). The characters then are those
      received. */
  lemma RelayedInOrderIff(trace: seq<Event>)
    requires Sensible(trace) && !Exec(trace).down
    ensures InOrder(trace) <==> AllOnce(trace)
    ensures AreChunks(trace, Recent(trace))
    ensures AllOnce(trace) ==> Concat(Exec(trace).handed) + Waiting(trace) == Received(trace)
  {
    hide InOrder, OnceOrWaiting, Sensible, Exec;
    RecentAreChunks(trace);
    if InOrder(trace) {
      forall i | 0 <= i < |trace| && trace[i].Receive? ensures OnceOrWaiting(trace, i) {
        InOrderOnce(trace, i);
      }
    }
    if AllOnce(trace) {
      OnceInOrder(trace);
      InOrderSpells(trace);
    }
  }

  lemma OverheardAtClose(trace: seq<Event>)
    ensures Overheard(trace + [Close]) == Overheard(trace)
  {
    assert (trace + [Close])[..|trace|] == trace;
  }

  /** Two connections that close one right after the other relay the same characters twice,
      though nothing arrives while a `Do` is under way. */
  lemma TwoClosesRepeat(chunk: seq<char>)
    requires |chunk| < BUFSIZE
    ensures var trace := [Receive(chunk), Close, Close];
            && Sensible(trace) && !Exec(trace).down && Overheard(trace) == 0
            && Exec(trace).handed == [chunk, chunk] && Times(Tag(trace).handed, 0) == 2
  {
    var one, two, trace := [Receive(chunk)], [Receive(chunk), Close], [Receive(chunk), Close, Close];
    assert [] + one == one && one + [Close] == two && two + [Close] == trace;
    OneEvent([], Receive(chunk));
    assert [] + chunk == chunk && Exec(one) == Server(chunk, 0, [], false);
    OneEvent(one, Close);
    OneEvent(two, Close);
    OverheardAtClose(one);
    OverheardAtClose(two);
    HandedTimes(trace, 0);
    assert trace[1..] == [Close, Close] && [Close, Close][1..] == [Close] && [Close][1..] == [];
  }
}
