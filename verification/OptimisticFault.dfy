// The optimistic fault protocol of the command server and the printer: every thread that
// misses makes a candidate of its own, one insert wins, and the losers delete theirs.
module OptimisticFault {
  import opened GetOrCreate
  import opened Options
  import opened Totals

  datatype Pc =
    | Find                       // about to look the id up
    | Wait                       // saved its context until the data of the id arrives
    | Insert(own: Object)        // made a candidate
    | Delete(own: Object)        // the insert lost
    | Refind                     // deleted its candidate, reads the entry
    | Cache(rep: Object)
    | Done(rep: Object)

  /** `made` counts the objects made, in order; `deleted` holds those deleted again. */
  datatype State = State(
    threads: seq<Pc>,
    ready: bool,
    entry: Option<Object>,
    made: nat,
    deleted: set<Object>)

  ghost predicate Init(s: State) {
    && (forall t :: 0 <= t < |s.threads| ==> s.threads[t] == Find)
    && s == State(s.threads, false, None, 0, {})
  }

  predicate Enabled(s: State, t: Thread)
    requires t < |s.threads|
  {
    match s.threads[t]
    case Wait => s.ready
    case Refind => s.entry.Some?
    case Done(_) => false
    case _ => true
  }

  function Goto(s: State, t: Thread, pc: Pc): State
    requires t < |s.threads|
  {
    s.(threads := s.threads[t := pc])
  }

  function Move(s: State, t: Thread): State
    requires t < |s.threads| && Enabled(s, t)
  {
    match s.threads[t]
    case Find =>
      if s.entry.Some? then Goto(s, t, Cache(s.entry.value)) else Goto(s, t, Wait)
    case Wait =>
      Goto(s, t, Insert(s.made)).(made := s.made + 1)
    case Insert(p) =>
      if s.entry.None? then Goto(s, t, Cache(p)).(entry := Some(p)) else Goto(s, t, Delete(p))
    case Delete(p) =>
      Goto(s, t, Refind).(deleted := s.deleted + {p})
    case Refind =>
      Goto(s, t, Cache(s.entry.value))
    case Cache(p) =>
      Goto(s, t, Done(p))
  }

  ghost predicate StepOf(s: State, s': State, t: Thread) {
    t < |s.threads| && Enabled(s, t) && s' == Move(s, t)
  }

  /** The data of the id becomes available. */
  ghost predicate Arrives(s: State, s': State) {
    !s.ready && s' == s.(ready := true)
  }

  ghost predicate Next(s: State, s': State) {
    (exists t :: StepOf(s, s', t)) || Arrives(s, s')
  }

  /** Nothing can happen any more. */
  ghost predicate Final(s: State) {
    forall s' :: !Next(s, s')
  }

  // ----- what every step keeps -----

  /** The candidate a thread holds and nobody else knows. */
  function Private(pc: Pc): Option<Object> {
    match pc
    case Insert(p) => Some(p)
    case Delete(p) => Some(p)
    case _ => None
  }

  ghost predicate PcInv(s: State, pc: Pc) {
    match pc
    case Find => true
    case Wait => true
    case Insert(p) => p < s.made && p !in s.deleted && s.entry != Some(p)
    case Delete(p) => p < s.made && p !in s.deleted && s.entry != Some(p) && s.entry.Some?
    case Refind => s.entry.Some?
    case Cache(p) => s.entry == Some(p)
    case Done(p) => s.entry == Some(p)
  }

  /** Is `p` still held privately? */
  ghost predicate Held(s: State, p: Object) {
    exists t :: 0 <= t < |s.threads| && Private(s.threads[t]) == Some(p)
  }

  ghost predicate Inv(s: State) {
    && (forall t :: 0 <= t < |s.threads| ==> PcInv(s, s.threads[t]))
    && (s.entry.Some? ==> s.entry.value < s.made && s.entry.value !in s.deleted)
    && (forall p <- s.deleted :: p < s.made)
    // no two threads hold the same candidate
    && (forall t, u :: 0 <= t < u < |s.threads| && Private(s.threads[t]).Some? ==>
          Private(s.threads[t]) != Private(s.threads[u]))
    // every object made is accounted for
    && (forall p: Object :: p < s.made ==> s.entry == Some(p) || p in s.deleted || Held(s, p))
  }

  lemma InitInv(s: State)
    requires Init(s)
    ensures Inv(s)
  {
  }

  lemma MoveKeepsPcs(s: State, t: Thread, u: Thread)
    requires Inv(s) && t < |s.threads| && Enabled(s, t) && u < |s.threads|
    ensures PcInv(Move(s, t), Move(s, t).threads[u])
  {
    assert PcInv(s, s.threads[t]) && PcInv(s, s.threads[u]);
    if u < t { assert Private(s.threads[u]).Some? ==> Private(s.threads[u]) != Private(s.threads[t]); }
    if t < u { assert Private(s.threads[t]).Some? ==> Private(s.threads[t]) != Private(s.threads[u]); }
  }

  lemma MoveKeepsPrivacy(s: State, t: Thread, u: Thread, v: Thread)
    requires Inv(s) && t < |s.threads| && Enabled(s, t) && u < v < |s.threads|
    requires Private(Move(s, t).threads[u]).Some?
    ensures Private(Move(s, t).threads[u]) != Private(Move(s, t).threads[v])
  {
    assert PcInv(s, s.threads[u]) && PcInv(s, s.threads[v]);
    if Private(s.threads[u]).Some? { assert Private(s.threads[u]) != Private(s.threads[v]); }
  }

  lemma MoveKeepsAccount(s: State, t: Thread, p: Object)
    requires Inv(s) && t < |s.threads| && Enabled(s, t) && p < Move(s, t).made
    ensures var s' := Move(s, t); s'.entry == Some(p) || p in s'.deleted || Held(s', p)
  {
    var s' := Move(s, t);
    if p == s.made {
      assert Private(s'.threads[t]) == Some(p);
    } else if s.entry != Some(p) && p !in s.deleted {
      var u :| 0 <= u < |s.threads| && Private(s.threads[u]) == Some(p);
      assert Private(s'.threads[u]) == Some(p) || u == t;
    }
  }

  lemma MoveKeepsInv(s: State, t: Thread)
    requires Inv(s) && t < |s.threads| && Enabled(s, t)
    ensures Inv(Move(s, t)) && |Move(s, t).threads| == |s.threads|
  {
    var s' := Move(s, t);
    assert PcInv(s, s.threads[t]);
    forall u | 0 <= u < |s'.threads| ensures PcInv(s', s'.threads[u]) {
      MoveKeepsPcs(s, t, u);
    }
    forall u, v | 0 <= u < v < |s'.threads| && Private(s'.threads[u]).Some?
      ensures Private(s'.threads[u]) != Private(s'.threads[v])
    {
      MoveKeepsPrivacy(s, t, u, v);
    }
    forall p: Object | p < s'.made
      ensures s'.entry == Some(p) || p in s'.deleted || Held(s', p)
    {
      MoveKeepsAccount(s, t, p);
    }
  }

  lemma NextKeepsInv(s: State, s': State)
    requires Inv(s) && Next(s, s')
    ensures Inv(s') && |s'.threads| == |s.threads|
  {
    if Arrives(s, s') {
      forall u | 0 <= u < |s'.threads| ensures PcInv(s', s'.threads[u]) {
        assert PcInv(s, s.threads[u]);
      }
      forall p: Object | p < s'.made
        ensures s'.entry == Some(p) || p in s'.deleted || Held(s', p)
      {
        assert Held(s, p) ==> Held(s', p);
      }
    } else {
      hide Inv, Move, Enabled;
      var t :| StepOf(s, s', t);
      MoveKeepsInv(s, t);
    }
  }

  // ----- the same specification as the locked protocol -----

  ghost function Abs(s: State): Spec {
    Spec(s.entry, map t: Thread | t < |s.threads| && s.threads[t].Done? :: s.threads[t].rep)
  }

  lemma MoveRefines(s: State, t: Thread)
    requires Inv(s) && t < |s.threads| && Enabled(s, t)
    ensures GetOrCreate.Next(Abs(s), Abs(Move(s, t)))
  {
    var a, a' := Abs(s), Abs(Move(s, t));
    assert PcInv(s, s.threads[t]);
    if s.threads[t].Cache? {
      assert a'.handed == a.handed[t := s.threads[t].rep];
      assert Hand(a, a', t);
    } else {
      assert a'.handed == a.handed;
      assert a' == a || Make(a, a');
    }
  }

  lemma NextRefines(s: State, s': State)
    requires Inv(s) && Next(s, s')
    ensures GetOrCreate.Next(Abs(s), Abs(s'))
  {
    if Arrives(s, s') {
      assert Abs(s') == Abs(s);
    } else {
      hide Inv, Move, Enabled;
      var t :| StepOf(s, s', t);
      MoveRefines(s, t);
    }
  }

  ghost predicate IsRun(run: seq<State>) {
    && run != [] && Init(run[0])
    && forall i :: 0 < i < |run| ==> Next(run[i-1], run[i])
  }

  lemma {:induction false} RunInv(run: seq<State>, k: nat)
    requires IsRun(run) && k < |run|
    ensures Inv(run[k]) && |run[k].threads| == |run[0].threads|
  {
    hide Inv, Next;
    if k == 0 {
      InitInv(run[0]);
    } else {
      RunInv(run, k - 1);
      NextKeepsInv(run[k-1], run[k]);
    }
  }

  lemma RunRefines(run: seq<State>)
    requires IsRun(run)
    ensures GetOrCreate.IsRun(seq(|run|, i requires 0 <= i < |run| => Abs(run[i])))
  {
    var abs := seq(|run|, i requires 0 <= i < |run| => Abs(run[i]));
    assert abs[0] == Spec(None, map[]);
    forall i | 0 < i < |abs| ensures GetOrCreate.Next(abs[i-1], abs[i]) {
      RunInv(run, i - 1);
      NextRefines(run[i-1], run[i]);
    }
  }

  /** In every reachable state each object made is exactly one of: the winner in the map,
      deleted, or the candidate of exactly one thread; and whatever a thread has cached or
      returned is the winner, which is never deleted. */
  lemma Conservation(run: seq<State>, k: nat, p: Object)
    requires IsRun(run) && k < |run| && p < run[k].made
    ensures var s := run[k];
            && (s.entry == Some(p) ==> p !in s.deleted && !Held(s, p))
            && (p in s.deleted ==> s.entry != Some(p) && !Held(s, p))
            && (s.entry == Some(p) || p in s.deleted || Held(s, p))
            && (forall t, u :: 0 <= t < u < |s.threads| && Private(s.threads[t]) == Some(p) ==>
                  Private(s.threads[u]) != Some(p))
            && (forall t :: 0 <= t < |s.threads| && (s.threads[t] == Cache(p) || s.threads[t] == Done(p)) ==>
                  s.entry == Some(p) && p !in s.deleted)
  {
    RunInv(run, k);
    var s := run[k];
    forall t | 0 <= t < |s.threads| ensures PcInv(s, s.threads[t]) {}
    if s.entry == Some(p) || p in s.deleted {
      forall t | 0 <= t < |s.threads| ensures Private(s.threads[t]) != Some(p) {
        assert PcInv(s, s.threads[t]);
      }
    }
  }

  /** A thread that looks the id up when it is in the map makes no object and holds none: it is
      handed the one in the map. */
  lemma {:induction false} LateComerMakesNone(run: seq<State>, i: nat, j: nat, t: Thread)
    requires IsRun(run) && i <= j < |run| && t < |run[i].threads| && run[i].threads[t] == Find && run[i].entry.Some?
    ensures t < |run[j].threads| && run[j].entry == run[i].entry
    ensures run[j].threads[t] in {Find, Cache(run[i].entry.value), Done(run[i].entry.value)}
  {
    if i < j {
      LateComerMakesNone(run, i, j - 1, t);
      RunInv(run, j - 1);
      assert Next(run[j-1], run[j]);
      EntryStays(run[j-1], run[j], t);
    }
  }

  lemma EntryStays(s: State, s': State, t: Thread)
    requires Next(s, s') && s.entry.Some? && t < |s.threads|
    ensures t < |s'.threads| && s'.entry == s.entry
    ensures s.threads[t] == Find ==> s'.threads[t] in {Find, Cache(s.entry.value)}
    ensures s.threads[t].Cache? ==> s'.threads[t] in {s.threads[t], Done(s.threads[t].rep)}
    ensures s.threads[t].Done? ==> s'.threads[t] == s.threads[t]
  {
  }

  /** No object is made before the data of the id arrived from outside. */
  lemma {:induction false} MadeAfterArrival(run: seq<State>, k: nat)
    requires IsRun(run) && k < |run| && (run[k].made > 0 || run[k].ready)
    ensures exists i :: 0 <= i < k && Arrives(run[i], run[i+1])
  {
    if k > 0 {
      assert Next(run[k-1], run[k]);
      if run[k-1].made > 0 || run[k-1].ready {
        MadeAfterArrival(run, k - 1);
      } else {
        FirstIsArrival(run[k-1], run[k]);
        assert Arrives(run[k-1], run[k-1+1]);
      }
    }
  }

  lemma FirstIsArrival(s: State, s': State)
    requires Next(s, s') && s.made == 0 && !s.ready && (s'.made > 0 || s'.ready)
    ensures Arrives(s, s')
  {
  }

  /** Any two threads, whenever they return, return the same object. */
  lemma EveryoneAgrees(run: seq<State>, i: nat, j: nat, t: Thread, u: Thread)
    requires IsRun(run) && i < |run| && j < |run| && t < |run[i].threads| && u < |run[j].threads|
    requires run[i].threads[t].Done? && run[j].threads[u].Done?
    ensures run[i].threads[t].rep == run[j].threads[u].rep
  {
    RunRefines(run);
    Agreement(seq(|run|, i requires 0 <= i < |run| => Abs(run[i])), i, j, t, u);
  }

  // ----- progress -----

  function Rank(pc: Pc): nat {
    match pc
    case Find => 6
    case Wait => 5
    case Insert(_) => 4
    case Delete(_) => 3
    case Refind => 2
    case Cache(_) => 1
    case Done(_) => 0
  }

  function Measure(s: State): nat {
    Total(Rank, s.threads) + if s.ready then 0 else 1
  }

  lemma NextDecreases(s: State, s': State)
    requires Inv(s) && Next(s, s')
    ensures Measure(s') < Measure(s)
  {
    hide Inv;
    if Arrives(s, s') {
      assert s'.threads == s.threads;
    } else {
      var t: Thread :| StepOf(s, s', t);
      assert s'.threads == s.threads[t := s'.threads[t]];
      TotalUpdate(Rank, s.threads, t, s'.threads[t]);
    }
  }

  lemma NotStuck(s: State, t: Thread)
    requires Inv(s) && t < |s.threads| && !s.threads[t].Done?
    ensures exists s' :: Next(s, s')
  {
    assert PcInv(s, s.threads[t]);
    if Enabled(s, t) {
      var s' := Move(s, t);
      assert StepOf(s, s', t) && Next(s, s');
    } else {
      var s' := s.(ready := true);
      assert Arrives(s, s') && Next(s, s');
    }
  }

  lemma {:induction false} RunShrinks(run: seq<State>, k: nat)
    requires IsRun(run) && k < |run|
    ensures Measure(run[k]) + k <= Measure(run[0])
  {
    hide Inv, Next, Measure;
    if k > 0 {
      RunShrinks(run, k - 1);
      RunInv(run, k - 1);
      NextDecreases(run[k-1], run[k]);
    }
  }

  /** No run of `n` threads has more than 6n + 1 steps, and where a run can go no further
      every thread has returned the winner and every other object made has been deleted. */
  lemma RunsEnd(run: seq<State>)
    requires IsRun(run)
    ensures |run| <= 6 * |run[0].threads| + 2
    ensures var s := run[|run|-1];
            Final(s) ==>
              && (forall t :: 0 <= t < |s.threads| ==> s.threads[t].Done? && s.entry == Some(s.threads[t].rep))
              && (forall p: Object :: p < s.made && s.entry != Some(p) ==> p in s.deleted)
  {
    RunShrinks(run, |run| - 1);
    TotalAtMost(Rank, run[0].threads, 6);
    var s := run[|run|-1];
    RunInv(run, |run| - 1);
    if Final(s) {
      forall t | 0 <= t < |s.threads| ensures s.threads[t].Done? && s.entry == Some(s.threads[t].rep) {
        assert PcInv(s, s.threads[t]);
        if !s.threads[t].Done? { NotStuck(s, t); }
      }
    }
  }

  // ----- runs that go to their end -----

  /** Every run can be continued until nothing can happen any more. */
  lemma {:induction false} RunsGoOn(run: seq<State>) returns (run': seq<State>)
    requires IsRun(run)
    ensures IsRun(run') && run <= run' && Final(run'[|run'|-1])
    decreases 6 * |run[0].threads| + 3 - |run|
  {
    RunsEnd(run);
    run' := run;
    var s := run[|run|-1];
    if !Final(s) {
      var s' :| Next(s, s');
      assert (run + [s'])[0] == run[0];
      RunsEnd(run + [s']);
      run' := RunsGoOn(run + [s']);
    }
  }

  /** So for any number of threads there is a run in which all of them return. */
  lemma SomeRunServesAll(n: nat) returns (run: seq<State>)
    ensures IsRun(run) && |run[0].threads| == n
    ensures var s := run[|run|-1]; |s.threads| == n && forall t :: 0 <= t < n ==> s.threads[t].Done?
  {
    run := [State(seq(n, i => Find), false, None, 0, {})];
    run := RunsGoOn(run);
    RunsEnd(run);
    RunInv(run, |run| - 1);
  }
}
