// The hosted start of the processors: one thread per core, counters that the threads spin
// on, and the application started by processor 0.
module BringUp {
  import opened Options
  import opened Totals

  /** Where the thread of a processor is. */
  datatype Pc =
    | Unborn
    | TakeLock
    | Construct           // holds the lock
    | CountCreated        // holds the lock
    | DropLock            // holds the lock
    | AwaitCreated        // spins until `created` reaches n
    | SpawnEvent
    | CountRunning
    | AwaitRunning        // spins until `running` reaches n
    | CountInited         // in the event loop: the spawned event runs
    | AwaitInited         // spins until `inited` reaches n
    | CallMain            // processor 0 calls Main, the others do not
    | Looping

  function Stage(pc: Pc): (n: nat)
    ensures n <= 12
  {
    match pc
    case Unborn => 0
    case TakeLock => 1
    case Construct => 2
    case CountCreated => 3
    case DropLock => 4
    case AwaitCreated => 5
    case SpawnEvent => 6
    case CountRunning => 7
    case AwaitRunning => 8
    case CountInited => 9
    case AwaitInited => 10
    case CallMain => 11
    case Looping => 12
  }

  function Following(pc: Pc): Pc {
    match pc
    case Unborn => TakeLock
    case TakeLock => Construct
    case Construct => CountCreated
    case CountCreated => DropLock
    case DropLock => AwaitCreated
    case AwaitCreated => SpawnEvent
    case SpawnEvent => CountRunning
    case CountRunning => AwaitRunning
    case AwaitRunning => CountInited
    case CountInited => AwaitInited
    case AwaitInited => CallMain
    case CallMain => Looping
    case Looping => Looping
  }

  /** `launched` threads have been started; `returned` says that `EarlyInit` has; `built` are
      the constructed slots of the processor array; `mains` the processors that called Main. */
  datatype State = State(
    threads: seq<Pc>,
    launched: nat,
    returned: bool,
    lock: Option<nat>,
    created: nat,
    running: nat,
    inited: nat,
    numCpus: nat,
    built: set<nat>,
    mains: seq<nat>)

  ghost predicate Init(s: State) {
    && s.threads != []
    && (forall t :: 0 <= t < |s.threads| ==> s.threads[t] == Unborn)
    && s == State(s.threads, 0, false, None, 0, 0, 0, 0, {}, [])
  }

  predicate Enabled(s: State, t: nat)
    requires t < |s.threads|
  {
    var n := |s.threads|;
    match s.threads[t]
    case Unborn => false
    case TakeLock => s.lock.None?
    case AwaitCreated => s.created >= n
    case AwaitRunning => s.running >= n
    case AwaitInited => s.inited >= n
    case Looping => false
    case _ => true
  }

  function Move(s: State, t: nat): State
    requires t < |s.threads| && Enabled(s, t)
  {
    var s' := s.(threads := s.threads[t := Following(s.threads[t])]);
    match s.threads[t]
    case TakeLock => s'.(lock := Some(t))
    case Construct => s'.(built := s.built + {t}, numCpus := s.numCpus + 1)
    case CountCreated => s'.(created := s.created + 1)
    case DropLock => s'.(lock := None)
    case CountRunning => s'.(running := s.running + 1)
    case CountInited => s'.(inited := s.inited + 1)
    case CallMain => if t == 0 then s'.(mains := s.mains + [t]) else s'
    case _ => s'
  }

  /** `EarlyInit` starts the threads one after the other, then spins on `running`. */
  predicate CanLaunch(s: State) {
    s.launched < |s.threads|
  }

  function Launch(s: State): State
    requires CanLaunch(s)
  {
    s.(threads := s.threads[s.launched := TakeLock], launched := s.launched + 1)
  }

  predicate CanReturn(s: State) {
    s.launched == |s.threads| <= s.running && !s.returned
  }

  ghost predicate StepOf(s: State, s': State, t: nat) {
    t < |s.threads| && Enabled(s, t) && s' == Move(s, t)
  }

  ghost predicate Next(s: State, s': State) {
    || (exists t :: StepOf(s, s', t))
    || (CanLaunch(s) && s' == Launch(s))
    || (CanReturn(s) && s' == s.(returned := true))
  }

  /** Nothing can happen any more. */
  ghost predicate Final(s: State) {
    forall s' :: !Next(s, s')
  }

  // ----- what every step keeps -----

  /** Each counter is the number of threads that got past its increment. */
  ghost predicate Counts(s: State) {
    && s.numCpus == Total(Past(Stage, 2), s.threads)
    && s.created == Total(Past(Stage, 3), s.threads)
    && s.running == Total(Past(Stage, 7), s.threads)
    && s.inited == Total(Past(Stage, 9), s.threads)
  }

  /** What is known where a thread is: whether it holds the lock, whether its slot is
      constructed, and that the counters it waited for are full. */
  ghost predicate ThreadInv(s: State, t: nat, pc: Pc) {
    && (pc == Unborn <==> t >= s.launched)
    && (s.lock == Some(t) <==> 2 <= Stage(pc) <= 4)
    && (t in s.built <==> Stage(pc) > 2)
    && (Stage(pc) > 5 ==> s.created == |s.threads|)
    && (Stage(pc) > 8 ==> s.running == |s.threads|)
    && (Stage(pc) > 10 ==> s.inited == |s.threads|)
  }

  ghost predicate Others(s: State) {
    && 0 < |s.threads| && s.launched <= |s.threads|
    && (forall t :: 0 <= t < |s.threads| ==> ThreadInv(s, t, s.threads[t]))
    && (s.lock.Some? ==> s.lock.value < |s.threads|)
    && (forall t <- s.built :: t < |s.threads|)
    && s.mains == (if s.threads[0].Looping? then [0] else [])
    && (s.returned ==> s.launched == |s.threads| <= s.running)
  }

  ghost predicate Inv(s: State) {
    Counts(s) && Others(s)
  }

  lemma InitInv(s: State)
    requires Init(s)
    ensures Inv(s)
  {
    NonePast(Stage, 2, s.threads);
    NonePast(Stage, 3, s.threads);
    NonePast(Stage, 7, s.threads);
    NonePast(Stage, 9, s.threads);
  }

  lemma MoveKeepsCounts(s: State, t: nat)
    requires Inv(s) && t < |s.threads| && Enabled(s, t)
    ensures Counts(Move(s, t))
  {
    hide Past, Others;
    CountMoves(Stage, 2, s.threads, t, Following(s.threads[t]));
    CountMoves(Stage, 3, s.threads, t, Following(s.threads[t]));
    CountMoves(Stage, 7, s.threads, t, Following(s.threads[t]));
    CountMoves(Stage, 9, s.threads, t, Following(s.threads[t]));
  }

  lemma LaunchKeepsCounts(s: State)
    requires Inv(s) && CanLaunch(s)
    ensures Counts(Launch(s))
  {
    var t := s.launched;
    assert ThreadInv(s, t, s.threads[t]);
    hide Past, Others;
    CountMoves(Stage, 2, s.threads, t, Following(s.threads[t]));
    CountMoves(Stage, 3, s.threads, t, Following(s.threads[t]));
    CountMoves(Stage, 7, s.threads, t, Following(s.threads[t]));
    CountMoves(Stage, 9, s.threads, t, Following(s.threads[t]));
  }

  predicate Bounded(s: State) {
    s.numCpus <= |s.threads| && s.created <= |s.threads| && s.running <= |s.threads| && s.inited <= |s.threads|
  }

  lemma Bounds(s: State)
    requires Counts(s)
    ensures Bounded(s)
  {
    CountIsFull(Stage, 2, s.threads);
    CountIsFull(Stage, 3, s.threads);
    CountIsFull(Stage, 7, s.threads);
    CountIsFull(Stage, 9, s.threads);
  }

  lemma MoveKeepsThread(s: State, t: nat, u: nat)
    requires t < |s.threads| && Enabled(s, t) && u < |s.threads|
    requires ThreadInv(s, t, s.threads[t]) && ThreadInv(s, u, s.threads[u])
    requires Bounded(s) && Bounded(Move(s, t))
    ensures ThreadInv(Move(s, t), u, Move(s, t).threads[u])
  {
  }

  lemma MoveKeepsOthers(s: State, t: nat)
    requires Inv(s) && t < |s.threads| && Enabled(s, t)
    ensures Others(Move(s, t))
  {
    var s' := Move(s, t);
    MoveKeepsCounts(s, t);
    Bounds(s);
    Bounds(s');
    hide Counts;
    assert ThreadInv(s, t, s.threads[t]);
    forall u | 0 <= u < |s.threads| ensures ThreadInv(s', u, s'.threads[u]) {
      assert ThreadInv(s, u, s.threads[u]);
      MoveKeepsThread(s, t, u);
    }
  }

  lemma LaunchKeepsOthers(s: State)
    requires Inv(s) && CanLaunch(s)
    ensures Others(Launch(s))
  {
    hide Counts;
    forall u | 0 <= u < |s.threads| ensures ThreadInv(Launch(s), u, Launch(s).threads[u]) {
      assert ThreadInv(s, u, s.threads[u]);
    }
    assert ThreadInv(s, 0, s.threads[0]);
  }

  lemma MoveKeepsSize(s: State, t: nat)
    requires t < |s.threads| && Enabled(s, t)
    ensures |Move(s, t).threads| == |s.threads|
  {
  }

  lemma NextKeepsInv(s: State, s': State)
    requires Inv(s) && Next(s, s')
    ensures Inv(s') && |s'.threads| == |s.threads|
  {
    if CanLaunch(s) && s' == Launch(s) {
      LaunchKeepsCounts(s);
      LaunchKeepsOthers(s);
    } else if CanReturn(s) && s' == s.(returned := true) {
      forall u | 0 <= u < |s.threads| ensures ThreadInv(s', u, s'.threads[u]) {
        assert ThreadInv(s, u, s.threads[u]);
      }
    } else {
      hide Counts, Others, Move, Enabled;
      var t :| StepOf(s, s', t);
      MoveKeepsCounts(s, t);
      MoveKeepsOthers(s, t);
      MoveKeepsSize(s, t);
    }
  }

  ghost predicate IsRun(run: seq<State>) {
    && run != [] && Init(run[0])
    && forall i :: 0 < i < |run| ==> Next(run[i-1], run[i])
  }

  lemma {:induction false} RunInv(run: seq<State>, k: nat)
    requires IsRun(run) && k < |run|
    ensures Inv(run[k]) && |run[k].threads| == |run[0].threads|
  {
    hide Inv, Next;
    if k == 0 {
      InitInv(run[0]);
    } else {
      RunInv(run, k - 1);
      NextKeepsInv(run[k-1], run[k]);
    }
  }

  /** `GetByIndex` compares as unsigned 64-bit numbers. */
  predicate GetsProcessor(s: State, index: nat) {
    index <= (s.numCpus - 1) % 0x1_0000_0000_0000_0000
  }

  /** In every interleaving Main is called at most once, by processor 0, and by then all n
      slots are constructed, all n init events have arrived, and `GetByIndex` gives a
      processor for exactly the indices below n. */
  lemma MainIsLast(run: seq<State>, k: nat)
    requires IsRun(run) && k < |run| && |run[0].threads| < 0x1_0000_0000_0000_0000
    ensures var s, n := run[k], |run[0].threads|;
            && (s.mains == [] || s.mains == [0])
            && (s.mains == [0] ==>
                  && s.created == s.running == s.inited == s.numCpus == n
                  && (forall i: nat :: i in s.built <==> i < n)
                  && forall index: nat :: GetsProcessor(s, index) <==> index < n)
  {
    RunInv(run, k);
    var s := run[k];
    if s.mains == [0] {
      CountIsFull(Stage, 3, s.threads);
      CountIsFull(Stage, 2, s.threads);
      assert ThreadInv(s, 0, s.threads[0]);
      forall t | 0 <= t < |s.threads| ensures t in s.built {
        assert ThreadInv(s, t, s.threads[t]);
      }
    }
  }

  /** At most one thread at a time makes its processor and counts it; no thread goes on to its
      events before all are created, and none runs its event loop before all are running. */
  lemma OneMakesAtATime(run: seq<State>, k: nat, t: nat, u: nat)
    requires IsRun(run) && k < |run| && t < |run[k].threads| && u < |run[k].threads| && t != u
    ensures var p, q := run[k].threads[t], run[k].threads[u];
            && !((p.Construct? || p.CountCreated? || p.DropLock?) && (q.Construct? || q.CountCreated? || q.DropLock?))
            && (p.SpawnEvent? ==> u in run[k].built)
            && (p.CountInited? ==> !(q.Unborn? || q.TakeLock? || q.SpawnEvent? || q.CountRunning?))
  {
    RunInv(run, k);
    var s := run[k];
    CountIsFull(Stage, 3, s.threads);
    CountIsFull(Stage, 7, s.threads);
    assert ThreadInv(s, t, s.threads[t]) && ThreadInv(s, u, s.threads[u]);
  }

  // ----- looking a processor up too early -----

  /** `GetByIndex` gives out constructed slots only. */
  ghost predicate Safe(s: State) {
    forall index: nat :: GetsProcessor(s, index) ==> index in s.built
  }

  ghost predicate IsRunTo(run: seq<State>, n: nat, s: State) {
    IsRun(run) && |run[0].threads| == n && run[|run|-1] == s
  }

  lemma Extend(run: seq<State>, n: nat, s: State, s': State) returns (run': seq<State>)
    requires IsRunTo(run, n, s) && Next(s, s')
    ensures IsRunTo(run', n, s')
  {
    run' := run + [s'];
  }

  /** The first `j` threads have been started and none has run yet. */
  function Started(n: nat, j: nat): State
    requires j <= n
  {
    State(seq(n, i => if i < j then TakeLock else Unborn), j, false, None, 0, 0, 0, 0, {}, [])
  }

  lemma {:induction false} StartThem(n: nat, j: nat) returns (run: seq<State>)
    requires 0 < n && j <= n
    ensures IsRunTo(run, n, Started(n, j))
  {
    if j == 0 {
      run := [Started(n, 0)];
    } else {
      run := StartThem(n, j - 1);
      assert Launch(Started(n, j - 1)) == Started(n, j);
      run := Extend(run, n, Started(n, j - 1), Started(n, j));
    }
  }

  /** All threads have been started, and of these 1 to `k` were the first to get the lock. */
  function OutOfOrder(n: nat, k: nat): State
    requires k < n
  {
    var threads := seq(n, i => if 0 < i <= k then AwaitCreated else TakeLock);
    State(threads, n, false, None, k, 0, 0, k, set t: nat | t < n && threads[t].AwaitCreated?, [])
  }

  /** A thread takes the lock, makes its processor and drops the lock. */
  lemma TakeTurn(run: seq<State>, n: nat, s: State, t: nat) returns (run': seq<State>, s': State)
    requires IsRunTo(run, n, s) && t < |s.threads| && s.threads[t].TakeLock? && s.lock.None?
    ensures IsRunTo(run', n, s')
    ensures s' == s.(threads := s.threads[t := AwaitCreated], created := s.created + 1,
                     numCpus := s.numCpus + 1, built := s.built + {t})
  {
    hide IsRunTo;
    run', s' := run, s;
    var i := 0;
    while i < 4
      invariant i <= 4 && IsRunTo(run', n, s') && |s'.threads| == |s.threads|
      invariant i == 0 ==> s' == s
      invariant i == 1 ==> s' == s.(threads := s.threads[t := Construct], lock := Some(t))
      invariant i == 2 ==> s' == s.(threads := s.threads[t := CountCreated], lock := Some(t),
                                    numCpus := s.numCpus + 1, built := s.built + {t})
      invariant i == 3 ==> s' == s.(threads := s.threads[t := DropLock], lock := Some(t), created := s.created + 1,
                                    numCpus := s.numCpus + 1, built := s.built + {t})
      invariant i == 4 ==> s' == s.(threads := s.threads[t := AwaitCreated], created := s.created + 1,
                                    numCpus := s.numCpus + 1, built := s.built + {t})
    {
      var next := Move(s', t);
      assert StepOf(s', next, t) && Next(s', next);
      run' := Extend(run', n, s', next);
      s' := next;
      i := i + 1;
    }
  }

  lemma {:induction false} MakeThem(n: nat, k: nat) returns (run: seq<State>)
    requires k < n
    ensures IsRunTo(run, n, OutOfOrder(n, k))
  {
    hide IsRunTo, IsRun;
    if k == 0 {
      run := StartThem(n, n);
      assert Started(n, n) == OutOfOrder(n, 0);
    } else {
      run := MakeThem(n, k - 1);
      var s;
      run, s := TakeTurn(run, n, OutOfOrder(n, k - 1), k);
      assert s == OutOfOrder(n, k);
    }
  }

  /** What the number of processors tells a caller of `GetByIndex`: on n processors, every
      state in which it reads k is safe if and only if k is n. For every smaller k there is
      a run in which slot 0 is given out and not constructed. */
  lemma GetByIndexSafeIffAll(n: nat, k: nat)
    requires 0 < n < 0x1_0000_0000_0000_0000 && k <= n
    ensures (forall run, s :: IsRunTo(run, n, s) && s.numCpus == k ==> Safe(s)) <==> k == n
    ensures k < n ==> exists run, s :: IsRunTo(run, n, s) && s.numCpus == k && GetsProcessor(s, 0) && 0 !in s.built
  {
    if k < n {
      var run := MakeThem(n, k);
      var s := OutOfOrder(n, k);
      assert IsRunTo(run, n, s) && s.numCpus == k && GetsProcessor(s, 0) && 0 !in s.built && !Safe(s);
    } else {
      forall run, s | IsRunTo(run, n, s) && s.numCpus == k ensures Safe(s) {
        RunInv(run, |run| - 1);
        AllBuilt(s);
      }
    }
  }

  lemma AllBuilt(s: State)
    requires Inv(s) && s.numCpus == |s.threads| < 0x1_0000_0000_0000_0000
    ensures Safe(s)
  {
    CountIsFull(Stage, 2, s.threads);
    forall index: nat | GetsProcessor(s, index) ensures index in s.built {
      assert ThreadInv(s, index, s.threads[index]);
    }
  }

  // ----- progress -----

  function Left(pc: Pc): nat {
    12 - Stage(pc)
  }

  function Measure(s: State): int {
    Total(Left, s.threads) + if s.returned then 0 else 1
  }

  lemma MoveDecreases(s: State, t: nat)
    requires t < |s.threads| && Enabled(s, t)
    ensures 0 <= Measure(Move(s, t)) < Measure(s)
  {
    TotalUpdate(Left, s.threads, t, Following(s.threads[t]));
  }

  lemma NextDecreases(s: State, s': State)
    requires Inv(s) && Next(s, s')
    ensures 0 <= Measure(s') < Measure(s)
  {
    if CanLaunch(s) && s' == Launch(s) {
      assert ThreadInv(s, s.launched, s.threads[s.launched]);
      TotalUpdate(Left, s.threads, s.launched, TakeLock);
    } else if CanReturn(s) && s' == s.(returned := true) {
    } else {
      hide Measure, Inv, Move, Enabled;
      var t :| StepOf(s, s', t);
      MoveDecreases(s, t);
    }
  }

  /** No spin and no lock leaves the system stuck before `EarlyInit` has returned and every
      processor is in its event loop. */
  lemma NotStuck(s: State)
    requires Inv(s) && !(s.returned && forall t :: 0 <= t < |s.threads| ==> s.threads[t].Looping?)
    ensures exists s' :: Next(s, s')
  {
    var t := Slowest(Stage, s.threads);
    if CanLaunch(s) {
      var s' := Launch(s);
      assert Next(s, s');
    } else if s.lock.Some? {
      var s' := Move(s, s.lock.value);
      assert StepOf(s, s', s.lock.value) && Next(s, s');
    } else {
      SlowestMoves(s, t);
    }
  }

  lemma SlowestMoves(s: State, t: nat)
    requires Inv(s) && s.lock.None? && !CanLaunch(s) && t < |s.threads|
    requires forall u :: 0 <= u < |s.threads| ==> Stage(s.threads[t]) <= Stage(s.threads[u])
    requires s.threads[t].Looping? ==> !s.returned
    ensures exists s' :: Next(s, s')
  {
    CountIsFull(Stage, 3, s.threads);
    CountIsFull(Stage, 7, s.threads);
    CountIsFull(Stage, 9, s.threads);
    if s.threads[t].Looping? {
      var s' := s.(returned := true);
      assert Next(s, s');
    } else {
      assert Enabled(s, t);
      var s' := Move(s, t);
      assert StepOf(s, s', t) && Next(s, s');
    }
  }

  lemma {:induction false} RunShrinks(run: seq<State>, k: nat)
    requires IsRun(run) && k < |run|
    ensures Measure(run[k]) + k <= Measure(run[0])
  {
    hide Inv, Next, Measure;
    if k > 0 {
      RunShrinks(run, k - 1);
      RunInv(run, k - 1);
      NextDecreases(run[k-1], run[k]);
    }
  }

  /** Every run on n processors has at most 12n + 1 steps, and one that can go no further has
      called Main exactly once, with every processor in its event loop. */
  lemma RunsEnd(run: seq<State>)
    requires IsRun(run)
    ensures |run| <= 12 * |run[0].threads| + 2
    ensures var s := run[|run|-1];
            Final(s) ==>
              s.mains == [0] && s.returned && forall t :: 0 <= t < |s.threads| ==> s.threads[t].Looping?
  {
    RunShrinks(run, |run| - 1);
    TotalAtMost(Left, run[0].threads, 12);
    RunInv(run, |run| - 1);
    var s := run[|run|-1];
    if Final(s) {
      if !(s.returned && forall t :: 0 <= t < |s.threads| ==> s.threads[t].Looping?) { NotStuck(s); }
    }
  }

  // ----- runs that go to their end -----

  /** Every run can be continued until nothing can happen any more. */
  lemma {:induction false} RunsGoOn(run: seq<State>) returns (run': seq<State>)
    requires IsRun(run)
    ensures IsRun(run') && run <= run' && Final(run'[|run'|-1])
    decreases 12 * |run[0].threads| + 3 - |run|
  {
    RunsEnd(run);
    run' := run;
    var s := run[|run|-1];
    if !Final(s) {
      var s' :| Next(s, s');
      assert (run + [s'])[0] == run[0];
      RunsEnd(run + [s']);
      run' := RunsGoOn(run + [s']);
    }
  }

  /** So for any number of processors there is a run that calls Main. */
  lemma SomeRunCallsMain(n: nat) returns (run: seq<State>)
    requires n > 0
    ensures IsRun(run) && |run[0].threads| == n && run[|run|-1].mains == [0]
  {
    run := [Started(n, 0)];
    run := RunsGoOn(run);
    RunsEnd(run);
  }
}
