// `MPTest`: one worker on each of n processors, two barriers around the work, a counter the
// workers spin on, and one activation of the context the caller saved.
module Rendezvous {
  import opened Options
  import opened Totals

  /** How many workers are used when `n` are asked for on `cpus` processors. */
  function Workers(n: nat, cpus: nat): (w: nat)
    ensures w <= n && w <= cpus && (w == n || w == cpus)
  {
    if n > cpus then cpus else n
  }

  datatype Pc =
    | Unspawned
    | ArriveFirst
    | AwaitFirst          // spins in the barrier
    | Work
    | ArriveSecond
    | AwaitSecond         // spins in the barrier
    | Store
    | CountUp
    | AwaitCount          // spins until `count` reaches n
    | WakeCaller          // activates the context if it runs on the caller's processor
    | Finished

  function Stage(pc: Pc): (n: nat)
    ensures n <= 10
  {
    match pc
    case Unspawned => 0
    case ArriveFirst => 1
    case AwaitFirst => 2
    case Work => 3
    case ArriveSecond => 4
    case AwaitSecond => 5
    case Store => 6
    case CountUp => 7
    case AwaitCount => 8
    case WakeCaller => 9
    case Finished => 10
  }

  function Following(pc: Pc): Pc {
    match pc
    case Unspawned => ArriveFirst
    case ArriveFirst => AwaitFirst
    case AwaitFirst => Work
    case Work => ArriveSecond
    case ArriveSecond => AwaitSecond
    case AwaitSecond => Store
    case Store => CountUp
    case CountUp => AwaitCount
    case AwaitCount => WakeCaller
    case WakeCaller => Finished
    case Finished => Finished
  }

  datatype Caller = Spawning(next: nat) | Saved | Resumed(countWas: nat)

  /** Worker `i` runs on processor `i`; `rcs[i]` is what its work returns. The barrier has one
      place for each worker; `first` and `second` count the arrivals at its two uses. */
  datatype State = State(
    workers: seq<Pc>,
    caller: Caller,
    cpu: nat,
    rcs: seq<int>,
    first: nat,
    second: nat,
    results: seq<Option<int>>,
    count: nat,
    wakes: nat)

  ghost predicate Init(s: State) {
    && (forall i :: 0 <= i < |s.workers| ==> s.workers[i] == Unspawned)
    && |s.rcs| == |s.results| == |s.workers|
    && (forall i :: 0 <= i < |s.results| ==> s.results[i] == None)
    && s == State(s.workers, Spawning(0), s.cpu, s.rcs, 0, 0, s.results, 0, 0)
  }

  /** The worker on the caller's own processor is an event there: it starts only when the
      caller has saved its context. */
  predicate Enabled(s: State, i: nat)
    requires i < |s.workers|
  {
    var n := |s.workers|;
    match s.workers[i]
    case Unspawned => false
    case ArriveFirst => i == s.cpu ==> !s.caller.Spawning?
    case AwaitFirst => s.first >= n
    case AwaitSecond => s.second >= n
    case AwaitCount => s.count >= n
    case Finished => false
    case _ => true
  }

  function Move(s: State, i: nat): State
    requires i < |s.workers| == |s.rcs| == |s.results| && Enabled(s, i)
  {
    var s' := s.(workers := s.workers[i := Following(s.workers[i])]);
    match s.workers[i]
    case ArriveFirst => s'.(first := s.first + 1)
    case ArriveSecond => s'.(second := s.second + 1)
    case Store => s'.(results := s.results[i := Some(s.rcs[i])])
    case CountUp => s'.(count := s.count + 1)
    case WakeCaller => if i == s.cpu then s'.(wakes := s.wakes + 1) else s'
    case _ => s'
  }

  predicate CallerCan(s: State) {
    match s.caller
    case Spawning(next) => next <= |s.workers|
    case Saved => s.wakes > 0
    case Resumed(_) => false
  }

  /** The caller spawns the workers, saves its context, and on resuming reads the counter. */
  function CallerMove(s: State): State
    requires CallerCan(s)
  {
    match s.caller
    case Spawning(next) =>
      if next < |s.workers| then s.(workers := s.workers[next := ArriveFirst], caller := Spawning(next + 1))
      else s.(caller := Saved)
    case Saved => s.(caller := Resumed(s.count))
  }

  ghost predicate StepOf(s: State, s': State, i: nat) {
    i < |s.workers| == |s.rcs| == |s.results| && Enabled(s, i) && s' == Move(s, i)
  }

  ghost predicate Next(s: State, s': State) {
    (exists i :: StepOf(s, s', i)) || (CallerCan(s) && s' == CallerMove(s))
  }

  /** Nothing can happen any more. */
  ghost predicate Final(s: State) {
    forall s' :: !Next(s, s')
  }

  // ----- what every step keeps -----

  ghost predicate Counts(s: State) {
    && s.first == Total(Past(Stage, 1), s.workers)
    && s.second == Total(Past(Stage, 4), s.workers)
    && s.count == Total(Past(Stage, 7), s.workers)
  }

  function Spawned(s: State): nat {
    match s.caller
    case Spawning(next) => next
    case _ => |s.workers|
  }

  ghost predicate WorkerInv(s: State, i: nat, pc: Pc)
    requires i < |s.rcs| == |s.results|
  {
    && (pc == Unspawned <==> i >= Spawned(s))
    && (i == s.cpu && Stage(pc) > 1 ==> !s.caller.Spawning?)
    && (Stage(pc) > 2 ==> s.first == |s.workers|)
    && (Stage(pc) > 5 ==> s.second == |s.workers|)
    && (Stage(pc) > 8 ==> s.count == |s.workers|)
    && s.results[i] == (if Stage(pc) > 6 then Some(s.rcs[i]) else None)
  }

  /** The caller is woken once, by the worker on its own processor. */
  ghost predicate CallerInv(s: State) {
    && Spawned(s) <= |s.workers|
    && s.wakes == (if s.cpu < |s.workers| && s.workers[s.cpu].Finished? then 1 else 0)
    && (s.caller.Resumed? ==> s.wakes == 1 && s.caller.countWas == |s.workers|)
  }

  ghost predicate WorkersInv(s: State) {
    && |s.rcs| == |s.results| == |s.workers|
    && forall i :: 0 <= i < |s.workers| ==> WorkerInv(s, i, s.workers[i])
  }

  ghost predicate Inv(s: State) {
    Counts(s) && CallerInv(s) && WorkersInv(s)
  }

  lemma InitInv(s: State)
    requires Init(s)
    ensures Inv(s)
  {
    NonePast(Stage, 1, s.workers);
    NonePast(Stage, 4, s.workers);
    NonePast(Stage, 7, s.workers);
  }

  predicate Bounded(s: State) {
    s.first <= |s.workers| && s.second <= |s.workers| && s.count <= |s.workers|
  }

  lemma Bounds(s: State)
    requires Counts(s)
    ensures Bounded(s)
  {
    CountIsFull(Stage, 1, s.workers);
    CountIsFull(Stage, 4, s.workers);
    CountIsFull(Stage, 7, s.workers);
  }

  lemma MoveKeepsCounts(s: State, i: nat)
    requires Inv(s) && i < |s.workers| && Enabled(s, i)
    ensures Counts(Move(s, i))
  {
    hide Past, WorkersInv, CallerInv;
    CountMoves(Stage, 1, s.workers, i, Following(s.workers[i]));
    CountMoves(Stage, 4, s.workers, i, Following(s.workers[i]));
    CountMoves(Stage, 7, s.workers, i, Following(s.workers[i]));
  }

  lemma MoveKeepsWorker(s: State, i: nat, j: nat)
    requires |s.rcs| == |s.results| == |s.workers| && i < |s.workers| && Enabled(s, i) && j < |s.workers|
    requires WorkerInv(s, i, s.workers[i]) && WorkerInv(s, j, s.workers[j])
    requires Bounded(s) && Bounded(Move(s, i))
    ensures WorkerInv(Move(s, i), j, Move(s, i).workers[j])
  {
  }

  lemma MoveKeepsInv(s: State, i: nat)
    requires Inv(s) && i < |s.workers| && Enabled(s, i)
    ensures Inv(Move(s, i)) && |Move(s, i).workers| == |s.workers|
  {
    var s' := Move(s, i);
    MoveKeepsCounts(s, i);
    Bounds(s);
    Bounds(s');
    hide Counts;
    assert WorkerInv(s, i, s.workers[i]);
    forall j | 0 <= j < |s.workers| ensures WorkerInv(s', j, s'.workers[j]) {
      assert WorkerInv(s, j, s.workers[j]);
      MoveKeepsWorker(s, i, j);
    }
  }

  lemma CallerKeepsInv(s: State)
    requires Inv(s) && CallerCan(s)
    ensures Inv(CallerMove(s)) && |CallerMove(s).workers| == |s.workers|
  {
    var s' := CallerMove(s);
    if s.caller.Spawning? && s.caller.next < |s.workers| {
      var i := s.caller.next;
      assert WorkerInv(s, i, s.workers[i]);
      CountMoves(Stage, 1, s.workers, i, ArriveFirst);
      CountMoves(Stage, 4, s.workers, i, ArriveFirst);
      CountMoves(Stage, 7, s.workers, i, ArriveFirst);
    }
    hide Past;
    forall j | 0 <= j < |s.workers| ensures WorkerInv(s', j, s'.workers[j]) {
      assert WorkerInv(s, j, s.workers[j]);
    }
  }

  lemma NextKeepsInv(s: State, s': State)
    requires Inv(s) && Next(s, s')
    ensures Inv(s') && |s'.workers| == |s.workers|
  {
    hide Counts, CallerInv, WorkersInv, Move, Enabled, CallerMove, CallerCan;
    if CallerCan(s) && s' == CallerMove(s) {
      CallerKeepsInv(s);
    } else {
      var i :| StepOf(s, s', i);
      MoveKeepsInv(s, i);
    }
  }

  lemma NextKeepsConstants(s: State, s': State)
    requires Next(s, s')
    ensures s'.cpu == s.cpu && s'.rcs == s.rcs
  {
  }

  ghost predicate IsRun(run: seq<State>) {
    && run != [] && Init(run[0])
    && forall i :: 0 < i < |run| ==> Next(run[i-1], run[i])
  }

  lemma {:induction false} RunInv(run: seq<State>, k: nat)
    requires IsRun(run) && k < |run|
    ensures Inv(run[k]) && |run[k].workers| == |run[0].workers| && run[k].cpu == run[0].cpu && run[k].rcs == run[0].rcs
  {
    hide Inv, Next;
    if k == 0 {
      InitInv(run[0]);
    } else {
      RunInv(run, k - 1);
      NextKeepsInv(run[k-1], run[k]);
      NextKeepsConstants(run[k-1], run[k]);
    }
  }

  /** The results of all workers. */
  function Expected(rcs: seq<int>): seq<Option<int>> {
    seq(|rcs|, i requires 0 <= i < |rcs| => Some(rcs[i]))
  }

  /** In every interleaving the caller's context is activated at most once and not before it
      is saved, and when the caller runs again every result is stored and its final check
      of the counter holds. */
  lemma ResumesLast(run: seq<State>, k: nat)
    requires IsRun(run) && k < |run|
    ensures var s, n := run[k], |run[0].workers|;
            && s.wakes <= 1
            && (s.wakes == 1 ==> !s.caller.Spawning? && s.cpu < n)
            && (s.wakes == 1 ==> s.count == n && s.results == Expected(run[0].rcs))
            && (s.caller.Resumed? ==> s.wakes == 1 && s.caller.countWas == n)
  {
    RunInv(run, k);
    var s := run[k];
    if s.wakes == 1 {
      assert WorkerInv(s, s.cpu, s.workers[s.cpu]);
      CountIsFull(Stage, 7, s.workers);
      forall i | 0 <= i < |s.workers| ensures s.results[i] == Expected(s.rcs)[i] {
        assert WorkerInv(s, i, s.workers[i]);
      }
    }
  }

  /** Nobody works before all have come to the first barrier, nobody stores a result before all
      have finished their work, and the caller is woken only after all have stored theirs. */
  lemma BarriersHold(run: seq<State>, k: nat, i: nat, j: nat)
    requires IsRun(run) && k < |run| && i < |run[k].workers| && j < |run[k].workers|
    ensures var p, q := run[k].workers[i], run[k].workers[j];
            && (p.Work? ==> !(q.Unspawned? || q.ArriveFirst?))
            && (p.Store? ==> !(q.Unspawned? || q.ArriveFirst? || q.AwaitFirst? || q.Work? || q.ArriveSecond?))
            && (p.WakeCaller? || p.Finished? ==> run[k].results == Expected(run[0].rcs))
  {
    RunInv(run, k);
    var s := run[k];
    CountIsFull(Stage, 1, s.workers);
    CountIsFull(Stage, 4, s.workers);
    CountIsFull(Stage, 7, s.workers);
    assert WorkerInv(s, i, s.workers[i]) && WorkerInv(s, j, s.workers[j]);
    if s.workers[i].WakeCaller? || s.workers[i].Finished? {
      forall h | 0 <= h < |s.workers| ensures s.results[h] == Expected(s.rcs)[h] {
        assert WorkerInv(s, h, s.workers[h]);
      }
    }
  }

  // ----- progress -----

  function Left(pc: Pc): nat {
    10 - Stage(pc)
  }

  /** Spawning a worker is one step of the worker as well as of the caller. */
  function CallerLeft(c: Caller): nat {
    match c
    case Spawning(_) => 2
    case Saved => 1
    case Resumed(_) => 0
  }

  function Measure(s: State): nat {
    Total(Left, s.workers) + CallerLeft(s.caller)
  }

  lemma MoveDecreases(s: State, i: nat)
    requires Inv(s) && i < |s.workers| && Enabled(s, i)
    ensures Measure(Move(s, i)) < Measure(s)
  {
    hide Counts, WorkersInv, CallerInv;
    TotalUpdate(Left, s.workers, i, Following(s.workers[i]));
  }

  lemma CallerDecreases(s: State)
    requires Inv(s) && CallerCan(s)
    ensures Measure(CallerMove(s)) < Measure(s)
  {
    if s.caller.Spawning? && s.caller.next < |s.workers| {
      assert WorkerInv(s, s.caller.next, s.workers[s.caller.next]);
      TotalUpdate(Left, s.workers, s.caller.next, ArriveFirst);
    }
  }

  lemma NextDecreases(s: State, s': State)
    requires Inv(s) && Next(s, s')
    ensures Measure(s') < Measure(s)
  {
    hide Inv, Move, Enabled, CallerMove, CallerCan, Measure;
    if CallerCan(s) && s' == CallerMove(s) {
      CallerDecreases(s);
    } else {
      var i :| StepOf(s, s', i);
      MoveDecreases(s, i);
    }
  }

  /** Neither the barriers nor the spin on the counter get stuck: a state without a next step
      has every worker finished, and the caller resumed unless no worker runs beside it. */
  lemma StuckMeansDone(s: State)
    requires Inv(s) && Final(s)
    ensures forall i :: 0 <= i < |s.workers| ==> s.workers[i].Finished?
    ensures s.caller.Resumed? <==> s.cpu < |s.workers|
    ensures !s.caller.Spawning?
  {
    if CallerCan(s) { assert Next(s, CallerMove(s)); }
    if s.workers != [] {
      var i := Slowest(Stage, s.workers);
      CountIsFull(Stage, 1, s.workers);
      CountIsFull(Stage, 4, s.workers);
      CountIsFull(Stage, 7, s.workers);
      assert WorkerInv(s, i, s.workers[i]);
      if Enabled(s, i) { assert StepOf(s, Move(s, i), i) && Next(s, Move(s, i)); }
    }
  }

  lemma {:induction false} RunShrinks(run: seq<State>, k: nat)
    requires IsRun(run) && k < |run|
    ensures Measure(run[k]) + k <= Measure(run[0])
  {
    hide Inv, Next, Measure;
    if k > 0 {
      RunShrinks(run, k - 1);
      RunInv(run, k - 1);
      NextDecreases(run[k-1], run[k]);
    }
  }

  /** Every run with n workers has at most 10n + 2 steps. Where it can go no further the caller
      has resumed if and only if its own processor is among the first n; otherwise, and so
      always when n is 0, it stays saved for good. */
  lemma RunsEnd(run: seq<State>)
    requires IsRun(run)
    ensures |run| <= 10 * |run[0].workers| + 3
    ensures var s := run[|run|-1];
            Final(s) ==>
              if run[0].cpu < |run[0].workers|
              then s.caller == Resumed(|run[0].workers|) && s.results == Expected(run[0].rcs)
              else s.caller == Saved
  {
    RunShrinks(run, |run| - 1);
    TotalAtMost(Left, run[0].workers, 10);
    RunInv(run, |run| - 1);
    ResumesLast(run, |run| - 1);
    var s := run[|run|-1];
    if Final(s) { StuckMeansDone(s); }
  }

  /** Asked for any number of workers from some processor, the call returns if and only if the
      number of that processor is below the number asked for. */
  lemma ReturnsIff(run: seq<State>, asked: nat, cpus: nat)
    requires IsRun(run) && |run[0].workers| == Workers(asked, cpus) && run[0].cpu < cpus
    requires Final(run[|run|-1])
    ensures run[|run|-1].caller.Resumed? <==> run[0].cpu < asked
  {
    RunsEnd(run);
  }

  // ----- runs that go to their end -----

  /** Every run can be continued until nothing can happen any more. */
  lemma {:induction false} RunsGoOn(run: seq<State>) returns (run': seq<State>)
    requires IsRun(run)
    ensures IsRun(run') && run <= run' && Final(run'[|run'|-1])
    decreases 10 * |run[0].workers| + 4 - |run|
  {
    RunsEnd(run);
    run' := run;
    var s := run[|run|-1];
    if !Final(s) {
      var s' :| Next(s, s');
      assert (run + [s'])[0] == run[0];
      RunsEnd(run + [s']);
      run' := RunsGoOn(run + [s']);
    }
  }

  /** So for any results of the workers there is a run that collects them, if the caller's own
      processor is among theirs. */
  lemma SomeRunCollects(rcs: seq<int>, cpu: nat) returns (run: seq<State>)
    requires cpu < |rcs|
    ensures IsRun(run) && run[0].rcs == rcs && run[0].cpu == cpu
    ensures var s := run[|run|-1]; s.caller == Resumed(|rcs|) && s.results == Expected(rcs)
  {
    var n := |rcs|;
    run := [State(seq(n, i => Unspawned), Spawning(0), cpu, rcs, 0, 0, seq(n, i => None), 0, 0)];
    run := RunsGoOn(run);
    RunsEnd(run);
  }
}
