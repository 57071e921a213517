// The lock-based fault protocol shared by the command-line, environment, file-system and
// input-stream Ebbs: a root is put in the node's id map under a write accessor, and the
// root makes the representative, giving up its mutex while it waits for the root data.
// One id is modelled: other ids have their own map entry and their own root.
module LockedFault {
  import opened GetOrCreate
  import opened Options
  import opened Totals

  /** Where a thread is. `Find(true)` is a retry after either outcome of `Insert`. */
  datatype Pc =
    | Find(retry: bool)            // about to look the id up
    | Found                        // holds a read accessor on the entry
    | Insert                       // the lookup failed
    | Fill                         // inserted the entry and holds it exclusively
    | Publish(root: nat)           // made a root, not yet stored in the entry
    | Lost                         // failed to insert, holds the accessor until it retries
    | Lock(root: nat)              // about to take the mutex of the root
    | Check(root: nat)             // holds the mutex, looks for a representative
    | Wait(root: nat)              // gave the mutex up, waits for the root data
    | Relock(root: nat)
    | Recheck(root: nat)           // holds the mutex again, looks once more
    | Unlock(root: nat, rep: Object)
    | Cache(rep: Object)
    | Done(rep: Object)

  datatype Root = Root(mutex: Option<Thread>, ready: bool, rep: Option<Object>)

  /** `entry` is absent, inserted but empty, or holds a root. `reps` counts representatives made. */
  datatype State = State(
    threads: seq<Pc>,
    entry: Option<Option<nat>>,
    writer: Option<Thread>,
    readers: set<Thread>,
    roots: seq<Root>,
    reps: nat)

  ghost predicate Init(s: State) {
    && (forall t :: 0 <= t < |s.threads| ==> s.threads[t] == Find(false))
    && s == State(s.threads, None, None, {}, [], 0)
  }

  // ----- the steps -----

  predicate HasRoot(s: State, r: nat) {
    r < |s.roots|
  }

  /** Can thread `t` move?  Accessors and the mutex block; the wait blocks until the data is there. */
  predicate Enabled(s: State, t: Thread)
    requires t < |s.threads|
  {
    match s.threads[t]
    case Find(_) => s.writer.None?
    case Found => s.entry.Some? && s.entry.value.Some?
    case Insert => true
    case Fill => true
    case Publish(_) => true
    case Lost => true
    case Lock(r) => HasRoot(s, r) && s.roots[r].mutex.None?
    case Check(r) => HasRoot(s, r)
    case Wait(r) => HasRoot(s, r) && s.roots[r].ready
    case Relock(r) => HasRoot(s, r) && s.roots[r].mutex.None?
    case Recheck(r) => HasRoot(s, r)
    case Unlock(r, _) => HasRoot(s, r)
    case Cache(_) => true
    case Done(_) => false
  }

  function Goto(s: State, t: Thread, pc: Pc): State
    requires t < |s.threads|
  {
    s.(threads := s.threads[t := pc])
  }

  function SetRoot(s: State, r: nat, root: Root): State
    requires HasRoot(s, r)
  {
    s.(roots := s.roots[r := root])
  }

  /** The move of thread `t`. A failed insert may or may not come with an accessor on the
      entry of the winner, which it then has to wait for: `hold` chooses, if it is free. */
  function Move(s: State, t: Thread, hold: bool): State
    requires t < |s.threads| && Enabled(s, t)
  {
    match s.threads[t]
    case Find(_) =>
      if s.entry.None? then Goto(s, t, Insert) else Goto(s, t, Found).(readers := s.readers + {t})
    case Found =>
      Goto(s, t, Lock(s.entry.value.value)).(readers := s.readers - {t})
    case Insert =>
      if s.entry.None? then Goto(s, t, Fill).(entry := Some(None), writer := Some(t))
      else if hold && s.writer.None? && s.readers == {} then Goto(s, t, Lost).(writer := Some(t))
      else Goto(s, t, Find(true))
    case Fill =>
      Goto(s, t, Publish(|s.roots|)).(roots := s.roots + [Root(None, false, None)])
    case Publish(r) =>
      Goto(s, t, Find(true)).(entry := Some(Some(r)), writer := None)
    case Lost =>
      Goto(s, t, Find(true)).(writer := None)
    case Lock(r) =>
      SetRoot(Goto(s, t, Check(r)), r, s.roots[r].(mutex := Some(t)))
    case Check(r) =>
      if s.roots[r].rep.Some? then Goto(s, t, Unlock(r, s.roots[r].rep.value))
      else SetRoot(Goto(s, t, Wait(r)), r, s.roots[r].(mutex := None))
    case Wait(r) =>
      Goto(s, t, Relock(r))
    case Relock(r) =>
      SetRoot(Goto(s, t, Recheck(r)), r, s.roots[r].(mutex := Some(t)))
    case Recheck(r) =>
      if s.roots[r].rep.Some? then Goto(s, t, Unlock(r, s.roots[r].rep.value))
      else SetRoot(Goto(s, t, Unlock(r, s.reps)), r, s.roots[r].(rep := Some(s.reps))).(reps := s.reps + 1)
    case Unlock(r, p) =>
      SetRoot(Goto(s, t, Cache(p)), r, s.roots[r].(mutex := None))
    case Cache(p) =>
      Goto(s, t, Done(p))
  }

  /** The data of a root arrives, without error. */
  predicate CanArrive(s: State, r: nat) {
    HasRoot(s, r) && !s.roots[r].ready
  }

  function Arrive(s: State, r: nat): State
    requires CanArrive(s, r)
  {
    SetRoot(s, r, s.roots[r].(ready := true))
  }

  ghost predicate StepOf(s: State, s': State, t: Thread, hold: bool) {
    t < |s.threads| && Enabled(s, t) && s' == Move(s, t, hold)
  }

  ghost predicate ArrivalOf(s: State, s': State, r: nat) {
    CanArrive(s, r) && s' == Arrive(s, r)
  }

  ghost predicate Next(s: State, s': State) {
    (exists t, hold :: StepOf(s, s', t, hold)) || (exists r :: ArrivalOf(s, s', r))
  }

  /** By the accessor semantics the code quotes, `Insert` waits while other threads hold the
      entry, and a failed insert comes back with the accessor. */
  predicate Waits(s: State, t: Thread, hold: bool)
    requires t < |s.threads|
  {
    s.threads[t].Insert? && s.entry.Some? && !(hold && s.writer.None? && s.readers == {})
  }

  ghost predicate PatientNext(s: State, s': State) {
    || (exists t, hold :: StepOf(s, s', t, hold) && !Waits(s, t, hold))
    || (exists r :: ArrivalOf(s, s', r))
  }

  /** Nothing can happen any more, though a thread may still wait for an accessor. */
  ghost predicate Final(s: State) {
    forall s' :: !PatientNext(s, s')
  }

  // ----- what every step keeps -----

  predicate HoldsMutex(pc: Pc) {
    pc.Check? || pc.Recheck? || pc.Unlock?
  }

  predicate HoldsEntry(pc: Pc) {
    pc.Fill? || pc.Publish? || pc.Lost?
  }

  /** The root has been made and stored in the entry. */
  ghost predicate Installed(s: State) {
    s.entry == Some(Some(0)) && |s.roots| == 1
  }

  /** What is known where a thread is. */
  ghost predicate PcInv(s: State, pc: Pc) {
    match pc
    case Find(retry) => retry ==> s.entry.Some?
    case Found => Installed(s)
    case Insert => true
    case Fill => s.entry == Some(None) && s.roots == []
    case Publish(r) => s.entry == Some(None) && r == 0 && |s.roots| == 1
    case Lost => Installed(s)
    case Lock(r) => r == 0 && Installed(s)
    case Check(r) => r == 0 && Installed(s)
    case Wait(r) => r == 0 && Installed(s)
    case Relock(r) => r == 0 && Installed(s) && s.roots[0].ready
    case Recheck(r) => r == 0 && Installed(s) && s.roots[0].ready
    case Unlock(r, p) => r == 0 && Installed(s) && s.roots[0].rep == Some(p)
    case Cache(p) => Installed(s) && s.roots[0].rep == Some(p)
    case Done(p) => Installed(s) && s.roots[0].rep == Some(p)
  }

  /** At most one root, in the entry once that is filled; at most one representative, made
      only after the data of the root arrived. */
  ghost predicate StoreInv(s: State) {
    && (s.entry.None? ==> s.roots == [])
    && (s.entry.Some? && s.entry.value.Some? ==> Installed(s))
    && (s.roots == [] ==> s.reps == 0)
    && |s.roots| <= 1
    && (|s.roots| == 1 ==>
          if s.roots[0].rep.None? then s.reps == 0
          else s.roots[0].rep == Some(0) && s.reps == 1 && s.roots[0].ready && Installed(s))
  }

  /** The entry is empty only while its writer fills it; accessors and the mutex are held
      by exactly the threads whose program counter says so. */
  ghost predicate LockInv(s: State) {
    && (s.writer.Some? ==> s.readers == {} && s.writer.value < |s.threads| && s.entry.Some?)
    && (s.entry == Some(None) ==> s.writer.Some? && !s.threads[s.writer.value].Lost?)
    && (forall t <- s.readers :: t < |s.threads|)
    && (forall t :: 0 <= t < |s.threads| ==>
          && (t in s.readers <==> s.threads[t].Found?)
          && (s.writer == Some(t) <==> HoldsEntry(s.threads[t])))
  }

  ghost predicate MutexInv(s: State) {
    && (|s.roots| == 1 && s.roots[0].mutex.Some? ==> s.roots[0].mutex.value < |s.threads|)
    && (|s.roots| == 1 ==> forall t :: 0 <= t < |s.threads| ==>
          (s.roots[0].mutex == Some(t) <==> HoldsMutex(s.threads[t])))
  }

  ghost predicate Inv(s: State) {
    && StoreInv(s)
    && LockInv(s)
    && MutexInv(s)
    && forall t :: 0 <= t < |s.threads| ==> PcInv(s, s.threads[t])
  }

  lemma InitInv(s: State)
    requires Init(s)
    ensures Inv(s)
  {
  }

  lemma MoveKeepsStore(s: State, t: Thread, hold: bool)
    requires Inv(s) && t < |s.threads| && Enabled(s, t)
    ensures StoreInv(Move(s, t, hold))
  {
    assert PcInv(s, s.threads[t]);
  }

  lemma MoveKeepsLocks(s: State, t: Thread, hold: bool)
    requires Inv(s) && t < |s.threads| && Enabled(s, t)
    ensures LockInv(Move(s, t, hold))
  {
    assert PcInv(s, s.threads[t]);
    var s' := Move(s, t, hold);
    forall u | 0 <= u < |s.threads|
      ensures u in s'.readers <==> s'.threads[u].Found?
      ensures s'.writer == Some(u) <==> HoldsEntry(s'.threads[u])
    {
      LocksOf(s, t, hold, u);
    }
    assert forall u <- s'.readers :: u in s.readers || u == t;
  }

  lemma LocksOf(s: State, t: Thread, hold: bool, u: Thread)
    requires Inv(s) && t < |s.threads| && Enabled(s, t) && u < |s.threads|
    ensures var s' := Move(s, t, hold);
            && (u in s'.readers <==> s'.threads[u].Found?)
            && (s'.writer == Some(u) <==> HoldsEntry(s'.threads[u]))
  {
    assert PcInv(s, s.threads[t]);
    assert s.writer == Some(t) <==> HoldsEntry(s.threads[t]);
    assert s.writer == Some(u) <==> HoldsEntry(s.threads[u]);
    assert u in s.readers <==> s.threads[u].Found?;
  }

  lemma MoveKeepsMutex(s: State, t: Thread, hold: bool)
    requires Inv(s) && t < |s.threads| && Enabled(s, t)
    ensures MutexInv(Move(s, t, hold))
  {
    assert PcInv(s, s.threads[t]);
  }

  /** A thread keeps what it knows while another one moves. */
  lemma MoveKeepsOthers(s: State, t: Thread, hold: bool, u: Thread)
    requires Inv(s) && t < |s.threads| && Enabled(s, t) && u < |s.threads| && u != t
    ensures PcInv(Move(s, t, hold), s.threads[u])
  {
    assert PcInv(s, s.threads[t]) && PcInv(s, s.threads[u]);
  }

  lemma MoveKeepsOwn(s: State, t: Thread, hold: bool)
    requires Inv(s) && t < |s.threads| && Enabled(s, t)
    ensures var s' := Move(s, t, hold); PcInv(s', s'.threads[t])
  {
    assert PcInv(s, s.threads[t]);
  }

  lemma MoveKeepsThreads(s: State, t: Thread, hold: bool)
    requires t < |s.threads| && Enabled(s, t)
    ensures var s' := Move(s, t, hold);
            |s'.threads| == |s.threads| && forall u :: 0 <= u < |s.threads| && u != t ==> s'.threads[u] == s.threads[u]
  {
  }

  lemma MoveKeepsInv(s: State, t: Thread, hold: bool)
    requires Inv(s) && t < |s.threads| && Enabled(s, t)
    ensures Inv(Move(s, t, hold)) && |Move(s, t, hold).threads| == |s.threads|
  {
    hide PcInv, LockInv, MutexInv, StoreInv, Move, Enabled;
    var s' := Move(s, t, hold);
    MoveKeepsThreads(s, t, hold);
    MoveKeepsStore(s, t, hold);
    MoveKeepsLocks(s, t, hold);
    MoveKeepsMutex(s, t, hold);
    MoveKeepsOwn(s, t, hold);
    forall u | 0 <= u < |s'.threads| ensures PcInv(s', s'.threads[u]) {
      if u != t { MoveKeepsOthers(s, t, hold, u); }
    }
  }

  lemma ArriveKeepsInv(s: State, r: nat)
    requires Inv(s) && CanArrive(s, r)
    ensures Inv(Arrive(s, r)) && |Arrive(s, r).threads| == |s.threads|
  {
    var s' := Arrive(s, r);
    assert s'.threads == s.threads;
    forall u | 0 <= u < |s'.threads| ensures PcInv(s', s'.threads[u]) {
      assert PcInv(s, s.threads[u]);
    }
  }

  lemma NextKeepsInv(s: State, s': State)
    requires Inv(s) && Next(s, s')
    ensures Inv(s') && |s'.threads| == |s.threads|
  {
    hide Inv, Move, Arrive, Enabled;
    if t, hold :| StepOf(s, s', t, hold) {
      MoveKeepsInv(s, t, hold);
    } else {
      var r :| ArrivalOf(s, s', r);
      ArriveKeepsInv(s, r);
    }
  }

  // ----- the protocol gets or creates one object -----

  ghost function Abs(s: State): Spec {
    Spec(if |s.roots| == 1 then s.roots[0].rep else None,
         map t: Thread | t < |s.threads| && s.threads[t].Done? :: s.threads[t].rep)
  }

  lemma MoveHands(s: State, t: Thread, hold: bool)
    requires t < |s.threads| && Enabled(s, t)
    ensures var a, a' := Abs(s), Abs(Move(s, t, hold));
            a'.handed == match s.threads[t] { case Cache(p) => a.handed[t := p] case _ => a.handed }
  {
    hide PcInv, LockInv, MutexInv, StoreInv;
    assert forall u: Thread :: u < |s.threads| && u != t ==> Move(s, t, hold).threads[u] == s.threads[u];
    assert !s.threads[t].Done?;
    assert Move(s, t, hold).threads[t].Done? ==> s.threads[t].Cache?;
  }

  lemma MoveRefines(s: State, t: Thread, hold: bool)
    requires Inv(s) && t < |s.threads| && Enabled(s, t)
    ensures GetOrCreate.Next(Abs(s), Abs(Move(s, t, hold)))
  {
    hide LockInv, MutexInv;
    var a, a' := Abs(s), Abs(Move(s, t, hold));
    assert PcInv(s, s.threads[t]);
    MoveHands(s, t, hold);
    if s.threads[t].Cache? {
      assert Hand(a, a', t);
    } else {
      assert a' == a || Make(a, a');
    }
  }

  lemma NextRefines(s: State, s': State)
    requires Inv(s) && Next(s, s')
    ensures GetOrCreate.Next(Abs(s), Abs(s'))
  {
    hide Inv, Move, Enabled;
    if t, hold :| StepOf(s, s', t, hold) {
      MoveRefines(s, t, hold);
    } else {
      var r :| ArrivalOf(s, s', r);
      assert Abs(s') == Abs(s);
    }
  }

  ghost predicate IsRun(run: seq<State>) {
    && run != [] && Init(run[0])
    && forall i :: 0 < i < |run| ==> Next(run[i-1], run[i])
  }

  lemma {:induction false} RunInv(run: seq<State>, k: nat)
    requires IsRun(run) && k < |run|
    ensures Inv(run[k]) && |run[k].threads| == |run[0].threads|
  {
    hide Inv, Next;
    if k == 0 {
      InitInv(run[0]);
    } else {
      RunInv(run, k - 1);
      NextKeepsInv(run[k-1], run[k]);
    }
  }

  /** Over every interleaving of any number of threads the protocol is a run of the
      specification: one object is made, and every thread is handed that object. */
  lemma RunRefines(run: seq<State>)
    requires IsRun(run)
    ensures GetOrCreate.IsRun(seq(|run|, i requires 0 <= i < |run| => Abs(run[i])))
  {
    var abs := seq(|run|, i requires 0 <= i < |run| => Abs(run[i]));
    assert abs[0] == Spec(None, map[]);
    forall i | 0 < i < |abs| ensures GetOrCreate.Next(abs[i-1], abs[i]) {
      RunInv(run, i - 1);
      NextRefines(run[i-1], run[i]);
    }
  }

  /** At most one root and at most one representative are ever made, the representative
      after the data of the root arrived, and every thread that returns has it. */
  lemma OneRootOneRep(run: seq<State>, k: nat)
    requires IsRun(run) && k < |run|
    ensures var s := run[k];
            && |s.roots| <= 1 && s.reps <= 1
            && (s.reps == 1 ==>
                  s.entry == Some(Some(0)) && |s.roots| == 1 && s.roots[0].ready && s.roots[0].rep == Some(0))
            && forall t :: 0 <= t < |s.threads| && s.threads[t].Done? ==> s.reps == 1 && s.threads[t].rep == 0
  {
    RunInv(run, k);
    var s := run[k];
    forall t | 0 <= t < |s.threads| && s.threads[t].Done? ensures s.reps == 1 && s.threads[t].rep == 0 {
      assert PcInv(s, s.threads[t]);
    }
  }

  /** The data of a root is there only after it arrived. */
  lemma {:induction false} ReadyArrived(run: seq<State>, k: nat)
    requires IsRun(run) && k < |run| && |run[k].roots| == 1 && run[k].roots[0].ready
    ensures exists i :: 0 <= i < k && ArrivalOf(run[i], run[i+1], 0)
  {
    if k > 0 {
      RunInv(run, k - 1);
      assert Next(run[k-1], run[k]);
      if |run[k-1].roots| == 1 && run[k-1].roots[0].ready {
        ReadyArrived(run, k - 1);
      } else {
        BecomesReady(run[k-1], run[k]);
        assert ArrivalOf(run[k-1], run[k-1+1], 0);
      }
    }
  }

  lemma MoveBringsNoData(s: State, t: Thread, hold: bool)
    requires Inv(s) && t < |s.threads| && Enabled(s, t)
    ensures var s' := Move(s, t, hold);
            |s'.roots| == 1 && s'.roots[0].ready ==> |s.roots| == 1 && s.roots[0].ready
  {
    assert PcInv(s, s.threads[t]);
  }

  lemma BecomesReady(s: State, s': State)
    requires Inv(s) && Next(s, s') && |s'.roots| == 1 && s'.roots[0].ready
    requires |s.roots| == 1 ==> !s.roots[0].ready
    ensures ArrivalOf(s, s', 0)
  {
    if t: Thread, hold :| StepOf(s, s', t, hold) {
      MoveBringsNoData(s, t, hold);
    } else {
      var r :| ArrivalOf(s, s', r);
    }
  }

  /** A representative is made only after the data of the root arrived from outside. */
  lemma RepAfterArrival(run: seq<State>, k: nat)
    requires IsRun(run) && k < |run| && run[k].reps > 0
    ensures exists i :: 0 <= i < k && ArrivalOf(run[i], run[i+1], 0)
  {
    OneRootOneRep(run, k);
    ReadyArrived(run, k);
  }

  /** At most one thread at a time is between taking the mutex of the root and giving it up; a
      thread that waits for the data is not. While a thread fills the entry or publishes its
      root, nobody else has an accessor on the entry. */
  lemma MutualExclusion(run: seq<State>, k: nat, t: Thread, u: Thread)
    requires IsRun(run) && k < |run| && t < |run[k].threads| && u < |run[k].threads| && t != u
    ensures var p, q := run[k].threads[t], run[k].threads[u];
            && !((p.Check? || p.Recheck? || p.Unlock?) && (q.Check? || q.Recheck? || q.Unlock?))
            && !((p.Fill? || p.Publish?) && (q.Fill? || q.Publish? || q.Found? || q.Lost?))
    ensures |run[k].roots| == 1 && run[k].roots[0].mutex == Some(t) ==>
              var p := run[k].threads[t]; p.Check? || p.Recheck? || p.Unlock?
  {
    RunInv(run, k);
    var s := run[k];
    assert PcInv(s, s.threads[t]) && PcInv(s, s.threads[u]);
    assert s.writer == Some(t) <==> HoldsEntry(s.threads[t]);
    assert s.writer == Some(u) <==> HoldsEntry(s.threads[u]);
    assert u in s.readers <==> s.threads[u].Found?;
  }

  /** Any two threads, whenever they return, return the same representative. */
  lemma EveryoneAgrees(run: seq<State>, i: nat, j: nat, t: Thread, u: Thread)
    requires IsRun(run) && i < |run| && j < |run| && t < |run[i].threads| && u < |run[j].threads|
    requires run[i].threads[t].Done? && run[j].threads[u].Done?
    ensures run[i].threads[t].rep == run[j].threads[u].rep
  {
    RunRefines(run);
    Agreement(seq(|run|, i requires 0 <= i < |run| => Abs(run[i])), i, j, t, u);
  }

  // ----- progress -----

  function Rank(pc: Pc): nat {
    match pc
    case Find(retry) => if retry then 9 else 13
    case Insert => 12
    case Fill => 11
    case Publish(_) => 10
    case Lost => 10
    case Found => 8
    case Lock(_) => 7
    case Check(_) => 6
    case Wait(_) => 5
    case Relock(_) => 4
    case Recheck(_) => 3
    case Unlock(_, _) => 2
    case Cache(_) => 1
    case Done(_) => 0
  }

  function Measure(s: State): nat {
    Total(Rank, s.threads) + if s.roots != [] && s.roots[0].ready then 0 else 1
  }

  /** A lookup fails at most once: a retry always finds the entry. */
  lemma RetryFinds(s: State, t: Thread, hold: bool)
    requires Inv(s) && t < |s.threads| && s.threads[t] == Find(true) && Enabled(s, t)
    ensures Move(s, t, hold).threads[t] == Found
  {
    assert PcInv(s, s.threads[t]);
  }

  lemma MoveDecreases(s: State, t: Thread, hold: bool)
    requires Inv(s) && t < |s.threads| && Enabled(s, t)
    ensures Measure(Move(s, t, hold)) < Measure(s)
  {
    var s' := Move(s, t, hold);
    assert PcInv(s, s.threads[t]);
    assert s'.threads == s.threads[t := s'.threads[t]];
    assert Rank(s'.threads[t]) < Rank(s.threads[t]);
    TotalUpdate(Rank, s.threads, t, s'.threads[t]);
  }

  lemma NextDecreases(s: State, s': State)
    requires Inv(s) && Next(s, s')
    ensures Measure(s') < Measure(s)
  {
    hide Inv, Move, Enabled, Measure;
    if t, hold :| StepOf(s, s', t, hold) {
      MoveDecreases(s, t, hold);
    } else {
      var r :| ArrivalOf(s, s', r);
      ArriveDecreases(s, r);
    }
  }

  lemma ArriveDecreases(s: State, r: nat)
    requires Inv(s) && CanArrive(s, r)
    ensures Measure(Arrive(s, r)) < Measure(s)
  {
    assert Arrive(s, r).threads == s.threads;
  }

  /** A thread that the others may be waiting for: the writer of the entry, a reader, the
      owner of the mutex, or else any thread. */
  ghost function Holder(s: State, t: Thread): Thread {
    if s.writer.Some? then s.writer.value
    else if s.readers != {} then var u :| u in s.readers; u
    else if |s.roots| == 1 && s.roots[0].mutex.Some? then s.roots[0].mutex.value
    else t
  }

  lemma HolderMoves(s: State, t: Thread)
    requires Inv(s) && t < |s.threads| && !s.threads[t].Done?
    ensures var u := Holder(s, t);
            u < |s.threads| && if Enabled(s, u) then !Waits(s, u, true) else CanArrive(s, 0)
  {
    var u := Holder(s, t);
    assert u < |s.threads|;
    assert PcInv(s, s.threads[u]);
    assert u in s.readers <==> s.threads[u].Found?;
    assert s.writer == Some(u) <==> HoldsEntry(s.threads[u]);
  }

  /** As long as a thread has not returned, something can happen, even where inserting waits
      for the winner and for readers: no reachable state is stuck. */
  lemma NotStuck(s: State, t: Thread)
    requires Inv(s) && t < |s.threads| && !s.threads[t].Done?
    ensures exists s' :: PatientNext(s, s') && Next(s, s')
  {
    var u := Holder(s, t);
    HolderMoves(s, t);
    hide Inv, Move, Arrive, Holder;
    if Enabled(s, u) {
      var s' := Move(s, u, true);
      assert StepOf(s, s', u, true) && PatientNext(s, s') && Next(s, s');
    } else {
      var s' := Arrive(s, 0);
      assert ArrivalOf(s, s', 0) && PatientNext(s, s') && Next(s, s');
    }
  }

  lemma {:induction false} RunShrinks(run: seq<State>, k: nat)
    requires IsRun(run) && k < |run|
    ensures Measure(run[k]) + k <= Measure(run[0])
  {
    hide Inv, Next, Measure;
    if k > 0 {
      RunShrinks(run, k - 1);
      RunInv(run, k - 1);
      NextDecreases(run[k-1], run[k]);
    }
  }

  /** No run of `n` threads has more than 13n + 1 steps, and where a run can go no further,
      with or without waiting inserts, every thread has returned the one representative. */
  lemma RunsEnd(run: seq<State>)
    requires IsRun(run)
    ensures |run| <= 13 * |run[0].threads| + 2
    ensures var s := run[|run|-1];
            Final(s) ==> forall t :: 0 <= t < |s.threads| ==> s.threads[t] == Done(0)
  {
    RunShrinks(run, |run| - 1);
    TotalAtMost(Rank, run[0].threads, 13);
    var s := run[|run|-1];
    RunInv(run, |run| - 1);
    OneRootOneRep(run, |run| - 1);
    if Final(s) {
      forall t | 0 <= t < |s.threads| ensures s.threads[t] == Done(0) {
        if !s.threads[t].Done? { NotStuck(s, t); }
      }
    }
  }

  // ----- runs that go to their end -----

  /** Every run can be continued until nothing can happen any more. */
  lemma {:induction false} RunsGoOn(run: seq<State>) returns (run': seq<State>)
    requires IsRun(run)
    ensures IsRun(run') && run <= run' && Final(run'[|run'|-1])
    decreases 13 * |run[0].threads| + 3 - |run|
  {
    RunsEnd(run);
    run' := run;
    var s := run[|run|-1];
    if !Final(s) {
      var s' :| PatientNext(s, s');
      assert Next(s, s');
      assert (run + [s'])[0] == run[0];
      RunsEnd(run + [s']);
      run' := RunsGoOn(run + [s']);
    }
  }

  /** So for any number of threads there is a run in which all of them return. */
  lemma SomeRunServesAll(n: nat) returns (run: seq<State>)
    ensures IsRun(run) && |run[0].threads| == n
    ensures var s := run[|run|-1]; |s.threads| == n && forall t :: 0 <= t < n ==> s.threads[t] == Done(0)
  {
    run := [State(seq(n, i => Find(false)), None, None, {}, [], 0)];
    run := RunsGoOn(run);
    RunsEnd(run);
    RunInv(run, |run| - 1);
  }
}
