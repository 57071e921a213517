// What resolving an Ebb on a node promises, whatever the protocol: the first thread to get
// that far makes the one object of the node, and every thread is handed that object.
module GetOrCreate {
  import opened Options

  type Thread = nat
  type Object = nat

  /** The object of the node, and what each finished thread was handed and has cached. */
  datatype Spec = Spec(made: Option<Object>, handed: map<Thread, Object>)

  ghost predicate Init(s: Spec) {
    s == Spec(None, map[])
  }

  ghost predicate Make(s: Spec, s': Spec) {
    s.made.None? && s'.made.Some? && s'.handed == s.handed
  }

  ghost predicate Hand(s: Spec, s': Spec, t: Thread) {
    s.made.Some? && t !in s.handed && s' == s.(handed := s.handed[t := s.made.value])
  }

  ghost predicate Next(s: Spec, s': Spec) {
    s' == s || Make(s, s') || exists t :: Hand(s, s', t)
  }

  ghost predicate IsRun(run: seq<Spec>) {
    && run != [] && Init(run[0])
    && forall i :: 0 < i < |run| ==> Next(run[i-1], run[i])
  }

  /** Over every run: nobody is handed anything but the object made, and neither the object
      nor what a thread was handed ever changes again. */
  lemma {:induction false} RunIsSafe(run: seq<Spec>)
    requires IsRun(run)
    ensures forall i, t :: 0 <= i < |run| && t in run[i].handed ==> run[i].made == Some(run[i].handed[t])
    ensures forall i, j :: 0 <= i <= j < |run| && run[i].made.Some? ==> run[j].made == run[i].made
    ensures forall i, j, t :: 0 <= i <= j < |run| && t in run[i].handed ==>
              t in run[j].handed && run[j].handed[t] == run[i].handed[t]
    decreases |run|
  {
    if |run| > 1 {
      var n := |run| - 1;
      var before := run[..n];
      assert forall i :: 0 <= i < n ==> before[i] == run[i];
      RunIsSafe(before);
      assert Next(run[n-1], run[n]);
      forall i | 0 <= i < n && run[i].made.Some?
        ensures run[n].made == run[i].made
      {
        assert before[n-1].made == before[i].made;
      }
      forall i, t | 0 <= i < n && t in run[i].handed
        ensures t in run[n].handed && run[n].handed[t] == run[i].handed[t]
      {
        assert t in before[n-1].handed;
      }
      forall t | t in run[n].handed
        ensures run[n].made == Some(run[n].handed[t])
      {
        if t in run[n-1].handed { assert before[n-1].made == Some(before[n-1].handed[t]); }
      }
    }
  }

  /** Whenever and to whomever an object is handed, it is the same one. */
  lemma Agreement(run: seq<Spec>, i: nat, j: nat, t: Thread, u: Thread)
    requires IsRun(run) && i < |run| && j < |run| && t in run[i].handed && u in run[j].handed
    ensures run[i].handed[t] == run[j].handed[u]
  {
    RunIsSafe(run);
  }
}
