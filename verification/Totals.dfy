// Sums over the threads of a system.
module Totals {

  function Total<T>(rank: T -> nat, s: seq<T>): (n: nat) {
    if s == [] then 0 else rank(s[0]) + Total(rank, s[1..])
  }

  /** When one thread moves, the sum changes by the change of that thread. */
  lemma {:induction false} TotalUpdate<T>(rank: T -> nat, s: seq<T>, i: nat, x: T)
    requires i < |s|
    ensures Total(rank, s[i := x]) + rank(s[i]) == Total(rank, s) + rank(x)
  {
    if i == 0 {
      assert s[0 := x][1..] == s[1..];
    } else {
      assert s[i := x][1..] == s[1..][i-1 := x];
      TotalUpdate(rank, s[1..], i - 1, x);
    }
  }

  lemma {:induction false} TotalAtMost<T>(rank: T -> nat, s: seq<T>, bound: nat)
    requires forall x <- s :: rank(x) <= bound
    ensures Total(rank, s) <= bound * |s|
  {
    if s != [] {
      TotalAtMost(rank, s[1..], bound);
      assert bound * |s| == bound + bound * |s[1..]|;
    }
  }

  /** Where everyone counts for at most one, the sum is full exactly when everyone counts. */
  lemma {:induction false} TotalIsFull<T>(rank: T -> nat, s: seq<T>)
    requires forall t :: 0 <= t < |s| ==> rank(s[t]) <= 1
    ensures Total(rank, s) <= |s|
    ensures Total(rank, s) == |s| <==> forall t :: 0 <= t < |s| ==> rank(s[t]) == 1
  {
    if s != [] {
      var rest := s[1..];
      assert s == [s[0]] + rest && forall t :: 0 <= t < |rest| ==> rest[t] == s[t+1];
      TotalIsFull(rank, rest);
      if forall t :: 0 <= t < |rest| ==> rank(rest[t]) == 1 {
        assert forall t :: 0 < t < |s| ==> s[t] == rest[t-1];
      }
    }
  }

  // ----- threads that go through stages -----

  /** Counts a thread that has got past stage `k`. */
  function Past<T>(stage: T -> nat, k: nat): T -> nat {
    x => if stage(x) > k then 1 else 0
  }

  /** As many got past stage `k` as there are threads exactly when all did. */
  lemma CountIsFull<T>(stage: T -> nat, k: nat, s: seq<T>)
    ensures Total(Past(stage, k), s) <= |s|
    ensures Total(Past(stage, k), s) == |s| <==> forall t :: 0 <= t < |s| ==> stage(s[t]) > k
  {
    TotalIsFull(Past(stage, k), s);
    assert forall t :: 0 <= t < |s| ==> (Past(stage, k)(s[t]) == 1 <==> stage(s[t]) > k);
  }

  lemma {:induction false} NonePast<T>(stage: T -> nat, k: nat, s: seq<T>)
    requires forall t :: 0 <= t < |s| ==> stage(s[t]) <= k
    ensures Total(Past(stage, k), s) == 0
  {
    if s != [] { NonePast(stage, k, s[1..]); }
  }

  /** A thread that is as far behind as any. */
  lemma {:induction false} Slowest<T>(stage: T -> nat, s: seq<T>) returns (t: nat)
    requires s != []
    ensures t < |s| && forall u :: 0 <= u < |s| ==> stage(s[t]) <= stage(s[u])
  {
    t := 0;
    if |s| > 1 {
      var u := Slowest(stage, s[1..]);
      assert forall v :: 1 <= v < |s| ==> s[v] == s[1..][v-1];
      if stage(s[u+1]) < stage(s[0]) { t := u + 1; }
    }
  }

  /** A thread that moves to the next stage is counted by the counter of the stage it leaves
      and by no other. */
  lemma CountMoves<T>(stage: T -> nat, k: nat, s: seq<T>, t: nat, x: T)
    requires t < |s| && stage(x) == stage(s[t]) + 1
    ensures Total(Past(stage, k), s[t := x]) == Total(Past(stage, k), s) + if stage(s[t]) == k then 1 else 0
  {
    TotalUpdate(Past(stage, k), s, t, x);
  }
}
