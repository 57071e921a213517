// The shared counter and the per-core counter: one representative for each core, whose
// values are added up when the counter is read.
module Counters {

  const MAX_CPUS: nat := 256

  /** The value of a 32-bit signed integer after wrapping around. */
  function Wrap(n: int): int {
    (n + 0x8000_0000) % 0x1_0000_0000 - 0x8000_0000
  }

  lemma WrapAdd(a: int, b: int)
    ensures Wrap(Wrap(a) + b) == Wrap(a + b)
  {
    var q := (a + 0x8000_0000) / 0x1_0000_0000;
    assert Wrap(a) == a - 0x1_0000_0000 * q;
    ModShift(a + b + 0x8000_0000, q);
  }

  lemma ModShift(n: int, q: int)
    ensures (n - 0x1_0000_0000 * q) % 0x1_0000_0000 == n % 0x1_0000_0000
  {
  }

  /** An increment or decrement made on some core. */
  datatype Op = Op(core: nat, up: bool)

  function Delta(op: Op): int {
    if op.up then 1 else -1
  }

  /** The one atomic integer of the shared counter. */
  function Shared(ops: seq<Op>): int {
    if ops == [] then 0 else Wrap(Shared(ops[..|ops|-1]) + Delta(ops[|ops|-1]))
  }

  datatype Rep = Rep(core: nat, val: int)

  /** The representatives, in order of their cores. The first use on a core makes its own,
      starting from 0. */
  function Bump(reps: seq<Rep>, core: nat, d: int): seq<Rep> {
    if reps == [] || core < reps[0].core then [Rep(core, Wrap(d))] + reps
    else if core == reps[0].core then [Rep(core, Wrap(reps[0].val + d))] + reps[1..]
    else [reps[0]] + Bump(reps[1..], core, d)
  }

  function Reps(ops: seq<Op>): seq<Rep> {
    if ops == [] then [] else Bump(Reps(ops[..|ops|-1]), ops[|ops|-1].core, Delta(ops[|ops|-1]))
  }

  predicate Sorted(reps: seq<Rep>) {
    forall i, j :: 0 <= i < j < |reps| ==> reps[i].core < reps[j].core
  }

  function Sum(reps: seq<Rep>): int {
    if reps == [] then 0 else reps[0].val + Sum(reps[1..])
  }

  // ----- the sum over the representatives is the shared counter -----

  lemma {:induction false} BumpAdds(reps: seq<Rep>, core: nat, d: int)
    ensures Wrap(Sum(Bump(reps, core, d))) == Wrap(Sum(reps) + d)
  {
    var more := Bump(reps, core, d);
    if reps == [] || core < reps[0].core {
      assert more[1..] == reps;
      WrapAdd(d, Sum(reps));
    } else if core == reps[0].core {
      assert more[1..] == reps[1..];
      WrapAdd(reps[0].val + d, Sum(reps[1..]));
    } else {
      BumpAdds(reps[1..], core, d);
      assert more[1..] == Bump(reps[1..], core, d);
      WrapAdd(Sum(more[1..]), reps[0].val);
      WrapAdd(Sum(reps[1..]) + d, reps[0].val);
    }
  }

  ghost predicate Uses(reps: seq<Rep>, core: nat) {
    exists i :: 0 <= i < |reps| && reps[i].core == core
  }

  lemma {:induction false} BumpUses(reps: seq<Rep>, core: nat, d: int, k: nat)
    requires k < |Bump(reps, core, d)|
    ensures var c := Bump(reps, core, d)[k].core; c == core || Uses(reps, c)
  {
    var more := Bump(reps, core, d);
    if reps != [] && core > reps[0].core {
      if k == 0 {
        assert reps[0].core == more[0].core;
      } else {
        BumpUses(reps[1..], core, d, k - 1);
        if more[k].core != core {
          var i :| 0 <= i < |reps[1..]| && reps[1..][i].core == more[k].core;
          assert reps[i+1].core == more[k].core;
        }
      }
    } else if k > 0 {
      var i := if reps != [] && core == reps[0].core then k else k - 1;
      assert reps[i].core == more[k].core;
    }
  }

  lemma SortedCons(x: Rep, rest: seq<Rep>)
    requires Sorted(rest) && forall k :: 0 <= k < |rest| ==> x.core < rest[k].core
    ensures Sorted([x] + rest)
  {
  }

  lemma {:induction false} BumpSorted(reps: seq<Rep>, core: nat, d: int)
    requires Sorted(reps)
    ensures Sorted(Bump(reps, core, d))
  {
    if reps == [] || core < reps[0].core {
      SortedCons(Rep(core, Wrap(d)), reps);
    } else if core == reps[0].core {
      SortedCons(Rep(core, Wrap(reps[0].val + d)), reps[1..]);
    } else {
      var rest := Bump(reps[1..], core, d);
      BumpSorted(reps[1..], core, d);
      forall k | 0 <= k < |rest| ensures reps[0].core < rest[k].core {
        BumpUses(reps[1..], core, d, k);
      }
      SortedCons(reps[0], rest);
    }
  }

  /** Whatever the cores and the order of their increments and decrements, the sum over the
      representatives is the value of the shared counter after the same operations. */
  lemma {:induction false} SumIsShared(ops: seq<Op>)
    ensures Wrap(Sum(Reps(ops))) == Shared(ops) && Sorted(Reps(ops))
  {
    if ops != [] {
      var init, op := ops[..|ops|-1], ops[|ops|-1];
      SumIsShared(init);
      BumpAdds(Reps(init), op.core, Delta(op));
      BumpSorted(Reps(init), op.core, Delta(op));
      WrapAdd(Sum(Reps(init)), Delta(op));
    }
  }

  // ----- what the counters count -----

  /** Increments less decrements. */
  function Net(ops: seq<Op>): int {
    |Ups(ops, true)| - |Ups(ops, false)|
  }

  /** The operations of one direction. */
  function Ups(ops: seq<Op>, up: bool): seq<Op> {
    if ops == [] then []
    else Ups(ops[..|ops|-1], up) + if ops[|ops|-1].up == up then [ops[|ops|-1]] else []
  }

  /** The operations made on one core. */
  function On(ops: seq<Op>, core: nat): seq<Op> {
    if ops == [] then []
    else On(ops[..|ops|-1], core) + if ops[|ops|-1].core == core then [ops[|ops|-1]] else []
  }

  lemma WrapFits(n: int)
    ensures -0x8000_0000 <= Wrap(n) < 0x8000_0000 && (Wrap(n) - n) % 0x1_0000_0000 == 0
    ensures -0x8000_0000 <= n < 0x8000_0000 ==> Wrap(n) == n
  {
  }

  lemma NetMore(ops: seq<Op>, op: Op)
    ensures Net(ops + [op]) == Net(ops) + Delta(op)
  {
    assert (ops + [op])[..|ops|] == ops;
  }

  /** The shared counter holds the increments less the decrements, as far as 32 bits reach. */
  lemma {:induction false} SharedIsNet(ops: seq<Op>)
    ensures Shared(ops) == Wrap(Net(ops))
  {
    if ops != [] {
      var init, op := ops[..|ops|-1], ops[|ops|-1];
      assert ops == init + [op];
      SharedIsNet(init);
      NetMore(init, op);
      WrapAdd(Net(init), Delta(op));
    }
  }

  lemma {:induction false} BumpVal(reps: seq<Rep>, core: nat, d: int, c: nat)
    requires Sorted(reps)
    ensures ValOf(Bump(reps, core, d), c) == if c == core then Wrap(ValOf(reps, c) + d) else ValOf(reps, c)
  {
    if reps != [] && core > reps[0].core {
      assert Sorted(reps[1..]);
      BumpVal(reps[1..], core, d, c);
    } else if reps == [] || core < reps[0].core {
      BehindFirst(reps, core);
    }
  }

  /** The value of the representative of a core; 0 if there is none. */
  function ValOf(reps: seq<Rep>, core: nat): int {
    if reps == [] then 0 else if reps[0].core == core then reps[0].val else ValOf(reps[1..], core)
  }

  lemma {:induction false} BehindFirst(reps: seq<Rep>, core: nat)
    requires Sorted(reps) && (reps != [] ==> core < reps[0].core)
    ensures ValOf(reps, core) == 0
  {
    if reps != [] {
      assert |reps| > 1 ==> reps[0].core < reps[1].core;
      BehindFirst(reps[1..], core);
    }
  }

  /** Each representative holds the increments less the decrements of its own core. */
  lemma {:induction false} RepIsNet(ops: seq<Op>, core: nat)
    ensures ValOf(Reps(ops), core) == Wrap(Net(On(ops, core)))
  {
    if ops != [] {
      var init, op := ops[..|ops|-1], ops[|ops|-1];
      RepIsNet(init, core);
      SumIsShared(init);
      BumpVal(Reps(init), op.core, Delta(op), core);
      if op.core == core {
        NetMore(On(init, core), op);
        WrapAdd(Net(On(init, core)), Delta(op));
      } else {
        assert On(init, core) + [] == On(init, core);
      }
    }
  }

  // ----- the other way of reading assigns instead of adding -----

  /** What `gatherVal` returns: the value of the representative with the highest core. */
  function LastVal(reps: seq<Rep>): int {
    if reps == [] then 0 else reps[|reps|-1].val
  }

  lemma {:induction false} LastIsVal(reps: seq<Rep>)
    requires Sorted(reps) && reps != []
    ensures LastVal(reps) == ValOf(reps, reps[|reps|-1].core)
  {
    if |reps| > 1 {
      assert Sorted(reps[1..]) && reps[0].core < reps[|reps|-1].core;
      LastIsVal(reps[1..]);
    }
  }

  /** So that is the increments less the decrements of that core alone. */
  lemma LastIsNet(ops: seq<Op>)
    requires Reps(ops) != []
    ensures var reps := Reps(ops); LastVal(reps) == Wrap(Net(On(ops, reps[|reps|-1].core)))
  {
    SumIsShared(ops);
    hide Reps, LastVal, ValOf;
    LastIsVal(Reps(ops));
    RepIsNet(ops, Reps(ops)[|Reps(ops)|-1].core);
  }

  ghost predicate OnCores(ops: seq<Op>, cores: set<nat>) {
    forall op <- ops :: op.core in cores
  }

  lemma {:induction false} OneCore(ops: seq<Op>, core: nat)
    requires OnCores(ops, {core})
    ensures Reps(ops) == if ops == [] then [] else [Rep(core, Shared(ops))]
  {
    if ops != [] {
      var init, op := ops[..|ops|-1], ops[|ops|-1];
      assert forall o <- init :: o in ops;
      OneCore(init, core);
      assert op in ops && op.core == core;
    }
  }

  /** `gatherVal` agrees with the shared counter on all histories over a set of cores if and
      only if the set has at most one core. */
  lemma GatherValIffOneCore(cores: set<nat>)
    ensures (forall ops :: OnCores(ops, cores) ==> LastVal(Reps(ops)) == Shared(ops)) <==>
            forall c, d :: c in cores && d in cores ==> c == d
  {
    if c, d :| c in cores && d in cores && c < d {
      var one, two := Op(c, true), Op(d, true);
      assert [one][..0] == [] && [one, two][..1] == [one];
      assert Reps([one]) == [Rep(c, 1)] && Shared([one]) == 1;
      var reps := [Rep(c, 1)];
      assert reps[1..] == [] && Bump(reps[1..], d, 1) == [Rep(d, 1)];
      assert Bump(reps, d, 1) == [Rep(c, 1), Rep(d, 1)];
      var ops := [one, two];
      assert ops[|ops|-1] == two && ops[..|ops|-1] == [one];
      assert Reps(ops) == [Rep(c, 1), Rep(d, 1)] && Shared(ops) == 2;
      assert OnCores([one, two], cores);
    } else {
      forall ops: seq<Op> | OnCores(ops, cores) ensures LastVal(Reps(ops)) == Shared(ops) {
        if ops != [] {
          assert ops[0] in ops;
          OneCore(ops, ops[0].core);
        }
      }
    }
  }

  // ----- the root object -----

  class MultiCounterRoot {
    var reps: seq<Rep>          // the ordered map of representatives
    ghost var history: seq<Op>

    ghost predicate Valid()
      reads this
    {
      reps == Reps(history) && Sorted(reps) && forall i :: 0 <= i < |reps| ==> reps[i].core < MAX_CPUS
    }

    constructor ()
      ensures Valid() && history == []
    {
      reps, history := [], [];
    }

    /** The representative of the calling core counts. */
    method Count(op: Op)
      requires Valid() && op.core < MAX_CPUS
      modifies this
      ensures Valid() && history == old(history) + [op]
    {
      var d := Delta(op);
      BumpSorted(reps, op.core, d);
      forall k | 0 <= k < |Bump(reps, op.core, d)| ensures Bump(reps, op.core, d)[k].core < MAX_CPUS {
        BumpUses(reps, op.core, d, k);
      }
      reps, history := Bump(reps, op.core, d), history + [op];
      assert history[..|history|-1] == old(history);
    }

    /** The sum over the representatives is what a shared counter would hold. */
    method OtherGatherVal() returns (gval: int)
      requires Valid()
      ensures gval == Shared(history) == Wrap(Net(history))
      ensures -0x8000_0000 <= Net(history) < 0x8000_0000 ==> gval == Net(history)
    {
      hide Reps, Shared, Net;
      SumIsShared(history);
      SharedIsNet(history);
      WrapFits(Net(history));
      gval := 0;
      var i := 0;
      assert reps[0..] == reps;
      while i < |reps|
        invariant i <= |reps| && Wrap(gval) == gval
        invariant Wrap(gval + Sum(reps[i..])) == Wrap(Sum(reps))
      {
        assert reps[i..][1..] == reps[i+1..];
        WrapAdd(gval + reps[i].val, Sum(reps[i+1..]));
        WrapAdd(gval + reps[i].val, 0);
        gval := Wrap(gval + reps[i].val);
        i := i + 1;
      }
      assert reps[i..] == [];
    }

    /** The representative of a core, if there is one. */
    method At(core: nat) returns (found: bool, val: int)
      ensures found <==> Uses(reps, core)
      ensures found ==> exists i :: 0 <= i < |reps| && reps[i] == Rep(core, val)
    {
      found, val := false, 0;
      var i := 0;
      while i < |reps|
        invariant i <= |reps| && !found
        invariant forall j :: 0 <= j < i ==> reps[j].core != core
      {
        if reps[i].core == core {
          return true, reps[i].val;
        }
        i := i + 1;
      }
    }

    /** Walks the array of representatives, and stops early once it has met one for each of
        the `cpus` processors. */
    method GatherVal(cpus: nat) returns (gval: int)
      requires Valid() && |reps| <= cpus
      ensures gval == LastVal(Reps(history))
    {
      gval := 0;
      var numCores, i := cpus, 0;
      ghost var met := 0;
      while numCores != 0 && i < MAX_CPUS
        invariant i <= MAX_CPUS && met <= |reps| && numCores + met == cpus
        invariant forall j :: 0 <= j < |reps| ==> (reps[j].core < i <==> j < met)
        invariant gval == LastVal(reps[..met])
      {
        var found, val := At(i);
        if found {
          var k :| 0 <= k < |reps| && reps[k] == Rep(i, val);
          assert k > 0 ==> reps[k-1].core < i;
          assert k == met;
          gval := val;
          numCores := numCores - 1;
          met := met + 1;
        }
        i := i + 1;
      }
      assert reps != [] ==> reps[|reps|-1].core < MAX_CPUS;
      assert met == |reps|;
      assert reps[..met] == reps;
    }
  }
}
