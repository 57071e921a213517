// The argument block: the frontend joins its arguments, each with a NUL behind it, and a
// backend node splits the block again without copying.
module ArgBlock {
  import opened CStrings

  function Encode(args: seq<string>): seq<char> {
    if args == [] then [] else args[0] + [NUL] + Encode(args[1..])
  }

  lemma EncodeExample()
    ensures Encode(["ls", "", "-l"]) == "ls\0\0-l\0"
  {
    var args := ["ls", "", "-l"];
    assert args[1..] == ["", "-l"] && args[1..][1..] == ["-l"] && args[1..][1..][1..] == [];
  }

  /** The number of NULs. */
  function Nuls(data: seq<char>): (n: nat)
    ensures n <= |data|
  {
    if data == [] then 0 else Nuls(data[..|data|-1]) + if data[|data|-1] == NUL then 1 else 0
  }

  /** Offset `off` lies behind exactly `j` NULs, the last of them just in front of it. */
  predicate Behind(data: seq<char>, off: nat, j: nat) {
    off <= |data| && Nuls(data[..off]) == j && if j == 0 then off == 0 else off > 0 && data[off-1] == NUL
  }

  /** The frontend's loop over its arguments. */
  method Init(args: seq<string>) returns (str: seq<char>)
    ensures str == Encode(args)
  {
    str := [];
    var i := 0;
    assert args[0..] == args;
    while i < |args|
      invariant i <= |args| && Encode(args) == str + Encode(args[i..])
    {
      assert args[i..][1..] == args[i+1..];
      str := str + args[i];
      str := str + [NUL];
      i := i + 1;
    }
    assert args[i..] == [];
  }

  lemma NulsStep(data: seq<char>, i: nat)
    requires i < |data|
    ensures Nuls(data[..i+1]) == Nuls(data[..i]) + if data[i] == NUL then 1 else 0
  {
    assert data[..i+1][..i] == data[..i];
  }

  lemma NulsWhole(data: seq<char>)
    ensures Nuls(data[..|data|]) == Nuls(data)
  {
    assert data[..|data|] == data;
  }

  /** A backend's representative: pointers into the block, which has a NUL behind it. */
  class CmdLineArgs {
    const data: seq<char>
    var argc: nat
    var argv: seq<Ptr>

    /** Whatever the block: the count is the number of its NULs, entry `j` points behind the
        `j`-th, and a null pointer follows. There is an entry 0 even when the count is 0. */
    constructor (str: seq<char>)
      ensures data == str && argc == Nuls(str)
      ensures |argv| == (if argc == 0 then 1 else argc) + 1 && argv[|argv|-1] == Null
      ensures forall j :: 0 <= j < |argv| - 1 ==> argv[j].At? && Behind(str, argv[j].off, j)
    {
      data := str;
      argc, argv := 0, [];
      new;
      var len, i := |data|, 0;
      assert data[..0] == [];
      while i < len
        invariant i <= len && argc == Nuls(data[..i]) && argv == []
      {
        NulsStep(data, i);
        if data[i] == NUL {
          argc := argc + 1;
        }
        i := i + 1;
      }
      assert data[..len] == data;

      argv := argv + [At(0)];
      var j := 1;
      i := 0;
      while j < argc
        invariant i <= len && 1 <= j == |argv| && (argc > 0 ==> j <= argc) && (argc == 0 ==> j == 1)
        invariant Nuls(data[..i]) == j - 1 && argc == Nuls(data)
        invariant forall k :: 0 <= k < j ==> argv[k].At? && Behind(data, argv[k].off, k)
        decreases len - i
      {
        NulsWhole(data);
        NulsStep(data, i);
        if data[i] == NUL {
          argv := argv + [At(i + 1)];
          j := j + 1;
        }
        i := i + 1;
      }
      argv := argv + [Null];
    }
  }

  // ----- the round trip -----

  lemma {:induction false} NulsSplit(a: seq<char>, b: seq<char>)
    ensures Nuls(a + b) == Nuls(a) + Nuls(b)
  {
    if b == [] {
      assert a + b == a;
    } else {
      NulsSplit(a, b[..|b|-1]);
      assert (a + b)[..|a + b|-1] == a + b[..|b|-1];
    }
  }

  lemma {:induction false} NoNuls(s: string)
    requires NUL !in s
    ensures Nuls(s) == 0
  {
    if s != [] { NoNuls(s[..|s|-1]); }
  }

  lemma {:induction false} EncodeCount(args: seq<string>)
    requires forall a <- args :: NUL !in a
    ensures Nuls(Encode(args)) == |args|
  {
    if args != [] {
      EncodeCount(args[1..]);
      NoNuls(args[0]);
      NulsSplit(args[0] + [NUL], Encode(args[1..]));
      NulsSplit(args[0], [NUL]);
      assert [NUL][..0] == [];
    }
  }

  /** A NUL just in front counts. */
  lemma NulInFront(data: seq<char>, off: nat)
    requires 0 < off <= |data| && data[off-1] == NUL
    ensures Nuls(data[..off]) > 0
  {
    NulsStep(data, off - 1);
  }

  /** What lies behind some NULs of a block lies behind one less of the block without its first
      argument. */
  lemma BehindFirst(head: string, rest: seq<char>, off: nat, j: nat)
    requires NUL !in head && j > 0 && Behind(head + [NUL] + rest, off, j)
    ensures off > |head| && Behind(rest, off - |head| - 1, j - 1)
  {
    var first := head + [NUL];
    var data := first + rest;
    NoNuls(head);
    NulsSplit(head, [NUL]);
    assert [NUL][..0] == [];
    assert forall k :: 0 <= k < |head| ==> data[k] == head[k];
    assert data[..off] == first + rest[..off - |first|];
    NulsSplit(first, rest[..off - |first|]);
    if off == |first| {
      assert rest[..0] == [];
    } else {
      assert data[off-1] == rest[off - |first| - 1];
      NulInFront(rest, off - |first|);
    }
  }

  /** Behind `j` NULs of the block, argument `j` starts. */
  lemma {:induction false} EncodeAt(args: seq<string>, off: nat, j: nat, after: seq<char>)
    requires (forall a <- args :: NUL !in a) && j < |args| && Behind(Encode(args), off, j)
    ensures CString(Encode(args)[off..] + after) == args[j]
  {
    var rest := Encode(args[1..]);
    assert Encode(args) == args[0] + [NUL] + rest && args[0] in args;
    hide Encode, Nuls, CString;
    if j == 0 {
      assert Encode(args)[0..] + after == args[0] + [NUL] + (rest + after);
      CStringOf(args[0], rest + after);
    } else {
      BehindFirst(args[0], rest, off, j);
      DropFirst(args[0], rest, off);
      EncodeAt(args[1..], off - |args[0]| - 1, j - 1, after);
    }
  }

  lemma DropFirst(head: string, rest: seq<char>, off: nat)
    requires |head| < off <= |head| + 1 + |rest|
    ensures (head + [NUL] + rest)[off..] == rest[off - |head| - 1..]
  {
  }

  /** Every list of NUL-free arguments comes back with its count and its strings; the entry at
      the count is the null pointer if and only if the list is not empty. */
  method RoundTrip(args: seq<string>) returns (rep: CmdLineArgs)
    requires forall a <- args :: NUL !in a
    ensures rep.argc == |args| && rep.argc < |rep.argv|
    ensures forall j :: 0 <= j < |args| ==>
              && rep.argv[j].At? && rep.argv[j].off <= |rep.data|
              && CString(rep.data[rep.argv[j].off..] + [NUL]) == args[j]
    ensures rep.argv[rep.argc] == Null <==> args != []
  {
    var str := Init(args);
    rep := new CmdLineArgs(str);
    EncodeCount(args);
    forall j | 0 <= j < |args|
      ensures rep.argv[j].At? && rep.argv[j].off <= |str| && CString(str[rep.argv[j].off..] + [NUL]) == args[j]
    {
      assert Behind(str, rep.argv[j].off, j);
      EncodeAt(args, rep.argv[j].off, j, [NUL]);
    }
  }
}
