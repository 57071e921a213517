// The way of the arguments of a run: quoted into one kernel command line when the image is
// booted, and split again by the application that starts on it.
module ArgvDelivery {
  import opened Argv
  import opened ArgvQuoting
  import opened ArgvSpec
  import opened CStrings

  /** NUL-free arguments arrive, all of them and exact, if and only if the line ends with a
      separator or the last argument was quoted without a loose end. */
  method PassArguments(args: seq<string>, styles: seq<Style>, trail: bool)
    returns (argc: nat, res: array<Ptr>, buf: array<char>)
    requires ValidStyles(args, styles) && forall a <- args :: NUL !in a
    ensures argc == |args| < res.Length && res[argc] == Null
    ensures Points(buf[..], res[..], args) <==>
            args == [] || trail || SelfDelimiting(args[|args|-1], styles[|args|-1])
    ensures args != [] ==> Points(buf[..], res[..], args[..|args|-1])
  {
    var line := Join(args, styles, trail) + [NUL];
    var err; ghost var copied;
    JoinIsCString(args, styles, trail, []);
    assert line + [] == line;
    RoundTrip(args, styles, trail);
    InMemoryExactness(Join(args, styles, trail));
    err, argc, res, buf, copied := StringToArgv(line);
    PointsIff(buf[..], res[..], InMemory(Join(args, styles, trail)).words, args);
  }

  /** The strings pointed to are known in only one way. */
  lemma PointsIff(mem: seq<char>, res: seq<Ptr>, stored: seq<string>, args: seq<string>)
    requires Points(mem, res, stored) && |args| == |stored|
    requires forall i :: 0 <= i < |args| - 1 ==> args[i] == stored[i]
    ensures Points(mem, res, args) <==> args == stored
    ensures args != [] ==> Points(mem, res, args[..|args|-1])
  {
    if Points(mem, res, args) {
      forall i | 0 <= i < |args| ensures args[i] == stored[i] {
        assert CString(mem[res[i].off..]) == args[i];
        assert CString(mem[res[i].off..]) == stored[i];
      }
    }
  }
}
