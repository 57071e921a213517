// C strings in memory: characters up to a NUL, and pointers to them.
module CStrings {

  const NUL: char := '\0'

  /** A pointer into a block of memory. */
  datatype Ptr = Null | At(off: nat)

  /** The C string that starts a block of memory: everything before the first NUL. */
  function CString(mem: seq<char>): (s: string)
    ensures |s| <= |mem| && s == mem[..|s|]
    ensures NUL !in s
    ensures NUL in mem ==> |s| < |mem| && mem[|s|] == NUL
  {
    if mem == [] || mem[0] == NUL then [] else [mem[0]] + CString(mem[1..])
  }

  lemma {:induction false} CStringOf(s: string, after: seq<char>)
    requires NUL !in s
    ensures CString(s + [NUL] + after) == s
  {
    if s != [] {
      CStringOf(s[1..], after);
      assert (s + [NUL] + after)[1..] == s[1..] + [NUL] + after;
    }
  }
}
