// The receive buffer of the command server: an array that is filled from the front, and what
// sequences of chunks amount to.
module ReceiveBuffer {

  function Concat(pieces: seq<seq<char>>): seq<char> {
    if pieces == [] then [] else pieces[0] + Concat(pieces[1..])
  }

  lemma ConcatNone()
    ensures Concat([]) == []
  {
  }

  lemma {:induction false} ConcatMore(p: seq<seq<char>>, c: seq<char>)
    ensures Concat(p + [c]) == Concat(p) + c
  {
    if p == [] {
      assert p + [c] == [c] && [c][1..] == [] && c + [] == c;
    } else {
      assert (p + [c])[1..] == p[1..] + [c];
      ConcatMore(p[1..], c);
    }
  }

  lemma {:induction false} ConcatSplit(p: seq<seq<char>>, q: seq<seq<char>>)
    ensures Concat(p + q) == Concat(p) + Concat(q)
  {
    if p == [] {
      assert p + q == q;
    } else {
      assert (p + q)[1..] == p[1..] + q;
      ConcatSplit(p[1..], q);
    }
  }

  class Inbox {
    const data: array<char>
    var len: nat

    /** At least one place stays free. */
    ghost predicate Valid()
      reads this
    {
      len < data.Length
    }

    function Contents(): (s: seq<char>)
      requires len <= data.Length
      reads this, data
    {
      data[..len]
    }

    constructor (size: nat)
      requires size > 0
      ensures Valid() && fresh(data) && data.Length == size && Contents() == []
    {
      data := new char[size];
      len := 0;
    }

    /** `ok` is the assertion: where it fails nothing is stored. */
    method Append(chunk: seq<char>) returns (ok: bool)
      requires Valid()
      modifies this, data
      ensures Valid() && (ok <==> |old(Contents())| + |chunk| < data.Length)
      ensures Contents() == old(Contents()) + if ok then chunk else []
    {
      if !(|chunk| < data.Length - len) {
        return false;
      }
      ghost var was := Contents();
      forall i | 0 <= i < |chunk| {
        data[len + i] := chunk[i];
      }
      len := len + |chunk|;
      assert Contents() == was + chunk;
      return true;
    }

    /** Chunks that arrive one after the other, up to the first whose assertion fails. */
    method AppendAll(chunks: seq<seq<char>>) returns (ok: bool)
      requires Valid()
      modifies this, data
      ensures Valid() && (ok <==> |old(Contents())| + |Concat(chunks)| < data.Length)
      ensures if ok then Contents() == old(Contents()) + Concat(chunks) else old(Contents()) <= Contents()
    {
      var i := 0;
      ConcatNone();
      assert chunks[..0] == [];
      hide Concat;
      while i < |chunks|
        invariant i <= |chunks| && Valid() && Contents() == old(Contents()) + Concat(chunks[..i])
      {
        assert chunks[..i+1] == chunks[..i] + [chunks[i]] && chunks == chunks[..i+1] + chunks[i+1..];
        ConcatMore(chunks[..i], chunks[i]);
        ConcatSplit(chunks[..i+1], chunks[i+1..]);
        ghost var was := Contents();
        var fits := Append(chunks[i]);
        if !fits {
          return false;
        }
        assert Contents() == old(Contents()) + Concat(chunks[..i+1]);
        i := i + 1;
      }
      assert chunks[..i] == chunks;
      return true;
    }

    /** A window is read out of the array at the moment it is handed over. */
    method Window(sent: nat, sendLen: nat) returns (piece: seq<char>)
      requires Valid() && sent + sendLen <= len
      ensures piece == Contents()[sent..sent + sendLen]
    {
      piece := data[sent..sent + sendLen];
    }

    method Clear()
      requires Valid()
      modifies this`len
      ensures Valid() && Contents() == []
    {
      len := 0;
    }
  }
}
