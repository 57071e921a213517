// `string_to_argv`: the words are unquoted in place, in the copy of the string they came
// from, while a vector of pointers into that copy grows.  A pointer is an offset.
module Argv {
  import opened ArgvSpec
  import opened CStrings

  datatype Err = OK | UNBALANCED_QUOTE

  // ----- the buffer -----

  /** Character `k` of the C string `s`, its NUL included. */
  function Byte(s: string, k: nat): char
    requires k <= |s|
  {
    if k < |s| then s[k] else NUL
  }

  /** The buffer holds the NUL-free string `s` and its NUL, untouched from `from` on. */
  ghost predicate Unread(mem: seq<char>, s: string, from: nat) {
    && |mem| == |s| + 1 && NUL !in s
    && from <= |s|
    && forall k :: from <= k < |mem| ==> mem[k] == Byte(s, k)
  }

  /** A finished argument: `text` and its NUL lie at `off` and end below `limit`. */
  ghost predicate Placed(mem: seq<char>, off: nat, text: string, limit: nat) {
    && off + |text| < limit <= |mem|
    && NUL !in text
    && mem[off..off + |text|] == text
    && mem[off + |text|] == NUL
  }

  lemma {:induction false} CStringIs(mem: seq<char>, text: string)
    requires NUL !in text && |text| < |mem| && mem[..|text|] == text && mem[|text|] == NUL
    ensures CString(mem) == text
  {
    if text != [] {
      assert mem[0] == text[0];
      assert mem[1..][..|text|-1] == text[1..];
      CStringIs(mem[1..], text[1..]);
    }
  }

  lemma PlacedIsCString(mem: seq<char>, off: nat, text: string, limit: nat)
    requires Placed(mem, off, text, limit)
    ensures CString(mem[off..]) == text
  {
    assert mem[off..][..|text|] == text;
    CStringIs(mem[off..], text);
  }

  // ----- quoted strings -----

  /** The NUL-free `text` lies at `off` and ends at `dest`. */
  ghost predicate Written(mem: seq<char>, off: nat, dest: nat, text: string) {
    && dest == off + |text| <= |mem|
    && mem[off..dest] == text && NUL !in text
  }

  /** Only the bytes from `lo` up to `hi` differ. */
  ghost predicate SameOutside(a: seq<char>, b: seq<char>, lo: nat, hi: nat) {
    |a| == |b| && forall k :: 0 <= k < |a| && !(lo <= k < hi) ==> a[k] == b[k]
  }

  /** Store one character at the write cursor and move it on. */
  method Put(buf: array<char>, dest0: nat, c: char, ghost off: nat, ghost text0: string)
    returns (dest: nat, ghost text: string)
    requires dest0 < buf.Length && c != NUL && Written(buf[..], off, dest0, text0)
    modifies buf
    ensures dest == dest0 + 1 && text == text0 + [c]
    ensures SameOutside(old(buf[..]), buf[..], dest0, dest)
    ensures Written(buf[..], off, dest, text)
  {
    buf[dest0] := c;
    dest, text := dest0 + 1, text0 + [c];
    assert buf[..][off..dest] == buf[..][off..dest0] + [c];
  }

  /** One step of `Raw`, when `text` has been read already. */
  lemma RawStep(s: string, src: nat, text: string)
    requires src <= |s|
    ensures
      var r := Raw(s[src..]).After(text);
      if src == |s| then r == Unbalanced
      else if s[src] == '\'' then r == Closed(text, s[src+1..])
      else if s[src] != '\\' then r == Raw(s[src+1..]).After(text + [s[src]])
      else if src + 1 == |s| then r == Unbalanced
      else r == Raw(s[src+2..]).After(text + RawEscape(s[src+1]))
  {
    var rest := s[src..];
    if src < |s| {
      assert rest[1..] == s[src+1..];
      if src + 1 < |s| { assert rest[2..] == s[src+2..]; }
      assert text + [] == text;
    }
  }

  lemma CookedStep(s: string, src: nat, text: string)
    requires src <= |s|
    ensures
      var r := Cooked(s[src..]).After(text);
      if src == |s| then r == Unbalanced
      else if s[src] == '"' then r == Closed(text, s[src+1..])
      else if s[src] != '\\' then r == Cooked(s[src+1..]).After(text + [s[src]])
      else if src + 1 == |s| then r == Unbalanced
      else r == Cooked(s[src+2..]).After(text + [CookedEscape(s[src+1])])
  {
    var rest := s[src..];
    if src < |s| {
      assert rest[1..] == s[src+1..];
      if src + 1 < |s| { assert rest[2..] == s[src+2..]; }
      assert text + [] == text;
    }
  }

  /** Where the copy of a quoted text stands: the text so far lies behind `dest0`, and only
      bytes already read were written. */
  ghost predicate InQuote(mem0: seq<char>, mem: seq<char>, s: string, dest0: nat, dest: nat, src: nat, text: string) {
    && dest0 <= dest < src <= |s|
    && Unread(mem, s, src)
    && SameOutside(mem0, mem, dest0, dest)
    && Written(mem, dest0, dest, text)
  }

  lemma InQuoteStart(mem: seq<char>, s: string, dest0: nat, src0: nat)
    requires dest0 < src0 && Unread(mem, s, src0)
    ensures InQuote(mem, mem, s, dest0, dest0, src0, [])
  {
  }

  /** What the next two reads give, and that the write cursor may be written. */
  lemma InQuoteAt(mem0: seq<char>, mem: seq<char>, s: string, dest0: nat, dest: nat, src: nat, text: string)
    requires InQuote(mem0, mem, s, dest0, dest, src, text)
    ensures |mem| == |s| + 1 && dest0 <= dest < src <= |s| && NUL !in s
    ensures mem[src] == Byte(s, src) && (src < |s| ==> s[src] != NUL && mem[src+1] == Byte(s, src + 1))
    ensures src + 1 < |s| ==> s[src+1] != NUL
    ensures Written(mem, dest0, dest, text) && SameOutside(mem0, mem, dest0, dest + 1)
  {
  }

  /** Store one character of a quoted text; the read cursor has moved on to `src`. */
  method PutQuoted(buf: array<char>, ghost mem0: seq<char>, ghost s: string, ghost dest0: nat, at: nat,
                   ghost from: nat, c: char, ghost src: nat, ghost sofar: string)
    returns (dest: nat, ghost text: string)
    requires InQuote(mem0, buf[..], s, dest0, at, from, sofar)
    requires from <= src <= |s| && at + 1 < src && c != NUL
    modifies buf
    ensures dest == at + 1 && text == sofar + [c] && InQuote(mem0, buf[..], s, dest0, dest, src, text)
  {
    dest, text := Put(buf, at, c, dest0, sofar);
  }

  lemma InQuoteEnd(mem0: seq<char>, mem: seq<char>, s: string, dest0: nat, dest: nat, src: nat, text: string)
    requires InQuote(mem0, mem, s, dest0, dest, src, text)
    ensures dest < |mem| && SameOutside(mem0, mem[dest := NUL], dest0, dest + 1)
    ensures Written(mem[dest := NUL], dest0, dest, text)
  {
    assert mem[dest := NUL][dest0..dest] == mem[dest0..dest];
  }

  /** Copies up to the closing quote. The read cursor starts behind the opening quote and
      stays ahead of the write cursor; only the bytes from the old to the new write cursor
      are written, the last of them with a NUL that the write cursor does not pass. */
  method CopyRawString(buf: array<char>, ghost s: string, dest0: nat, src0: nat)
    returns (err: Err, dest: nat, src: nat, ghost text: string)
    requires dest0 < src0 && Unread(buf[..], s, src0)
    modifies buf
    ensures dest0 <= dest < src <= buf.Length && src0 < src
    ensures SameOutside(old(buf[..]), buf[..], dest0, dest + 1)
    ensures err.OK? <==> Raw(s[src0..]).Closed?
    ensures err.OK? ==> src <= |s| && Raw(s[src0..]) == Closed(text, s[src..])
    ensures err.OK? ==> Written(buf[..], dest0, dest, text) && buf[dest] == NUL
  {
    hide Raw, Cooked, InQuote, Written, SameOutside;
    dest, src, text := dest0, src0, [];
    ghost var mem0, target := buf[..], Raw(s[src0..]);
    InQuoteStart(mem0, s, dest0, src0);
    assert target.After([]) == target;
    hide Unread;
    while true
      invariant InQuote(mem0, buf[..], s, dest0, dest, src, text)
      invariant dest < src <= |s| && src0 <= src && target == Raw(s[src..]).After(text)
      decreases |s| - src
    {
      ghost var mem, from := buf[..], src;
      InQuoteAt(mem0, mem, s, dest0, dest, src, text);
      RawStep(s, src, text);
      var ch := buf[src];
      src := src + 1;
      if ch == NUL {
        return UNBALANCED_QUOTE, dest, src, text;
      } else if ch == '\'' {
        InQuoteEnd(mem0, mem, s, dest0, dest, from, text);
        buf[dest] := NUL;
        assert buf[..] == mem[dest := NUL];
        return OK, dest, src, text;
      } else if ch == '\\' {
        ch := buf[src];
        src := src + 1;
        if ch == NUL {
          return UNBALANCED_QUOTE, dest, src, text;
        }
        if ch != '\\' && ch != '\'' {
          assert text + RawEscape(ch) == (text + ['\\']) + [ch];
          dest, text := PutQuoted(buf, mem0, s, dest0, dest, from, '\\', src, text);
          from := src;
        }
      }
      dest, text := PutQuoted(buf, mem0, s, dest0, dest, from, ch, src, text);
    }
  }

  /** The character named by the one behind a backslash; the read cursor moves past it. */
  method EscapeConvt(buf: array<char>, src0: nat) returns (ch: char, src: nat)
    requires src0 < buf.Length
    ensures src == src0 + 1 && ch == CookedEscape(buf[src0])
  {
    ch, src := buf[src0], src0 + 1;
    match ch
    case 'a' => ch := '\U{07}';
    case 'b' => ch := '\U{08}';
    case 't' => ch := '\t';
    case 'n' => ch := '\n';
    case 'v' => ch := '\U{0B}';
    case 'f' => ch := '\U{0C}';
    case 'r' => ch := '\r';
    case _ =>
  }

  /** As `CopyRawString`, for double quotes. */
  method CopyCookedString(buf: array<char>, ghost s: string, dest0: nat, src0: nat)
    returns (err: Err, dest: nat, src: nat, ghost text: string)
    requires dest0 < src0 && Unread(buf[..], s, src0)
    modifies buf
    ensures dest0 <= dest < src <= buf.Length && src0 < src
    ensures SameOutside(old(buf[..]), buf[..], dest0, dest + 1)
    ensures err.OK? <==> Cooked(s[src0..]).Closed?
    ensures err.OK? ==> src <= |s| && Cooked(s[src0..]) == Closed(text, s[src..])
    ensures err.OK? ==> Written(buf[..], dest0, dest, text) && buf[dest] == NUL
  {
    hide Raw, Cooked, InQuote, Written, SameOutside;
    dest, src, text := dest0, src0, [];
    ghost var mem0, target := buf[..], Cooked(s[src0..]);
    InQuoteStart(mem0, s, dest0, src0);
    assert target.After([]) == target;
    hide Unread;
    while true
      invariant InQuote(mem0, buf[..], s, dest0, dest, src, text)
      invariant dest < src <= |s| && src0 <= src && target == Cooked(s[src..]).After(text)
      decreases |s| - src
    {
      ghost var mem, from := buf[..], src;
      InQuoteAt(mem0, mem, s, dest0, dest, src, text);
      CookedStep(s, src, text);
      var ch := buf[src];
      src := src + 1;
      if ch == NUL {
        return UNBALANCED_QUOTE, dest, src, text;
      } else if ch == '"' {
        InQuoteEnd(mem0, mem, s, dest0, dest, from, text);
        buf[dest] := NUL;
        assert buf[..] == mem[dest := NUL];
        return OK, dest, src, text;
      } else if ch == '\\' {
        ch, src := EscapeConvt(buf, src);
        if ch == NUL {
          return UNBALANCED_QUOTE, dest, src, text;
        }
      }
      dest, text := PutQuoted(buf, mem0, s, dest0, dest, from, ch, src, text);
    }
  }

  // ----- one word -----

  // One step of `WordFrom`, when `text` has been read already: a lemma for each case.

  lemma WordStops(s: string, scan: nat, text: string, q: bool)
    requires scan <= |s|
    ensures var w := WordFrom(s[scan..], q).After(text);
            && (scan == |s| ==> w == Word(text, [], End(q)))
            && (scan + 1 == |s| && s[scan] == '\\' ==> w == Word(text, [], Backslash))
            && (scan < |s| && EndsWord(s[scan]) ==> w == Word(text, s[scan+1..], Separator))
  {
    assert text + [] == text;
    if scan < |s| { assert s[scan..][1..] == s[scan+1..]; }
  }

  lemma WordEscape(s: string, scan: nat, text: string, q: bool)
    requires scan + 1 < |s| && s[scan] == '\\'
    ensures WordFrom(s[scan..], q).After(text) == WordFrom(s[scan+2..], false).After(text + [s[scan+1]])
  {
    assert s[scan..][2..] == s[scan+2..];
    AfterTwice(WordFrom(s[scan+2..], false), text, [s[scan+1]]);
  }

  lemma WordPlain(s: string, scan: nat, text: string, q: bool)
    requires scan < |s| && !IsMeta(s[scan]) && !EndsWord(s[scan])
    ensures WordFrom(s[scan..], q).After(text) == WordFrom(s[scan+1..], false).After(text + [s[scan]])
  {
    assert s[scan..][1..] == s[scan+1..];
    AfterTwice(WordFrom(s[scan+1..], false), text, [s[scan]]);
  }

  lemma WordQuote(s: string, scan: nat, text: string, q: bool, r: Quoted)
    requires scan < |s| && (s[scan] == '\'' || s[scan] == '"')
    requires r == if s[scan] == '\'' then Raw(s[scan+1..]) else Cooked(s[scan+1..])
    ensures r.Unbalanced? ==> WordFrom(s[scan..], q).After(text) == BadQuote
    ensures r.Closed? ==> WordFrom(s[scan..], q).After(text) == WordFrom(r.rest, true).After(text + r.text)
  {
    assert s[scan..][1..] == s[scan+1..];
    if r.Closed? { AfterTwice(WordFrom(r.rest, true), text, r.text); }
  }

  lemma WrittenAppend(mem: seq<char>, mem': seq<char>, off: nat, mid: nat, dest: nat, a: string, b: string)
    requires Written(mem, off, mid, a) && Written(mem', mid, dest, b) && SameOutside(mem, mem', mid, dest + 1)
    ensures Written(mem', off, dest, a + b)
  {
    assert mem'[off..dest] == mem'[off..mid] + mem'[mid..dest];
    assert mem'[off..mid] == mem[off..mid];
  }

  /** Where the scan of a word stands: the text so far, whether a quote was just closed, and
      that only bytes already read were written. */
  ghost predicate InWord(mem0: seq<char>, mem: seq<char>, s: string, start: nat, dest: nat, scan: nat,
                         text: string, q: bool, target: WordResult) {
    && start <= dest <= scan <= |s|
    && Unread(mem, s, scan)
    && Written(mem, start, dest, text)
    && SameOutside(mem0, mem, start, if q then dest + 1 else dest)
    && (q ==> dest < scan && mem[dest] == NUL)
    && target == WordFrom(s[scan..], q).After(text)
  }

  /** Store one character of a word; the scan has moved on to `scan`. */
  method PutWord(buf: array<char>, ghost mem0: seq<char>, ghost s: string, ghost start: nat, at: nat,
                 ghost from: nat, ghost sofar: string, ghost q: bool, c: char, ghost scan: nat,
                 ghost target: WordResult)
    returns (dest: nat, ghost text: string)
    requires InWord(mem0, buf[..], s, start, at, from, sofar, q, target)
    requires at < scan <= |s| && from < scan && c != NUL
    requires target == WordFrom(s[scan..], false).After(sofar + [c])
    modifies buf
    ensures dest == at + 1 && text == sofar + [c]
    ensures InWord(mem0, buf[..], s, start, dest, scan, text, false, target)
  {
    hide WordFrom;
    dest, text := Put(buf, at, c, start, sofar);
  }

  lemma InWordQuote(mem0: seq<char>, mem: seq<char>, mem': seq<char>, s: string, start: nat,
                    dest: nat, scan: nat, text: string, q: bool, more: string, scan': nat, target: WordResult)
    requires InWord(mem0, mem, s, start, dest, scan, text, q, target)
    requires dest + |more| < scan' <= |s| && scan < scan'
    requires SameOutside(mem, mem', dest, dest + |more| + 1)
    requires Written(mem', dest, dest + |more|, more) && mem'[dest + |more|] == NUL
    requires target == WordFrom(s[scan'..], true).After(text + more)
    ensures InWord(mem0, mem', s, start, dest + |more|, scan', text + more, true, target)
  {
    WrittenAppend(mem, mem', start, dest, dest + |more|, text, more);
  }

  /** The two quote cases of the loop over a word; `ch` is the opening quote, just read. */
  method CopyQuoted(buf: array<char>, ghost s: string, ch: char, dest0: nat, scan0: nat,
                    ghost mem0: seq<char>, ghost start: nat, ghost text0: string, ghost q: bool,
                    ghost target: WordResult)
    returns (err: Err, dest: nat, scan: nat, ghost text: string)
    requires 0 < scan0 <= |s| && InWord(mem0, buf[..], s, start, dest0, scan0 - 1, text0, q, target)
    requires s[scan0 - 1] == ch && (ch == '\'' || ch == '"')
    modifies buf
    ensures start <= dest < scan <= buf.Length && scan0 < scan
    ensures SameOutside(mem0, buf[..], start, dest + 1)
    ensures if err.OK? then InWord(mem0, buf[..], s, start, dest, scan, text, true, target) else target.BadQuote?
  {
    hide WordFrom, Raw, Cooked;
    ghost var mem, more := buf[..], [];
    text := text0;
    if ch == '\'' {
      err, dest, scan, more := CopyRawString(buf, s, dest0, scan0);
      WordQuote(s, scan0 - 1, text0, q, Raw(s[scan0..]));
    } else {
      err, dest, scan, more := CopyCookedString(buf, s, dest0, scan0);
      WordQuote(s, scan0 - 1, text0, q, Cooked(s[scan0..]));
    }
    if err.OK? {
      text := text0 + more;
      InWordQuote(mem0, mem, buf[..], s, start, dest0, scan0 - 1, text0, q, more, scan, target);
    }
  }

  /** The loop over one word. Where the source leaves the loop at a separator it then stores
      the NUL; the other two ways out skip that store. */
  method CopyWord(buf: array<char>, ghost s: string, start: nat)
    returns (err: Err, done: bool, dest: nat, scan: nat, ghost text: string, ghost stop: Stop)
    requires Unread(buf[..], s, start)
    modifies buf
    ensures start <= dest <= scan <= buf.Length
    ensures SameOutside(old(buf[..]), buf[..], start, dest + 1)
    ensures err.OK? <==> WordFrom(s[start..], false).Word?
    ensures err.OK? ==> (done <==> !stop.Separator?)
    ensures err.OK? ==>
              && (done || scan <= |s|)
              && WordFrom(s[start..], false) == Word(text, if done then [] else s[scan..], stop)
    ensures err.OK? && stop.Separator? ==> dest < scan <= |s| && Written(buf[..], start, dest, text)
    ensures err.OK? && stop.Backslash? ==>
              dest > start && Written(buf[..], start, dest - 1, text) && buf[dest - 1] == NUL
    ensures err.OK? && stop.End? ==>
              && dest <= |s| && Written(buf[..], start, dest, text)
              && buf[dest] == if stop.afterQuote then NUL else old(buf[dest])
  {
    hide WordFrom;
    dest, scan, text, stop := start, start, [], Separator;
    ghost var q, target := false, WordFrom(s[start..], false);
    assert target.After([]) == target;
    while true
      invariant InWord(old(buf[..]), buf[..], s, start, dest, scan, text, q, target)
      decreases |s| - scan
    {
      ghost var mem0, from := old(buf[..]), scan;
      WordStops(s, scan, text, q);
      var ch := buf[scan];
      scan := scan + 1;
      match ch
      case '\0' =>
        return OK, true, dest, scan, text, End(q);
      case '\\' =>
        ch := buf[scan];
        scan := scan + 1;
        if ch == NUL {
          buf[dest] := ch;
          dest := dest + 1;
          return OK, true, dest, scan, text, Backslash;
        }
        WordEscape(s, from, text, q);
        dest, text := PutWord(buf, mem0, s, start, dest, from, text, q, ch, scan, target);
        q := false;
      case '\'' =>
        err, dest, scan, text := CopyQuoted(buf, s, ch, dest, scan, mem0, start, text, q, target);
        if err != OK {
          return err, true, dest, scan, text, stop;
        }
        q := true;
      case '"' =>
        err, dest, scan, text := CopyQuoted(buf, s, ch, dest, scan, mem0, start, text, q, target);
        if err != OK {
          return err, true, dest, scan, text, stop;
        }
        q := true;
      case _ =>
        if EndsWord(ch) {
          return OK, false, dest, scan, text, Separator;
        }
        WordPlain(s, from, text, q);
        dest, text := PutWord(buf, mem0, s, start, dest, from, text, q, ch, scan, target);
        q := false;
    }
  }

  // ----- the whole string -----

  /** What `InMemory` does at `scan`: skip a space, finish, or take a word. */
  lemma InMemoryStep(s: string, scan: nat)
    requires scan <= |s|
    ensures var rest := InMemory(s[scan..]);
            if scan == |s| then rest == Args([])
            else if IsSpace(s[scan]) then rest == InMemory(s[scan+1..])
            else
              var w := WordFrom(s[scan..], false);
              if w.BadQuote? then rest == Failed
              else if w.stop.Separator? then rest == InMemory(w.rest).After([w.text])
              else rest == Args([Stored(s[scan..], w)])
  {
    hide WordFrom;
    if scan < |s| { assert s[scan..][1..] == s[scan+1..]; }
  }

  /** A last word that got no NUL of its own runs on into the bytes left from the original. */
  lemma UnendedPlaced(mem0: seq<char>, mem: seq<char>, s: string, start: nat, dest: nat, text: string)
    requires Unread(mem0, s, start) && start <= dest <= |s| && SameOutside(mem0, mem, start, dest + 1)
    requires Written(mem, start, dest, text) && mem[dest] == mem0[dest]
    ensures Placed(mem, start, text + s[dest..], |s| + 1)
  {
    assert forall k :: dest <= k <= |s| ==> mem[k] == Byte(s, k);
    assert mem[dest..|s|] == s[dest..];
    assert mem[start..|s|] == mem[start..dest] + mem[dest..|s|];
  }

  /** The last word: closed by a NUL, or running on to the NUL of the input. */
  lemma LastPlaced(mem0: seq<char>, mem: seq<char>, s: string, start: nat, dest: nat, text: string, stop: Stop)
    requires Unread(mem0, s, start) && start <= dest <= |mem| && SameOutside(mem0, mem, start, dest + 1)
    requires |text| <= |s| - start && stop != Separator
    requires stop.Backslash? ==> dest > start && Written(mem, start, dest - 1, text) && mem[dest - 1] == NUL
    requires stop.End? ==> dest <= |s| && Written(mem, start, dest, text)
    requires stop.End? ==> mem[dest] == if stop.afterQuote then NUL else mem0[dest]
    ensures Placed(mem, start, Stored(s[start..], Word(text, [], stop)), |s| + 1)
  {
    if stop == End(false) {
      UnendedPlaced(mem0, mem, s, start, dest, text);
      assert s[start..][|text|..] == s[dest..];
    } else {
      assert Stored(s[start..], Word(text, [], stop)) == text;
      assert start + |text| < |mem| && mem[start..start + |text|] == text && mem[start + |text|] == NUL;
    }
  }

  lemma {:induction false} CStringFrom(mem: seq<char>, k: nat)
    requires NUL in mem && k <= |CString(mem)|
    ensures NUL in mem[k..] && CString(mem[k..]) == CString(mem)[k..]
  {
    if k == 0 {
      assert mem[0..] == mem;
    } else {
      CStringFrom(mem[1..], k - 1);
      assert mem[1..][k-1..] == mem[k..];
    }
  }

  /** Finished arguments: each is in place below `limit`, and they lie one behind the other. */
  ghost predicate Finished(mem: seq<char>, res: seq<Ptr>, words: seq<string>, limit: nat) {
    && |words| <= |res|
    && (forall i :: 0 <= i < |words| ==> res[i].At? && Placed(mem, res[i].off, words[i], limit))
    && (forall i, j :: 0 <= i < j < |words| ==> res[i].off + |words[i]| < res[j].off)
  }

  lemma FinishedNone(mem: seq<char>, res: seq<Ptr>)
    ensures Finished(mem, res, [], 0)
  {
  }

  /** Other slots and the limit do not matter. */
  lemma FinishedKept(mem: seq<char>, res: seq<Ptr>, res': seq<Ptr>, words: seq<string>, limit: nat, limit': nat)
    requires Finished(mem, res, words, limit) && limit <= limit' <= |mem|
    requires |words| <= |res'| && forall i :: 0 <= i < |words| ==> res'[i] == res[i]
    ensures Finished(mem, res', words, limit')
  {
    forall i | 0 <= i < |words| ensures Placed(mem, res'[i].off, words[i], limit') {
      assert Placed(mem, res[i].off, words[i], limit);
    }
  }

  /** What the caller sees: C strings, one behind the other. */
  ghost predicate Points(mem: seq<char>, res: seq<Ptr>, words: seq<string>) {
    && |words| <= |res|
    && (forall i :: 0 <= i < |words| ==> res[i].At? && res[i].off < |mem| && CString(mem[res[i].off..]) == words[i])
    && (forall i, j :: 0 <= i < j < |words| ==> res[i].At? && res[j].At? && res[i].off + |words[i]| < res[j].off)
  }

  lemma FinishedPoints(mem: seq<char>, res: seq<Ptr>, words: seq<string>, limit: nat)
    requires Finished(mem, res, words, limit)
    ensures Points(mem, res, words)
  {
    forall i | 0 <= i < |words| ensures CString(mem[res[i].off..]) == words[i] {
      PlacedIsCString(mem, res[i].off, words[i], limit);
    }
  }

  /** Writing behind the finished arguments and adding one more. */
  lemma FinishedGrows(mem: seq<char>, mem': seq<char>, res: seq<Ptr>, res': seq<Ptr>, words: seq<string>,
                      limit: nat, hi: nat, start: nat, word: string, limit': nat)
    requires Finished(mem, res, words, limit)
    requires limit <= start && limit <= limit' && SameOutside(mem, mem', start, hi)
    requires |words| < |res'| && (forall i :: 0 <= i < |words| ==> res'[i] == res[i])
    requires res'[|words|] == At(start) && Placed(mem', start, word, limit')
    ensures Finished(mem', res', words + [word], limit')
  {
    forall i | 0 <= i < |words|
      ensures Placed(mem', res[i].off, words[i], limit')
    {
      assert Placed(mem, res[i].off, words[i], limit);
      var lo, hi := res[i].off, res[i].off + |words[i]|;
      assert mem'[lo..hi] == mem[lo..hi];
    }
  }

  method Strdup(mem: seq<char>) returns (buf: array<char>)
    requires NUL in mem
    ensures fresh(buf) && Unread(buf[..], CString(mem), 0)
  {
    ghost var s := CString(mem);
    var n := 0;
    while mem[n] != NUL
      invariant n <= |s|
      decreases |s| - n
    {
      n := n + 1;
    }
    buf := new char[n + 1](i requires 0 <= i < |mem| => mem[i]);
  }

  /** The block of pointers moves to a larger one; the entries survive. */
  method Xrealloc(res: array<Ptr>, act: nat) returns (r: array<Ptr>)
    requires res.Length <= act
    ensures fresh(r) && r.Length == act && r[..res.Length] == res[..]
  {
    r := new Ptr[act];
    var i := 0;
    while i < res.Length
      invariant i <= res.Length && r[..i] == res[..i]
    {
      r[i] := res[i];
      i := i + 1;
    }
  }

  method SkipSpaces(buf: array<char>, ghost s: string, scan0: nat) returns (scan: nat)
    requires Unread(buf[..], s, scan0)
    ensures scan0 <= scan <= |s| && (scan < |s| ==> !IsSpace(s[scan]))
    ensures Unread(buf[..], s, scan) && scan < buf.Length && (buf[scan] == NUL <==> scan == |s|)
    ensures InMemory(s[scan..]) == InMemory(s[scan0..])
  {
    hide InMemory;
    scan := scan0;
    while IsSpace(buf[scan])
      invariant scan0 <= scan <= |s| && InMemory(s[scan..]) == InMemory(s[scan0..])
      decreases |s| - scan
    {
      InMemoryStep(s, scan);
      scan := scan + 1;
    }
  }

  /** A private copy of the string, without its leading white space. */
  method CopyInput(str: seq<char>) returns (buf: array<char>, ghost s: string)
    requires NUL in str
    ensures fresh(buf) && buf.Length == |s| + 1 && Unread(buf[..], s, 0)
    ensures InMemory(s) == InMemory(CString(str))
  {
    hide InMemory;
    ghost var cs := CString(str);
    var lead := 0;
    assert cs[0..] == cs;
    while IsSpace(str[lead])
      invariant lead <= |cs| && InMemory(cs[lead..]) == InMemory(cs)
      decreases |cs| - lead
    {
      InMemoryStep(cs, lead);
      lead := lead + 1;
    }
    CStringFrom(str, lead);
    buf := Strdup(str[lead..]);
    s := cs[lead..];
  }

  /** The vector has at most half as many slots again as arguments, and all reallocations
      together moved at most three times as many slots as it has now. */
  ghost predicate Grown(argc: nat, act: nat, copied: nat) {
    10 <= act <= (if argc < 10 then 10 else argc + argc / 2) && copied + 30 <= 3 * act
  }

  lemma GrownFirst()
    ensures Grown(0, 10, 0)
  {
  }

  /** Make room for argument number `argc` and for the NULL behind it. */
  method Reserve(res: array<Ptr>, argc: nat, ghost copied: nat)
    returns (r: array<Ptr>, ghost copied': nat)
    requires 0 < argc <= res.Length && Grown(argc - 1, res.Length, copied)
    ensures argc < r.Length && Grown(argc, r.Length, copied')
    ensures r == res || fresh(r)
    ensures res.Length <= r.Length && forall i :: 0 <= i < res.Length ==> r[i] == res[i]
    ensures copied' == copied + if r == res then 0 else res.Length
  {
    r, copied' := res, copied;
    var act := res.Length;
    if argc >= act {
      copied' := copied + act;
      act := act + act / 2;
      r := Xrealloc(res, act);
      assert forall i :: 0 <= i < res.Length ==> r[i] == r[..res.Length][i];
    }
  }

  /** Store the pointer to the argument that is about to be read, in a vector with room for it. */
  method PushPointer(res0: array<Ptr>, argv: nat, scan: nat, ghost copied0: nat,
                     ghost mem: seq<char>, ghost words: seq<string>, ghost limit: nat)
    returns (res: array<Ptr>, ghost copied: nat)
    requires argv == |words| < res0.Length && Grown(argv, res0.Length, copied0)
    requires Finished(mem, res0[..], words, limit) && limit <= scan <= |mem|
    modifies res0
    ensures (res == res0 || fresh(res)) && argv + 1 < res.Length && res[argv] == At(scan)
    ensures Finished(mem, res[..], words, scan) && Grown(argv + 1, res.Length, copied)
  {
    hide Grown;
    ghost var was := res0[..];
    res, copied := Reserve(res0, argv + 1, copied0);
    res[argv] := At(scan);
    FinishedKept(mem, was, res[..], words, limit, scan);
  }

  /** Store the NULL behind the last argument. */
  method CloseVector(res: array<Ptr>, argv: nat, ghost mem: seq<char>, ghost words: seq<string>, ghost limit: nat)
    requires argv == |words| < res.Length && Finished(mem, res[..], words, limit) && limit <= |mem|
    modifies res
    ensures res[argv] == Null && Points(mem, res[..], words)
  {
    ghost var was := res[..];
    res[argv] := Null;
    FinishedKept(mem, was, res[..], words, limit, limit);
    FinishedPoints(mem, res[..], words, limit);
  }

  /** One word and, at a separator, its NUL; the pointer to it has been stored already. */
  method AddWord(buf: array<char>, ghost s: string, start: nat, res: array<Ptr>,
                 ghost words: seq<string>, ghost target: Tokens)
    returns (err: Err, done: bool, scan: nat, ghost words': seq<string>)
    requires Unread(buf[..], s, start) && start < |s| && !IsSpace(s[start])
    requires |words| < res.Length && res[|words|] == At(start) && Finished(buf[..], res[..], words, start)
    requires target == InMemory(s[start..]).After(words)
    modifies buf
    ensures err.OK? ==> |words'| == |words| + 1
    ensures err.OK? && !done ==>
              && start < scan <= |s| && Unread(buf[..], s, scan)
              && Finished(buf[..], res[..], words', scan)
              && target == InMemory(s[scan..]).After(words')
    ensures err.OK? && done ==> Finished(buf[..], res[..], words', |s| + 1) && target == Args(words')
    ensures !err.OK? ==> target == Failed
  {
    hide WordFrom, InMemory;
    ghost var mem := buf[..];
    var dest; ghost var text, stop;
    InMemoryStep(s, start);
    err, done, dest, scan, text, stop := CopyWord(buf, s, start);
    if err != OK {
      return err, done, scan, words;
    }
    ghost var word := if done then Stored(s[start..], Word(text, [], stop)) else text;
    if done {
      LastPlaced(mem, buf[..], s, start, dest, text, stop);
    } else {
      buf[dest] := NUL;
    }
    FinishedGrows(mem, buf[..], res[..], res[..], words, start, dest + 1, start, word, if done then |s| + 1 else scan);
    words' := words + [word];
    AfterTokens(if done then Args([]) else InMemory(s[scan..]), words, [word]);
  }

  lemma AfterTokens(t: Tokens, a: seq<string>, b: seq<string>)
    ensures t.After(b).After(a) == t.After(a + b)
    ensures Args(b).After(a) == Args(a + b)
  {
    if t.Args? { assert a + (b + t.words) == (a + b) + t.words; }
  }

  /** For every NUL-terminated string: the call fails exactly when a quote is left open;
      otherwise the vector points, in order, to the C strings of `InMemory` and ends with
      NULL. `copied` counts the slots moved by all reallocations together. */
  method StringToArgv(str: seq<char>)
    returns (err: Err, argc: nat, res: array<Ptr>, buf: array<char>, ghost copied: nat)
    requires NUL in str
    ensures fresh(res) && fresh(buf)
    ensures err.OK? <==> InMemory(CString(str)).Args?
    ensures err.OK? ==>
              && argc == |InMemory(CString(str)).words| < res.Length && res[argc] == Null
              && Points(buf[..], res[..], InMemory(CString(str)).words)
    ensures Grown(argc, res.Length, copied)
  {
    hide InMemory, WordFrom, Stored, CString, Points, Finished, Unread, Grown;
    argc, copied := 0, 0;
    res := new Ptr[10];
    var argv := 0;
    ghost var s, words: seq<string>;
    buf, s := CopyInput(str);
    ghost var target := InMemory(s);
    words := [];
    var scan := 0;
    assert s[0..] == s && target.After([]) == target;
    FinishedNone(buf[..], res[..]);
    assert Grown(0, 10, 0) by { GrownFirst(); }

    while true
      invariant fresh(res) && buf.Length == |s| + 1 && scan <= |s| && Unread(buf[..], s, scan)
      invariant argv == argc == |words| < res.Length
      invariant Finished(buf[..], res[..], words, scan)
      invariant target == InMemory(s[scan..]).After(words)
      invariant Grown(argc, res.Length, copied)
      decreases |s| - scan
    {
      ghost var scan0 := scan;
      scan := SkipSpaces(buf, s, scan);
      InMemoryStep(s, scan);
      if buf[scan] == NUL {
        assert words + [] == words;
        FinishedKept(buf[..], res[..], res[..], words, scan0, |s| + 1);
        break;
      }
      argc := argc + 1;
      res, copied := PushPointer(res, argv, scan, copied, buf[..], words, scan0);
      argv := argv + 1;
      var done;
      err, done, scan, words := AddWord(buf, s, scan, res, words, target);
      if err != OK {
        return;
      }
      if done {
        break;
      }
    }

    ghost var mem := buf[..];
    CloseVector(res, argv, mem, words, |s| + 1);
    assert buf[..] == mem;
    err := OK;
  }
}
