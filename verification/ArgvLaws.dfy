// What the word splitter does to lines that are written out: which characters separate words,
// what a backslash means where, and what is left in memory. Nothing here is stated with the
// tables of the splitter.
module ArgvLaws {
  import opened ArgvSpec

  const SPACES := " \t\n\r\U{0B}\U{0C}"
  const BACKSPACE := '\U{08}'

  /** Without quotes, backslashes and separators. */
  predicate Plain(s: string) {
    forall c <- s :: c !in "\\'\"" && c !in SPACES && c != BACKSPACE
  }

  // ----- words and separators -----

  lemma Kinds(c: char)
    ensures c in SPACES <==> IsSpace(c)
    ensures EndsWord(c) <==> c in SPACES || c == BACKSPACE
    ensures c in "\\'\"" <==> IsMeta(c)
  {
    assert SPACES[0] == ' ' && SPACES[1] == '\t' && SPACES[2] == '\n' && SPACES[3] == '\r';
    assert SPACES[4] == '\U{0B}' && SPACES[5] == '\U{0C}' && |SPACES| == 6;
    var meta := "\\'\"";
    assert meta[0] == '\\' && meta[1] == '\'' && meta[2] == '"' && |meta| == 3;
  }

  lemma {:induction false} PlainFront(a: string, tail: string, q: bool)
    requires Plain(a)
    ensures WordFrom(a + tail, q) == WordFrom(tail, a == [] && q).After(a)
  {
    if a == [] {
      assert a + tail == tail;
      var w := WordFrom(tail, q);
      if w.Word? { assert [] + w.text == w.text; }
    } else {
      assert a == [a[0]] + a[1..] && (a + tail)[1..] == a[1..] + tail;
      Kinds(a[0]);
      assert forall c <- a[1..] :: c in a;
      PlainFront(a[1..], tail, false);
      AfterTwice(WordFrom(tail, false), [a[0]], a[1..]);
    }
  }

  lemma PlainWord(a: string)
    requires Plain(a) && a != []
    ensures WordFrom(a, false) == Word(a, [], End(false)) && SkipSpace(a) == a
    ensures Split(a) == Args([a])
  {
    PlainFront(a, [], false);
    Kinds(a[0]);
    assert a + [] == a && a[0] in a;
  }

  /** A plain word, a character, a plain word: the character parts them exactly if it is white
      space or a backspace, and else belongs to the one word. */
  lemma SeparatorSplits(a: string, c: char, b: string)
    requires Plain(a) && Plain(b) && a != [] && b != [] && c !in "\\'\""
    ensures Split(a + [c] + b) == if c in SPACES || c == BACKSPACE then Args([a, b]) else Args([a + [c] + b])
  {
    var line := a + [c] + b;
    Kinds(c);
    Kinds(a[0]);
    if c in SPACES || c == BACKSPACE {
      var tail := [c] + b;
      assert line == a + tail && tail[1..] == b && a[0] in a;
      PlainFront(a, tail, false);
      assert a + [] == a;
      PlainWord(b);
      assert [a] + [b] == [a, b];
    } else {
      assert forall d <- line :: d in a || d == c || d in b;
      PlainWord(line);
    }
  }

  /** In front of a word white space is skipped, but a backspace makes an empty word. */
  lemma SeparatorInFront(c: char, b: string)
    requires Plain(b) && b != [] && (c in SPACES || c == BACKSPACE)
    ensures Split([c] + b) == if c == BACKSPACE then Args(["", b]) else Args([b])
  {
    assert ([c] + b)[1..] == b;
    Kinds(c);
    PlainWord(b);
    if c == BACKSPACE {
      assert WordFrom([c] + b, false) == Word([], b, Separator);
      assert [""] + [b] == ["", b];
    } else {
      assert SkipSpace([c] + b) == SkipSpace(b);
    }
  }

  // ----- single quotes -----

  /** No quote, and no backslash but in front of a character other than a backslash or quote. */
  predicate Verbatim(t: string) {
    t != [] ==> t[0] != '\'' && (t[0] == '\\' ==> |t| > 1 && t[1] != '\\') && Verbatim(t[1..])
  }

  lemma {:induction false} VerbatimRaw(t: string, tail: string)
    requires Verbatim(t)
    ensures Raw(t + ("'" + tail)) == Closed(t, tail)
  {
    var s := t + ("'" + tail);
    if t == [] {
      assert s == "'" + tail && s[1..] == tail;
    } else if t[0] == '\\' {
      assert t[1..][0] == t[1] != '\'' && t[1..][1..] == t[2..];
      assert s[2..] == t[2..] + ("'" + tail) && t == [t[0], t[1]] + t[2..];
      VerbatimRaw(t[2..], tail);
    } else {
      assert s[1..] == t[1..] + ("'" + tail) && t == [t[0]] + t[1..];
      VerbatimRaw(t[1..], tail);
    }
  }

  /** A quoted text behind a plain word belongs to the word, and everything in it, blanks and
      backslashes included, stands for itself. */
  lemma VerbatimKept(a: string, t: string)
    requires Plain(a) && Verbatim(t)
    ensures Split(a + "'" + t + "'") == Args([a + t])
  {
    var line := a + "'" + t + "'";
    var tail := "'" + t + "'";
    assert line == a + tail && tail[0] == '\'' && tail[1..] == t + ("'" + []);
    VerbatimRaw(t, []);
    PlainFront(a, tail, false);
    assert WordFrom(tail, a == [] && false) == Word(t + [], [], End(true));
    assert t + [] == t;
    assert a != [] ==> a[0] in a && line[0] == a[0];
    assert SkipSpace(line) == line;
  }

  // ----- double quotes -----

  lemma OneEscape(c: char)
    ensures Split(['"', '\\', c, '"']) == Args([[CookedEscape(c)]])
  {
    var line, body, quote := ['"', '\\', c, '"'], ['\\', c, '"'], "\"";
    var text := [CookedEscape(c)];
    assert quote[1..] == [] && Cooked(quote) == Closed([], []);
    assert body[2..] == quote && text + [] == text;
    assert Cooked(body) == Closed(text, []);
    hide Cooked;
    assert line[1..] == body;
    assert WordFrom(line, false) == Word(text + [], [], End(true));
  }

  /** Seven letters name a control character behind a backslash ... */
  lemma ControlEscapes()
    ensures Split("\"\\a\"") == Args(["\U{07}"]) && Split("\"\\b\"") == Args(["\U{08}"])
    ensures Split("\"\\t\"") == Args(["\t"]) && Split("\"\\n\"") == Args(["\n"])
    ensures Split("\"\\v\"") == Args(["\U{0B}"]) && Split("\"\\f\"") == Args(["\U{0C}"])
    ensures Split("\"\\r\"") == Args(["\r"])
  {
    hide Split;
    OneEscape('a');
    OneEscape('b');
    OneEscape('t');
    OneEscape('n');
    OneEscape('v');
    OneEscape('f');
    OneEscape('r');
    assert "\"\\a\"" == ['"', '\\', 'a', '"'] && "\"\\b\"" == ['"', '\\', 'b', '"'];
    assert "\"\\t\"" == ['"', '\\', 't', '"'] && "\"\\n\"" == ['"', '\\', 'n', '"'];
    assert "\"\\v\"" == ['"', '\\', 'v', '"'] && "\"\\f\"" == ['"', '\\', 'f', '"'];
    assert "\"\\r\"" == ['"', '\\', 'r', '"'];
  }

  /** ... and any other character behind a backslash stands for itself. */
  lemma OtherEscapes(c: char)
    requires c !in "abtnvfr"
    ensures Split(['"', '\\', c, '"']) == Args([[c]])
  {
    var letters := "abtnvfr";
    assert letters[0] == 'a' && letters[1] == 'b' && letters[2] == 't' && letters[3] == 'n';
    assert letters[4] == 'v' && letters[5] == 'f' && letters[6] == 'r';
    OneEscape(c);
  }

  // ----- ends of lines -----

  lemma BadQuoteFails(a: string, tail: string)
    requires Plain(a) && tail != [] && !IsSpace(tail[0]) && WordFrom(tail, false).BadQuote?
    ensures Split(a + tail) == Failed
  {
    PlainFront(a, tail, false);
    hide WordFrom;
    if a == [] {
      assert a + tail == tail;
    } else {
      Kinds(a[0]);
      assert a[0] in a && (a + tail)[0] == a[0];
    }
  }

  /** Without a closing quote there is no result. */
  lemma OpenQuoteFails(a: string, t: string)
    requires Plain(a)
    ensures '\'' !in t ==> Split(a + ("'" + t)) == Failed
    ensures '"' !in t ==> Split(a + ("\"" + t)) == Failed
  {
    NoClosingQuote(t);
    hide Split;
    assert ("'" + t)[1..] == t && ("\"" + t)[1..] == t;
    if '\'' !in t { BadQuoteFails(a, "'" + t); }
    if '"' !in t { BadQuoteFails(a, "\"" + t); }
  }

  lemma {:induction false} NoClosingQuote(t: string)
    ensures '\'' !in t ==> Raw(t).Unbalanced?
    ensures '"' !in t ==> Cooked(t).Unbalanced?
    decreases |t|
  {
    if t != [] {
      NoClosingQuote(t[1..]);
      assert forall c <- t[1..] :: c in t;
      if |t| > 1 {
        NoClosingQuote(t[2..]);
        assert forall c <- t[2..] :: c in t;
      }
    }
  }

  /** A lone backslash at the end is dropped, and the word in front of it is found exact. */
  lemma TrailingBackslash(a: string)
    requires Plain(a)
    ensures Split(a + "\\") == Args([a]) && InMemory(a + "\\") == Args([a])
  {
    var line := a + "\\";
    PlainFront(a, "\\", false);
    assert a + [] == a && (a != [] ==> a[0] in a && line[0] == a[0]);
    assert WordFrom(line, false) == Word(a, [], Backslash);
  }

  /** A word that ends the line with an escaped character is found with that character twice. */
  lemma EscapeAtEndStutters(a: string, c: char)
    requires Plain(a)
    ensures Split(a + ['\\', c]) == Args([a + [c]]) && InMemory(a + ['\\', c]) == Args([a + [c, c]])
  {
    var line, tail := a + ['\\', c], ['\\', c];
    PlainFront(a, tail, false);
    assert tail[2..] == [] && [c] + [] == [c];
    assert WordFrom(tail, a == [] && false) == Word([c], [], End(false));
    assert a != [] ==> a[0] in a && line[0] == a[0];
    assert line[|a + [c]|..] == [c] && a + [c] + [c] == a + [c, c];
  }
}
