// What `string_to_argv` means: a word splitter over the characters of a C
// string, without cursors, buffers or pointers.
module ArgvSpec {
  import opened CStrings

  /** `isspace` in the C locale. */
  predicate IsSpace(c: char) {
    c == ' ' || c == '\t' || c == '\n' || c == '\r' || c == '\U{0B}' || c == '\U{0C}'
  }

  /** The characters that end a word outside quotes: white space and, unlike `isspace`, backspace. */
  predicate EndsWord(c: char) {
    IsSpace(c) || c == '\U{08}'
  }

  /** The characters with a meaning of their own inside a word. */
  predicate IsMeta(c: char) {
    c == '\\' || c == '\'' || c == '"'
  }

  function SkipSpace(s: string): (r: string)
    ensures |r| <= |s|
    ensures r == [] || !IsSpace(r[0])
  {
    if s != [] && IsSpace(s[0]) then SkipSpace(s[1..]) else s
  }

  /** What follows an opening quote: no closing quote, or the quoted text and the rest. */
  datatype Quoted = Unbalanced | Closed(text: string, rest: string) {
    function After(t: string): Quoted {
      match this
      case Unbalanced => Unbalanced
      case Closed(text, rest) => Closed(t + text, rest)
    }
  }

  /** In single quotes a backslash protects a backslash or a quote and stands for itself otherwise. */
  function RawEscape(c: char): (t: string) {
    if c == '\\' || c == '\'' then [c] else ['\\', c]
  }

  function Raw(s: string): (r: Quoted)
    ensures r.Closed? ==> |r.text| + |r.rest| < |s|
  {
    if s == [] then Unbalanced
    else if s[0] == '\'' then Closed([], s[1..])
    else if s[0] == '\\' then
      if |s| == 1 then Unbalanced else Raw(s[2..]).After(RawEscape(s[1]))
    else Raw(s[1..]).After([s[0]])
  }

  /** In double quotes the backslash is always eaten and seven letters name a control character. */
  function CookedEscape(c: char): (r: char)
    ensures c != NUL ==> r != NUL
  {
    match c
    case 'a' => '\U{07}'
    case 'b' => '\U{08}'
    case 't' => '\t'
    case 'n' => '\n'
    case 'v' => '\U{0B}'
    case 'f' => '\U{0C}'
    case 'r' => '\r'
    case _ => c
  }

  function Cooked(s: string): (r: Quoted)
    ensures r.Closed? ==> |r.text| + |r.rest| < |s|
  {
    if s == [] then Unbalanced
    else if s[0] == '"' then Closed([], s[1..])
    else if s[0] == '\\' then
      if |s| == 1 then Unbalanced else Cooked(s[2..]).After([CookedEscape(s[1])])
    else Cooked(s[1..]).After([s[0]])
  }

  /** Why a word ended: a separator, a lone backslash before the end, or the end itself. */
  datatype Stop = Separator | Backslash | End(afterQuote: bool)

  datatype WordResult = BadQuote | Word(text: string, rest: string, stop: Stop) {
    function After(t: string): WordResult {
      match this
      case BadQuote => BadQuote
      case Word(text, rest, stop) => Word(t + text, rest, stop)
    }
  }

  lemma AfterTwice(w: WordResult, a: string, b: string)
    ensures w.After(b).After(a) == w.After(a + b)
  {
    if w.Word? { assert a + (b + w.text) == (a + b) + w.text; }
  }

  /** The word at the front of `s`; `afterQuote` says that the previous character closed a quote. */
  function WordFrom(s: string, afterQuote: bool): (r: WordResult)
    ensures r.Word? ==> |r.text| + |r.rest| <= |s|
    ensures r.Word? && !r.stop.End? ==> |r.text| + |r.rest| < |s|
    ensures r.Word? && !r.stop.Separator? ==> r.rest == []
    decreases |s|
  {
    if s == [] then Word([], [], End(afterQuote))
    else if s[0] == '\\' then
      if |s| == 1 then Word([], [], Backslash) else WordFrom(s[2..], false).After([s[1]])
    else if s[0] == '\'' then
      match Raw(s[1..])
      case Unbalanced => BadQuote
      case Closed(text, rest) => WordFrom(rest, true).After(text)
    else if s[0] == '"' then
      match Cooked(s[1..])
      case Unbalanced => BadQuote
      case Closed(text, rest) => WordFrom(rest, true).After(text)
    else if EndsWord(s[0]) then Word([], s[1..], Separator)
    else WordFrom(s[1..], false).After([s[0]])
  }

  datatype Tokens = Failed | Args(words: seq<string>) {
    function After(ws: seq<string>): Tokens {
      match this
      case Failed => Failed
      case Args(words) => Args(ws + words)
    }
  }

  /** The words of `s`, or failure when a quote is never closed. */
  function Split(s: string): (r: Tokens)
    decreases |s|
  {
    var t := SkipSpace(s);
    if t == [] then Args([])
    else
      match WordFrom(t, false)
      case BadQuote => Failed
      case Word(text, rest, stop) =>
        if stop.Separator? then Split(rest).After([text]) else Args([text])
  }

  /** The C string left where a word starts. A word that runs into the end of the input
      is not given a NUL of its own: unless its last character closed a quote, the bytes
      of the input that lie beyond it stay attached. */
  function Stored(t: string, w: WordResult): (m: string)
    requires w.Word? && |w.text| <= |t|
    ensures w.text <= m && |m| <= |t|
  {
    if w.stop == End(false) then w.text + t[|w.text|..] else w.text
  }

  /** The C strings that the returned vector points to. */
  function InMemory(s: string): (r: Tokens)
    decreases |s|
  {
    var t := SkipSpace(s);
    if t == [] then Args([])
    else
      var w := WordFrom(t, false);
      if w.BadQuote? then Failed
      else if w.stop.Separator? then InMemory(w.rest).After([Stored(t, w)])
      else Args([Stored(t, w)])
  }

  /** Did the scan of `s` stop with a NUL behind the last word?  True unless the last word
      runs into the end, holds a quote or a backslash, and does not end by closing a quote. */
  predicate LastWordTerminated(s: string)
    decreases |s|
  {
    var t := SkipSpace(s);
    var w := WordFrom(t, false);
    t == [] || w.BadQuote? ||
    if w.stop.Separator? then LastWordTerminated(w.rest)
    else w.stop == End(false) ==> forall c <- t :: !IsMeta(c)
  }

  /** Text is as long as its source exactly when the source holds no quote and no backslash. */
  lemma {:induction false} PlainLength(s: string, q: bool)
    ensures var w := WordFrom(s, q);
            w.Word? && w.stop.End? ==> (|w.text| == |s| <==> forall c <- s :: !IsMeta(c))
    decreases |s|
  {
    if s != [] && !IsMeta(s[0]) && !EndsWord(s[0]) {
      PlainLength(s[1..], false);
      assert s == [s[0]] + s[1..];
    } else if s != [] {
      assert s[0] in s;
    }
  }

  /** All arguments but the last are always exact and the last one always starts with its
      word; the vector as a whole is exact if and only if the last word was terminated. */
  lemma {:induction false} InMemoryExactness(s: string)
    ensures Split(s).Failed? <==> InMemory(s).Failed?
    ensures Split(s).Args? ==>
              var ws, ms := Split(s).words, InMemory(s).words;
              && |ms| == |ws|
              && (forall i :: 0 <= i < |ws| ==> ws[i] <= ms[i])
              && (forall i :: 0 <= i < |ws| - 1 ==> ms[i] == ws[i])
              && (ms == ws <==> LastWordTerminated(s))
    decreases |s|
  {
    hide WordFrom;
    var t := SkipSpace(s);
    if t != [] {
      var w := WordFrom(t, false);
      if w.Word? {
        if w.stop.Separator? {
          InMemoryExactness(w.rest);
          var ms, ws := InMemory(w.rest), Split(w.rest);
          if ws.Args? {
            assert ([w.text] + ms.words)[1..] == ms.words && ([w.text] + ws.words)[1..] == ws.words;
            assert forall i :: 0 < i <= |ws.words| ==>
                Split(s).words[i] == ws.words[i-1] && InMemory(s).words[i] == ms.words[i-1];
          }
        } else {
          PlainLength(t, false);
          var m := Stored(t, w);
          assert Split(s).words[0] == w.text && InMemory(s).words[0] == m;
          if |w.text| == |t| { assert m == w.text; }
        }
      }
    }
  }

  /** `a\b` is the word `ab`, but the caller reads `abb`. */
  lemma UnterminatedExample()
    ensures Split("a\\b") == Args(["ab"]) && InMemory("a\\b") == Args(["abb"])
  {
    var s := "a\\b";
    assert s[1..] == "\\b" && s[1..][2..] == [];
    assert WordFrom(s[1..], false) == Word("b", [], End(false));
    var w := WordFrom(s, false);
    assert w.text == "ab" && w == Word("ab", [], End(false));
    assert s[2..] == "b" && w.text + s[2..] == "abb";
  }
}
