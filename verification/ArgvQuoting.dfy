// Command lines written by a program: every list of arguments survives being quoted,
// joined with spaces and split again.
module ArgvQuoting {
  import opened ArgvGrammar
  import opened ArgvSpec
  import opened CStrings

  // ----- when the last argument of a line is stored exactly -----

  predicate AllPlain(ps: seq<Piece>) {
    forall p <- ps :: p.Plain?
  }

  predicate Terminated(ws: seq<WordForm>) {
    if ws == [] then true
    else if ws[0].close.Sep? then Terminated(ws[1..])
    else ws[0].close.Bare? ==> AfterQuote(ws[0].pieces, false) || AllPlain(ws[0].pieces)
  }

  lemma {:induction false} PlainIffNoMeta(ps: seq<Piece>)
    requires forall p <- ps :: ValidPiece(p)
    ensures AllPlain(ps) <==> forall c <- ShowPieces(ps) :: !IsMeta(c)
  {
    if ps != [] {
      PlainIffNoMeta(ps[1..]);
      assert ps == [ps[0]] + ps[1..];
      assert ValidPiece(ps[0]);
      var head := ShowPiece(ps[0]);
      assert !ps[0].Plain? ==> IsMeta(head[0]) && head[0] in ShowPieces(ps);
      assert forall c <- ShowPieces(ps[1..]) :: c in ShowPieces(ps);
    }
  }

  lemma {:induction false} TerminatedSound(l: Line)
    requires Valid(l)
    ensures LastWordTerminated(Show(l)) <==> Terminated(l.words)
    decreases |l.words|
  {
    var s := ShowWords(l.words);
    if l.words == [] {
      SkipsGap(l.gap, s);
    } else {
      var w := l.words[0];
      WordsStart(l.words);
      SkipsGap(l.gap, s);
      WordSound(l.words);
      if w.close.Sep? {
        TerminatedSound(Line(w.close.gap, l.words[1..]));
      } else {
        assert l.words[1..] == [];
        if w.close.Bare? {
          assert s == ShowPieces(w.pieces);
          PlainIffNoMeta(w.pieces);
        }
      }
    }
  }

  // ----- quoting -----

  /** Single quotes, double quotes, or a backslash at each of the chosen places. */
  datatype Style = InSingle | InDouble | Backslashes(at: seq<bool>)

  /** Put a backslash in front of the chosen characters. */
  function Protect(a: string, at: seq<bool>): string
    requires |at| == |a|
  {
    if a == [] then []
    else (if at[0] then ['\\', a[0]] else [a[0]]) + Protect(a[1..], at[1..])
  }

  /** The places of `a` at which a character of `esc` stands. */
  function Places(a: string, esc: set<char>): (at: seq<bool>)
    ensures |at| == |a| && forall i :: 0 <= i < |a| ==> (at[i] <==> a[i] in esc)
  {
    seq(|a|, i requires 0 <= i < |a| => a[i] in esc)
  }

  /** The characters that have to be protected outside quotes. */
  const SPECIAL: set<char> := {'\\', '\'', '"', ' ', '\t', '\n', '\r', '\U{0B}', '\U{0C}', '\U{08}'}

  /** Backslashes stand in front of all special characters, and of any others: a shell
      protects some of them, `#` and `~` among these depending on where they stand. */
  predicate ValidStyle(a: string, st: Style) {
    st.Backslashes? ==>
      |st.at| == |a| && forall i :: 0 <= i < |a| && a[i] in SPECIAL ==> st.at[i]
  }

  function Quote(a: string, st: Style): string
    requires ValidStyle(a, st)
  {
    match st
    case InSingle => "'" + Protect(a, Places(a, {'\\', '\''})) + "'"
    case InDouble => "\"" + Protect(a, Places(a, {'\\', '"'})) + "\""
    case Backslashes(at) => if a == [] then "''" else Protect(a, at)
  }

  /** One style for each argument. */
  predicate ValidStyles(args: seq<string>, styles: seq<Style>) {
    |styles| == |args| && forall i :: 0 <= i < |args| ==> ValidStyle(args[i], styles[i])
  }

  /** The quoted arguments, each pair with one space between, and a space behind if `trail`. */
  function Join(args: seq<string>, styles: seq<Style>, trail: bool): string
    requires ValidStyles(args, styles)
  {
    if args == [] then []
    else Quote(args[0], styles[0]) + ((if |args| > 1 || trail then " " else []) + Join(args[1..], styles[1..], trail))
  }

  lemma OneQuoted(a: string, st: Style, trail: bool)
    requires ValidStyle(a, st)
    ensures ValidStyles([a], [st]) && Join([a], [st], trail) == Quote(a, st) + if trail then " " else []
  {
    hide Quote, ValidStyle;
    assert [a][1..] == [] && [st][1..] == [];
    assert (if trail then " " else []) + [] == if trail then " " else [];
  }

  lemma OneCharacter(c: char, protect: bool)
    ensures Protect([c], [protect]) == if protect then ['\\', c] else [c]
  {
    assert [c][1..] == [] && [protect][1..] == [];
  }

  lemma EmptyQuoted()
    ensures Quote("", Backslashes([])) == "''"
  {
  }

  /** What quoted arguments look like. */
  lemma JoinExamples()
    ensures Join(["#"], [Backslashes([true])], false) == "\\#"
    ensures Join(["#"], [Backslashes([false])], true) == "# "
    ensures Join([""], [Backslashes([])], true) == "'' "
    ensures Join(["'"], [InSingle], false) == "'\\''"
    ensures Join(["\""], [InDouble], false) == "\"\\\"\""
  {
    OneCharacter('#', true);
    OneCharacter('#', false);
    OneCharacter('\'', true);
    OneCharacter('"', true);
    assert Places("'", {'\\', '\''}) == [true] && Places("\"", {'\\', '"'}) == [true];
    assert Quote("#", Backslashes([true])) == "\\#" && Quote("#", Backslashes([false])) == "#";
    assert Quote("'", InSingle) == "'\\''" && Quote("\"", InDouble) == "\"\\\"\"";
    hide Protect, Places, Join, Quote;
    OneQuoted("#", Backslashes([true]), false);
    OneQuoted("#", Backslashes([false]), true);
    assert Quote("", Backslashes([])) == "''" by { EmptyQuoted(); }
    OneQuoted("", Backslashes([]), true);
    OneQuoted("'", InSingle, false);
    OneQuoted("\"", InDouble, false);
  }

  /** ... and how several are put together. */
  lemma JoinMore(args: seq<string>, styles: seq<Style>, trail: bool)
    requires ValidStyles(args, styles) && |args| > 1
    ensures ValidStyles(args[1..], styles[1..])
    ensures Join(args, styles, trail) == Quote(args[0], styles[0]) + " " + Join(args[1..], styles[1..], trail)
  {
    hide Quote;
  }

  // ----- quoted arguments as lines of the grammar -----

  function Items(a: string, at: seq<bool>): seq<Item>
    requires |at| == |a|
  {
    if a == [] then [] else [Item(at[0], a[0])] + Items(a[1..], at[1..])
  }

  function Bares(a: string, at: seq<bool>): seq<Piece>
    requires |at| == |a|
  {
    if a == [] then [] else [if at[0] then Escaped(a[0]) else Plain(a[0])] + Bares(a[1..], at[1..])
  }

  function Pieces(a: string, st: Style): seq<Piece>
    requires ValidStyle(a, st)
  {
    match st
    case InSingle => [Single(Items(a, Places(a, {'\\', '\''})))]
    case InDouble => [Double(Items(a, Places(a, {'\\', '"'})))]
    case Backslashes(at) => if a == [] then [Single([])] else Bares(a, at)
  }

  /** The first argument as a word: closed by the space behind it, if there is one. */
  function FirstForm(args: seq<string>, styles: seq<Style>, trail: bool): WordForm
    requires ValidStyles(args, styles) && args != []
  {
    WordForm(Pieces(args[0], styles[0]), if |args| > 1 || trail then Sep(' ', []) else Bare)
  }

  function Forms(args: seq<string>, styles: seq<Style>, trail: bool): seq<WordForm>
    requires ValidStyles(args, styles)
  {
    if args == [] then [] else [FirstForm(args, styles, trail)] + Forms(args[1..], styles[1..], trail)
  }

  /** Backslashes in front of exactly the backslashes and quotes of a quoted text. */
  predicate Guards(a: string, at: seq<bool>, quote: char) {
    |at| == |a| && forall i :: 0 <= i < |a| ==> (at[i] <==> a[i] == '\\' || a[i] == quote)
  }

  lemma {:induction false} ItemsProtect(a: string, at: seq<bool>, quote: char)
    requires Guards(a, at, quote)
    ensures ValidItems(Items(a, at), quote)
    ensures ShowItems(Items(a, at)) == Protect(a, at)
  {
    if a != [] {
      ItemsProtect(a[1..], at[1..], quote);
      assert Items(a, at)[1..] == Items(a[1..], at[1..]);
    }
  }

  lemma {:induction false} ItemsRaw(a: string, at: seq<bool>)
    requires Guards(a, at, '\'')
    ensures RawText(Items(a, at)) == a
  {
    if a != [] {
      ItemsRaw(a[1..], at[1..]);
      assert Items(a, at)[1..] == Items(a[1..], at[1..]);
      assert a == [a[0]] + a[1..];
    }
  }

  lemma {:induction false} ItemsCooked(a: string, at: seq<bool>)
    requires Guards(a, at, '"')
    ensures CookedText(Items(a, at)) == a
  {
    if a != [] {
      ItemsCooked(a[1..], at[1..]);
      assert Items(a, at)[1..] == Items(a[1..], at[1..]);
      assert a == [a[0]] + a[1..];
    }
  }

  lemma {:induction false} BaresProtect(a: string, at: seq<bool>)
    requires ValidStyle(a, Backslashes(at))
    ensures forall p <- Bares(a, at) :: ValidPiece(p)
    ensures ShowPieces(Bares(a, at)) == Protect(a, at) && Text(Bares(a, at)) == a
  {
    if a != [] {
      BaresProtect(a[1..], at[1..]);
      var head := if at[0] then Escaped(a[0]) else Plain(a[0]);
      assert ValidPiece(head);
      assert Bares(a, at) == [head] + Bares(a[1..], at[1..]);
      assert Bares(a, at)[1..] == Bares(a[1..], at[1..]);
      assert a == [a[0]] + a[1..];
    }
  }

  lemma {:induction false} BaresPlain(a: string, at: seq<bool>)
    requires |at| == |a|
    ensures |Bares(a, at)| == |a| && !AfterQuote(Bares(a, at), false)
    ensures AllPlain(Bares(a, at)) <==> true !in at
  {
    if a != [] {
      BaresPlain(a[1..], at[1..]);
      var head := if at[0] then Escaped(a[0]) else Plain(a[0]);
      var more := Bares(a[1..], at[1..]);
      assert Bares(a, at) == [head] + more;
      assert head in [head] + more && forall p <- more :: p in [head] + more;
      assert at == [at[0]] + at[1..];
    }
  }

  /** Does the argument, quoted in this style, end the line with a closing quote or untouched? */
  predicate SelfDelimiting(a: string, st: Style) {
    st.Backslashes? && a != [] ==> true !in st.at
  }

  lemma PiecesQuote(a: string, st: Style)
    requires ValidStyle(a, st)
    ensures Pieces(a, st) != [] && forall p <- Pieces(a, st) :: ValidPiece(p)
    ensures ShowPieces(Pieces(a, st)) == Quote(a, st) && Text(Pieces(a, st)) == a
    ensures AfterQuote(Pieces(a, st), false) || AllPlain(Pieces(a, st)) <==> SelfDelimiting(a, st)
  {
    match st
    case InSingle =>
      ItemsProtect(a, Places(a, {'\\', '\''}), '\'');
      ItemsRaw(a, Places(a, {'\\', '\''}));
    case InDouble =>
      ItemsProtect(a, Places(a, {'\\', '"'}), '"');
      ItemsCooked(a, Places(a, {'\\', '"'}));
    case Backslashes(at) =>
      if a != [] {
        BaresProtect(a, at);
        BaresPlain(a, at);
      }
  }

  lemma ConsForm(w: WordForm, ws: seq<WordForm>)
    ensures ShowWords([w] + ws) == ShowPieces(w.pieces) + (ShowClose(w.close) + ShowWords(ws))
    ensures Meaning([w] + ws) == [Text(w.pieces)] + Meaning(ws)
    ensures ValidWord(w) && ValidWords(ws) && (ws == [] || w.close.Sep?) ==> ValidWords([w] + ws)
    ensures Terminated([w] + ws) <==>
              if w.close.Sep? then Terminated(ws)
              else w.close.Bare? ==> AfterQuote(w.pieces, false) || AllPlain(w.pieces)
  {
    assert ([w] + ws)[1..] == ws;
  }

  lemma FormsStep(args: seq<string>, styles: seq<Style>, trail: bool)
    requires ValidStyles(args, styles) && args != []
    ensures ValidStyles(args[1..], styles[1..])
    ensures var w := FirstForm(args, styles, trail);
            && Forms(args, styles, trail) == [w] + Forms(args[1..], styles[1..], trail)
            && Join(args, styles, trail) ==
                 Quote(args[0], styles[0]) + (ShowClose(w.close) + Join(args[1..], styles[1..], trail))
  {
    hide Quote, Pieces;
    assert [' '] + [] == " ";
  }

  lemma {:induction false} FormsJoin(args: seq<string>, styles: seq<Style>, trail: bool)
    requires ValidStyles(args, styles)
    ensures var ws := Forms(args, styles, trail);
            |ws| == |args| && ValidWords(ws) && ShowWords(ws) == Join(args, styles, trail) && Meaning(ws) == args
  {
    if args != [] {
      hide ValidWords, ShowWords, Meaning, ShowPieces, Text, Pieces, Quote, ValidPiece;
      hide Terminated, Forms, Join, ShowClose;
      var w := FirstForm(args, styles, trail);
      FormsStep(args, styles, trail);
      FormsJoin(args[1..], styles[1..], trail);
      PiecesQuote(args[0], styles[0]);
      ConsForm(w, Forms(args[1..], styles[1..], trail));
      assert args == [args[0]] + args[1..];
    }
  }

  lemma {:induction false} FormsTerminated(args: seq<string>, styles: seq<Style>, trail: bool)
    requires ValidStyles(args, styles)
    ensures Terminated(Forms(args, styles, trail)) <==>
              args == [] || trail || SelfDelimiting(args[|args|-1], styles[|args|-1])
  {
    if args != [] {
      hide ValidWords, ShowWords, Meaning, ShowPieces, Text, Pieces, Quote, ValidPiece;
      hide Terminated, Forms, Join, ShowClose;
      FormsStep(args, styles, trail);
      FormsTerminated(args[1..], styles[1..], trail);
      PiecesQuote(args[0], styles[0]);
      ConsForm(FirstForm(args, styles, trail), Forms(args[1..], styles[1..], trail));
      if |args| == 1 { NoForms(trail); }
    }
  }

  lemma NoForms(trail: bool)
    ensures Forms([], [], trail) == [] && Terminated([])
  {
  }

  /** A line quoted from NUL-free arguments is a C string in any memory it is stored in. */
  lemma {:induction false} JoinIsCString(args: seq<string>, styles: seq<Style>, trail: bool, after: seq<char>)
    requires ValidStyles(args, styles) && forall a <- args :: NUL !in a
    ensures NUL !in Join(args, styles, trail)
    ensures CString(Join(args, styles, trail) + [NUL] + after) == Join(args, styles, trail)
  {
    if args != [] {
      JoinIsCString(args[1..], styles[1..], trail, after);
      assert NUL !in args[0];
      QuoteHasNoNul(args[0], styles[0]);
    }
    CStringOf(Join(args, styles, trail), after);
  }

  lemma QuoteHasNoNul(a: string, st: Style)
    requires ValidStyle(a, st) && NUL !in a
    ensures NUL !in Quote(a, st)
  {
    ProtectHasNoNul(a, Places(a, {'\\', '\''}));
    ProtectHasNoNul(a, Places(a, {'\\', '"'}));
    if st.Backslashes? { ProtectHasNoNul(a, st.at); }
  }

  lemma {:induction false} ProtectHasNoNul(a: string, at: seq<bool>)
    requires |at| == |a| && NUL !in a
    ensures NUL !in Protect(a, at)
  {
    if a != [] { ProtectHasNoNul(a[1..], at[1..]); }
  }

  /** Whatever the arguments and however each of them is quoted, splitting the joined line
      gives the arguments back. The strings in memory are the arguments too if and only if
      the line has a trailing space, or the last argument needed no backslash or was put in
      quotes. */
  lemma RoundTrip(args: seq<string>, styles: seq<Style>, trail: bool)
    requires ValidStyles(args, styles)
    ensures Split(Join(args, styles, trail)) == Args(args)
    ensures InMemory(Join(args, styles, trail)) == Args(args) <==>
            args == [] || trail || SelfDelimiting(args[|args|-1], styles[|args|-1])
  {
    var l := Line([], Forms(args, styles, trail));
    FormsJoin(args, styles, trail);
    FormsTerminated(args, styles, trail);
    assert Show(l) == Join(args, styles, trail);
    SplitSound(l);
    TerminatedSound(l);
    InMemoryExactness(Show(l));
  }

  // ----- the quoting of characters that cannot be printed -----

  /** Single-quoted text is made of characters that stand between the quotes. */
  lemma {:induction false} RawChars(s: string)
    requires Raw(s).Closed?
    ensures forall c <- Raw(s).text :: c in s
  {
    if s[0] == '\'' {
    } else if s[0] == '\\' {
      RawChars(s[2..]);
      assert forall c <- s[2..] :: c in s;
      assert forall c <- RawEscape(s[1]) :: c in s;
    } else {
      RawChars(s[1..]);
      assert forall c <- s[1..] :: c in s;
    }
  }

  /** A shell writes an argument with unprintable characters as `$'...'`, with other
      characters in their place: such an argument never comes back. */
  lemma DollarQuotedIsLost(a: string, body: string, c: char)
    requires c in a && c != '$' && c != '\'' && c !in body
    requires Raw(body + "'").Closed? && Raw(body + "'").rest == []
    ensures Split("$'" + body + "'") != Args([a])
  {
    hide Raw;
    var quoted := body + "'";
    var line := "$'" + quoted;
    assert line == "$'" + body + "'";
    assert line[0] == '$' && line[1..][0] == '\'' && line[1..][1..] == quoted && SkipSpace(line) == line;
    RawChars(quoted);
    var text := Raw(quoted).text;
    assert WordFrom([], true) == Word([], [], End(true));
    assert WordFrom(line[1..], false) == Word(text + [], [], End(true));
    assert WordFrom(line, false) == Word(['$'] + (text + []), [], End(true));
    assert Split(line) == Args([['$'] + (text + [])]);
    assert c !in text;
    assert c !in ['$'] + (text + []);
  }
}
