// A grammar for command lines, and the proof that the word splitter accepts exactly the
// lines of the grammar and gives each its meaning.
module ArgvGrammar {
  import opened ArgvSpec

  /** A character inside quotes, bare or behind a backslash. */
  datatype Item = Item(escaped: bool, c: char)

  datatype Piece =
    | Plain(c: char)
    | Escaped(c: char)
    | Single(items: seq<Item>)
    | Double(items: seq<Item>)

  /** How a word is closed: by a separator and white space, by the end of the line, or by
      a lone backslash at the end of the line. */
  datatype Close = Sep(c: char, gap: string) | Bare | Slash

  datatype WordForm = WordForm(pieces: seq<Piece>, close: Close)

  datatype Line = Line(gap: string, words: seq<WordForm>)

  // ----- well-formed lines -----

  predicate AllSpace(s: string) {
    forall c <- s :: IsSpace(c)
  }

  predicate ValidItems(items: seq<Item>, quote: char) {
    forall it <- items :: it.escaped || (it.c != '\\' && it.c != quote)
  }

  predicate ValidPiece(p: Piece) {
    match p
    case Plain(c) => !IsMeta(c) && !EndsWord(c)
    case Escaped(c) => true
    case Single(items) => ValidItems(items, '\'')
    case Double(items) => ValidItems(items, '"')
  }

  /** A word shows at least one character; a word without pieces is a lone backspace or backslash. */
  predicate ValidWord(w: WordForm) {
    && (forall p <- w.pieces :: ValidPiece(p))
    && (w.close.Sep? ==> EndsWord(w.close.c) && AllSpace(w.close.gap))
    && (w.pieces == [] ==> w.close.Slash? || (w.close.Sep? && !IsSpace(w.close.c)))
  }

  predicate ValidWords(ws: seq<WordForm>) {
    ws != [] ==>
      && ValidWord(ws[0])
      && (|ws| > 1 ==> ws[0].close.Sep?)
      && ValidWords(ws[1..])
  }

  predicate Valid(l: Line) {
    AllSpace(l.gap) && ValidWords(l.words)
  }

  // ----- what a line looks like -----

  function ShowItem(it: Item): string {
    if it.escaped then ['\\', it.c] else [it.c]
  }

  function ShowItems(items: seq<Item>): string {
    if items == [] then [] else ShowItem(items[0]) + ShowItems(items[1..])
  }

  function ShowPiece(p: Piece): string {
    match p
    case Plain(c) => [c]
    case Escaped(c) => ['\\', c]
    case Single(items) => "'" + ShowItems(items) + "'"
    case Double(items) => "\"" + ShowItems(items) + "\""
  }

  function ShowPieces(ps: seq<Piece>): string {
    if ps == [] then [] else ShowPiece(ps[0]) + ShowPieces(ps[1..])
  }

  function ShowClose(c: Close): string {
    match c
    case Sep(c, gap) => [c] + gap
    case Bare => []
    case Slash => "\\"
  }

  function ShowWords(ws: seq<WordForm>): string {
    if ws == [] then []
    else ShowPieces(ws[0].pieces) + (ShowClose(ws[0].close) + ShowWords(ws[1..]))
  }

  function Show(l: Line): string {
    l.gap + ShowWords(l.words)
  }

  // ----- what a line means -----

  function RawText(items: seq<Item>): string {
    if items == [] then []
    else (if items[0].escaped then RawEscape(items[0].c) else [items[0].c]) + RawText(items[1..])
  }

  function CookedText(items: seq<Item>): string {
    if items == [] then []
    else [if items[0].escaped then CookedEscape(items[0].c) else items[0].c] + CookedText(items[1..])
  }

  function PieceText(p: Piece): string {
    match p
    case Plain(c) => [c]
    case Escaped(c) => [c]
    case Single(items) => RawText(items)
    case Double(items) => CookedText(items)
  }

  function Text(ps: seq<Piece>): string {
    if ps == [] then [] else PieceText(ps[0]) + Text(ps[1..])
  }

  function Meaning(ws: seq<WordForm>): seq<string> {
    if ws == [] then [] else [Text(ws[0].pieces)] + Meaning(ws[1..])
  }

  // ----- every valid line splits into its meaning -----

  lemma {:induction false} RawSound(items: seq<Item>, tail: string)
    requires ValidItems(items, '\'')
    ensures Raw(ShowItems(items) + ("'" + tail)) == Closed(RawText(items), tail)
  {
    var s := ShowItems(items) + ("'" + tail);
    if items == [] {
      assert s == "'" + tail && s[1..] == tail;
    } else {
      RawSound(items[1..], tail);
      assert s == ShowItem(items[0]) + (ShowItems(items[1..]) + ("'" + tail));
      assert s[|ShowItem(items[0])|..] == ShowItems(items[1..]) + ("'" + tail);
    }
  }

  lemma {:induction false} CookedSound(items: seq<Item>, tail: string)
    requires ValidItems(items, '"')
    ensures Cooked(ShowItems(items) + ("\"" + tail)) == Closed(CookedText(items), tail)
  {
    var s := ShowItems(items) + ("\"" + tail);
    if items == [] {
      assert s == "\"" + tail && s[1..] == tail;
    } else {
      CookedSound(items[1..], tail);
      assert s == ShowItem(items[0]) + (ShowItems(items[1..]) + ("\"" + tail));
      assert s[|ShowItem(items[0])|..] == ShowItems(items[1..]) + ("\"" + tail);
    }
  }

  /** Does a word that continues behind these pieces find itself right behind a closing quote? */
  predicate AfterQuote(ps: seq<Piece>, q: bool) {
    if ps == [] then q else ps[|ps|-1].Single? || ps[|ps|-1].Double?
  }

  lemma SingleSound(items: seq<Item>, tail: string, q: bool)
    requires ValidItems(items, '\'')
    ensures WordFrom(ShowPiece(Single(items)) + tail, q) == WordFrom(tail, true).After(RawText(items))
  {
    hide Raw, Cooked, ShowItems, RawText;
    var s := ShowPiece(Single(items)) + tail;
    var body := ShowItems(items) + ("'" + tail);
    assert s[0] == '\'' && s[1..] == body;
    assert Raw(body) == Closed(RawText(items), tail) by { RawSound(items, tail); }
  }

  lemma DoubleSound(items: seq<Item>, tail: string, q: bool)
    requires ValidItems(items, '"')
    ensures WordFrom(ShowPiece(Double(items)) + tail, q) == WordFrom(tail, true).After(CookedText(items))
  {
    hide Raw, Cooked, ShowItems, CookedText;
    var s := ShowPiece(Double(items)) + tail;
    var body := ShowItems(items) + ("\"" + tail);
    assert s[0] == '"' && s[1..] == body;
    assert Cooked(body) == Closed(CookedText(items), tail) by { CookedSound(items, tail); }
  }

  lemma PieceSound(p: Piece, tail: string, q: bool)
    requires ValidPiece(p)
    ensures WordFrom(ShowPiece(p) + tail, q) == WordFrom(tail, AfterQuote([p], q)).After(PieceText(p))
  {
    match p
    case Single(items) => SingleSound(items, tail, q);
    case Double(items) => DoubleSound(items, tail, q);
    case _ =>
      var s := ShowPiece(p) + tail;
      assert s[|ShowPiece(p)|..] == tail;
      assert !AfterQuote([p], q);
  }

  lemma {:induction false} PiecesSound(ps: seq<Piece>, tail: string, q: bool)
    requires forall p <- ps :: ValidPiece(p)
    ensures WordFrom(ShowPieces(ps) + tail, q) == WordFrom(tail, AfterQuote(ps, q)).After(Text(ps))
  {
    if ps == [] {
      assert ShowPieces(ps) + tail == tail;
      var w := WordFrom(tail, q);
      if w.Word? { assert [] + w.text == w.text; }
    } else {
      var rest := ShowPieces(ps[1..]) + tail;
      var q' := AfterQuote([ps[0]], q);
      assert ShowPieces(ps) + tail == ShowPiece(ps[0]) + rest;
      PieceSound(ps[0], rest, q);
      PiecesSound(ps[1..], tail, q');
      assert AfterQuote(ps[1..], q') == AfterQuote(ps, q);
      AfterTwice(WordFrom(tail, AfterQuote(ps, q)), PieceText(ps[0]), Text(ps[1..]));
    }
  }

  lemma {:induction false} SkipsGap(gap: string, tail: string)
    requires AllSpace(gap) && (tail == [] || !IsSpace(tail[0]))
    ensures SkipSpace(gap + tail) == tail
  {
    if gap == [] {
      assert gap + tail == tail;
    } else {
      assert (gap + tail)[1..] == gap[1..] + tail;
      SkipsGap(gap[1..], tail);
    }
  }

  /** A shown word starts with a character that is not white space. */
  lemma WordsStart(ws: seq<WordForm>)
    requires ValidWords(ws) && ws != []
    ensures var s := ShowWords(ws); s != [] && !IsSpace(s[0])
  {
    var w := ws[0];
    if w.pieces != [] {
      assert ValidPiece(w.pieces[0]);
      assert ShowPiece(w.pieces[0]) != [] && !IsSpace(ShowPiece(w.pieces[0])[0]);
    }
  }

  /** What `WordFrom` makes of the close of a word and everything behind it. */
  function CloseResult(c: Close, more: string, q: bool): WordResult {
    match c
    case Sep(_, gap) => Word([], gap + more, Separator)
    case Bare => Word([], [], End(q))
    case Slash => Word([], [], Backslash)
  }

  lemma CloseSound(c: Close, more: string, q: bool)
    requires if c.Sep? then EndsWord(c.c) else more == []
    ensures WordFrom(ShowClose(c) + more, q) == CloseResult(c, more, q)
  {
    var tail := ShowClose(c) + more;
    match c
    case Sep(sep, gap) => assert tail[0] == sep && tail[1..] == gap + more;
    case Bare => assert tail == [];
    case Slash => assert tail == "\\";
  }

  /** The word in front of a shown list, together with what `WordFrom` leaves of the list. */
  lemma WordSound(ws: seq<WordForm>)
    requires ValidWords(ws) && ws != []
    ensures var w := ws[0];
            WordFrom(ShowWords(ws), false) ==
              CloseResult(w.close, ShowWords(ws[1..]), AfterQuote(w.pieces, false)).After(Text(w.pieces))
  {
    var w := ws[0];
    assert !w.close.Sep? ==> ws[1..] == [];
    PiecesSound(w.pieces, ShowClose(w.close) + ShowWords(ws[1..]), false);
    CloseSound(w.close, ShowWords(ws[1..]), AfterQuote(w.pieces, false));
  }

  lemma {:induction false} SplitSound(l: Line)
    requires Valid(l)
    ensures Split(Show(l)) == Args(Meaning(l.words))
    decreases |l.words|
  {
    var s := ShowWords(l.words);
    if l.words == [] {
      SkipsGap(l.gap, s);
    } else {
      WordsStart(l.words);
      SkipsGap(l.gap, s);
      WordSound(l.words);
      var w := l.words[0];
      assert Text(w.pieces) + [] == Text(w.pieces);
      if w.close.Sep? {
        var rest := Line(w.close.gap, l.words[1..]);
        SplitSound(rest);
        assert Split(Show(l)) == Split(Show(rest)).After([Text(w.pieces)]);
      } else {
        assert l.words[1..] == [];
        assert Meaning(l.words) == [Text(w.pieces)];
      }
    }
  }

  // ----- every line that splits is a valid line -----

  lemma ConsItem(it: Item, more: seq<Item>) returns (items: seq<Item>)
    ensures items == [it] + more && ShowItems(items) == ShowItem(it) + ShowItems(more)
  {
    items := [it] + more;
    assert items[1..] == more;
  }

  lemma NoItems()
    ensures ShowItems([]) == []
  {
  }

  lemma RawUnfold(s: string)
    requires Raw(s).Closed?
    ensures s != [] && if s[0] == '\'' then Raw(s).rest == s[1..]
                       else if s[0] == '\\'
                       then |s| > 1 && Raw(s[2..]).Closed? && Raw(s).rest == Raw(s[2..]).rest
                       else Raw(s[1..]).Closed? && Raw(s).rest == Raw(s[1..]).rest
  {
  }

  lemma {:induction false} RawComplete(s: string) returns (items: seq<Item>)
    requires Raw(s).Closed?
    ensures ValidItems(items, '\'') && s == ShowItems(items) + ("'" + Raw(s).rest)
  {
    hide ShowItems, Raw;
    NoItems();
    RawUnfold(s);
    if s[0] == '\'' {
      items := [];
    } else if s[0] == '\\' {
      var more := RawComplete(s[2..]);
      items := ConsItem(Item(true, s[1]), more);
      assert s == ['\\', s[1]] + s[2..];
    } else {
      var more := RawComplete(s[1..]);
      items := ConsItem(Item(false, s[0]), more);
      assert s == [s[0]] + s[1..];
    }
  }

  lemma CookedUnfold(s: string)
    requires Cooked(s).Closed?
    ensures s != [] && if s[0] == '"' then Cooked(s).rest == s[1..]
                       else if s[0] == '\\'
                       then |s| > 1 && Cooked(s[2..]).Closed? && Cooked(s).rest == Cooked(s[2..]).rest
                       else Cooked(s[1..]).Closed? && Cooked(s).rest == Cooked(s[1..]).rest
  {
  }

  lemma {:induction false} CookedComplete(s: string) returns (items: seq<Item>)
    requires Cooked(s).Closed?
    ensures ValidItems(items, '"') && s == ShowItems(items) + ("\"" + Cooked(s).rest)
  {
    hide ShowItems, Cooked;
    NoItems();
    CookedUnfold(s);
    if s[0] == '"' {
      items := [];
    } else if s[0] == '\\' {
      var more := CookedComplete(s[2..]);
      items := ConsItem(Item(true, s[1]), more);
      assert s == ['\\', s[1]] + s[2..];
    } else {
      var more := CookedComplete(s[1..]);
      items := ConsItem(Item(false, s[0]), more);
      assert s == [s[0]] + s[1..];
    }
  }

  /** The first piece of a word that goes on. */
  lemma FirstPiece(s: string) returns (p: Piece, next: string, q: bool)
    requires s != [] && s != "\\" && !EndsWord(s[0])
    requires s[0] == '\'' ==> Raw(s[1..]).Closed?
    requires s[0] == '"' ==> Cooked(s[1..]).Closed?
    ensures ValidPiece(p) && s == ShowPiece(p) + next && |next| < |s|
    ensures match s[0]
            case '\\' => p.Escaped? && next == s[2..] && !q
            case '\'' => p.Single? && next == Raw(s[1..]).rest && q
            case '"' => p.Double? && next == Cooked(s[1..]).rest && q
            case _ => p.Plain? && next == s[1..] && !q
  {
    hide Raw, Cooked, ShowItems;
    p, next, q := Plain(s[0]), s[1..], false;
    if s[0] == '\\' {
      p, next := Escaped(s[1]), s[2..];
    } else if s[0] == '\'' {
      var items := RawComplete(s[1..]);
      p, next, q := Single(items), Raw(s[1..]).rest, true;
    } else if s[0] == '"' {
      var items := CookedComplete(s[1..]);
      p, next, q := Double(items), Cooked(s[1..]).rest, true;
    }
  }

  lemma ConsPiece(p: Piece, more: seq<Piece>) returns (ps: seq<Piece>)
    ensures ps == [p] + more && ShowPieces(ps) == ShowPiece(p) + ShowPieces(more)
  {
    ps := [p] + more;
    assert ps[1..] == more;
  }

  lemma NoPieces()
    ensures ShowPieces([]) == []
  {
  }

  /** The pieces of the word at the front of `s`, and the characters that close it. */
  lemma {:induction false} WordComplete(s: string, q: bool) returns (ps: seq<Piece>, mark: string)
    requires WordFrom(s, q).Word?
    ensures forall p <- ps :: ValidPiece(p)
    ensures var w := WordFrom(s, q);
            && s == ShowPieces(ps) + (mark + w.rest)
            && match w.stop
               case Separator => |mark| == 1 && EndsWord(mark[0])
               case Backslash => mark == "\\"
               case End(_) => mark == []
    decreases |s|
  {
    hide Raw, Cooked, ShowPiece, ShowPieces;
    NoPieces();
    ps := [];
    if s == [] {
      mark := [];
    } else if s == "\\" {
      mark := s;
    } else if EndsWord(s[0]) {
      mark := [s[0]];
      assert s == mark + s[1..];
    } else {
      var p, next, q' := FirstPiece(s);
      var more;
      more, mark := WordComplete(next, q');
      ps := ConsPiece(p, more);
    }
  }

  lemma {:induction false} GapComplete(s: string) returns (gap: string)
    ensures AllSpace(gap) && s == gap + SkipSpace(s)
  {
    if s != [] && IsSpace(s[0]) {
      var more := GapComplete(s[1..]);
      gap := [s[0]] + more;
      assert gap + SkipSpace(s) == [s[0]] + (more + SkipSpace(s));
    } else {
      gap := [];
    }
  }

  /** Prepend a word, closed by `c` and the leading white space of `l`. */
  function Cons(ps: seq<Piece>, c: char, l: Line): seq<WordForm> {
    [WordForm(ps, Sep(c, l.gap))] + l.words
  }

  lemma ConsComplete(ps: seq<Piece>, c: char, l: Line)
    requires forall p <- ps :: ValidPiece(p)
    requires Valid(l) && EndsWord(c) && (ps == [] ==> !IsSpace(c))
    ensures ValidWords(Cons(ps, c, l))
    ensures ShowWords(Cons(ps, c, l)) == ShowPieces(ps) + ([c] + Show(l))
  {
    var ws := Cons(ps, c, l);
    assert ws[1..] == l.words;
    assert ShowClose(ws[0].close) + ShowWords(l.words) == [c] + Show(l);
  }

  /** A word that runs into the end of the line. */
  function LastWord(ps: seq<Piece>, mark: string): seq<WordForm> {
    [WordForm(ps, if mark == [] then Bare else Slash)]
  }

  lemma LastWordComplete(ps: seq<Piece>, mark: string)
    requires forall p <- ps :: ValidPiece(p)
    requires mark == "\\" || (mark == [] && ps != [])
    ensures ValidWords(LastWord(ps, mark))
    ensures ShowWords(LastWord(ps, mark)) == ShowPieces(ps) + mark
  {
    var ws := LastWord(ps, mark);
    assert ws[1..] == [];
  }

  lemma {:induction false} SplitComplete(s: string) returns (l: Line)
    requires Split(s).Args?
    ensures Valid(l) && Show(l) == s
    decreases |s|
  {
    var t := SkipSpace(s);
    var gap := GapComplete(s);
    l := Line(gap, []);
    if t != [] {
      var w := WordFrom(t, false);
      var ps, mark := WordComplete(t, false);
      if ps == [] { assert t == mark + w.rest; }
      if w.stop.Separator? {
        var more := SplitComplete(w.rest);
        assert mark == [mark[0]];
        ConsComplete(ps, mark[0], more);
        l := Line(gap, Cons(ps, mark[0], more));
      } else {
        assert mark + w.rest == mark;
        LastWordComplete(ps, mark);
        l := Line(gap, LastWord(ps, mark));
      }
    }
  }

  /** The splitter accepts exactly the lines of the grammar; the words it gives are the
      meaning of every such reading. */
  lemma SplitIsGrammar(s: string)
    ensures Split(s).Args? <==> exists l :: Valid(l) && Show(l) == s
    ensures forall l :: Valid(l) && Show(l) == s ==> Split(s) == Args(Meaning(l.words))
  {
    if Split(s).Args? { var l := SplitComplete(s); }
    forall l | Valid(l) && Show(l) == s
      ensures Split(s) == Args(Meaning(l.words))
    {
      SplitSound(l);
    }
  }
}
