/** Every way to write a JSON value: its words in any spelling, with any blanks around them. */
module JsonDocuments {
  import opened Format
  import opened JsonLexer
  import opened JsonLiterals
  import opened JsonRoundTrip
  import opened JsonSpaces
  import opened JsonValues

  /** A punctuation mark, a string literal, a number literal, or a keyword. */
  datatype Word = Punctuation(c: char) | Quotation(parts: seq<Part>) | Number(n: Literal) | Keyword(w: string)

  predicate ProperWord(x: Word) {
    match x
    case Punctuation(c) => c in {'{', '}', '[', ']', ':', ','}
    case Quotation(parts) => forall p :: p in parts ==> ProperPart(p)
    case Number(n) => ProperLiteral(n)
    case Keyword(w) => w in {"true", "false", "null"}
  }

  function Spelled(x: Word): string {
    match x
    case Punctuation(c) => [c]
    case Quotation(parts) => "\"" + (Sources(parts) + "\"")
    case Number(n) => Written(n)
    case Keyword(w) => w
  }

  /** What a number literal denotes; NumberLiteral says what number that is. */
  function NumberOf(n: Literal): real {
    Denoted(Numeral(n.minus, n.whole, n.frac, n.sign == "-", n.exp))
  }

  function WordToken(x: Word): Token {
    match x
    case Punctuation(c) => Mark(c)
    case Quotation(parts) => Str(Cut(Meanings(parts), STRING_MAX))
    case Number(n) => Num(NumberOf(n))
    case Keyword(w) => if w == "true" then True else if w == "false" then False else Null
  }

  function WordTokens(ws: seq<Word>): seq<Token> {
    if ws == [] then [] else [WordToken(ws[0])] + WordTokens(ws[1..])
  }

  /** The words with blanks before, between and behind them. */
  function Document(ws: seq<Word>, gaps: seq<string>): string
    requires |gaps| == |ws| + 1
  {
    if ws == [] then gaps[0] else gaps[0] + (Spelled(ws[0]) + Document(ws[1..], gaps[1..]))
  }

  /** Two numbers next to each other need a blank between them. */
  predicate ApartAt(ws: seq<Word>, gaps: seq<string>, i: nat)
    requires |gaps| == |ws| + 1
  {
    i + 1 < |ws| && ws[i].Number? && ws[i + 1].Number? ==> gaps[i + 1] != ""
  }

  ghost predicate Apart(ws: seq<Word>, gaps: seq<string>)
    requires |gaps| == |ws| + 1
  {
    forall i: nat :: ApartAt(ws, gaps, i)
  }

  lemma WordReads(s: string, p: nat, x: Word)
    requires ProperWord(x) && Holds(s, p, Spelled(x)) && (x.Number? ==> Delimited(s, p + |Spelled(x)|))
    ensures p + |Spelled(x)| <= |s| && Lex(s, p) == State(WordToken(x), p + |Spelled(x)|)
    ensures WordToken(x) != Eof && WordToken(x) != Error && (WordToken(x).Num? <==> x.Number?)
  {
    hide Lex, Holds, Delimited, Denoted, NumeralAt, ProperPart, ProperLiteral, Written;
    Within(s, p, Spelled(x));
    match x
    case Punctuation(c) => MarkReadsBack(s, p, c);
    case Quotation(parts) => StringLiteral(s, p, parts);
    case Number(n) =>
      NumeralIs(s, p, n);
      LexNumber(s, p);
    case Keyword(w) => WordReadsBack(s, p, w, WordToken(x));
  }

  lemma WordStarts(x: Word)
    requires ProperWord(x)
    ensures Spelled(x) != "" && (!x.Number? ==> !Extends(Spelled(x)[0]))
  {
    hide ProperPart, Sources;
    if x.Number? { LiteralStarts(x.n); }
  }

  lemma LiteralStarts(n: Literal)
    requires ProperLiteral(n)
    ensures Written(n) != ""
  {
    if !n.minus { assert |Written(n)| >= |n.whole|; }
  }

  /** What stands behind a number. */
  lemma DocumentStarts(s: string, p: nat, ws: seq<Word>, gaps: seq<string>)
    requires |gaps| == |ws| + 1 && Gaps(gaps) && Holds(s, p, Document(ws, gaps)) && p + |Document(ws, gaps)| == |s|
    requires ws != [] ==> ProperWord(ws[0]) && (ws[0].Number? ==> gaps[0] != "")
    ensures Delimited(s, p)
  {
    hide Spelled, ProperWord;
    var t := Document(ws, gaps);
    if t != [] {
      HoldsChar(s, p, t, 0);
      assert AllBlank(gaps[0]);
      if gaps[0] != [] {
        assert t[0] == gaps[0][0];
      } else {
        WordStarts(ws[0]);
        assert t[0] == Spelled(ws[0])[0];
      }
    }
  }

  lemma ApartTail(ws: seq<Word>, gaps: seq<string>)
    requires |gaps| == |ws| + 1 && ws != [] && Apart(ws, gaps)
    ensures Apart(ws[1..], gaps[1..])
    ensures |ws| > 1 && ws[0].Number? && ws[1].Number? ==> gaps[1] != ""
  {
    forall i: nat ensures ApartAt(ws[1..], gaps[1..], i) { assert ApartAt(ws, gaps, i + 1); }
    assert ApartAt(ws, gaps, 0);
  }

  /** A document has exactly the tokens of its words, and then ends. */
  lemma {:induction false} DocumentReads(s: string, p: nat, ws: seq<Word>, gaps: seq<string>)
    requires |gaps| == |ws| + 1 && Gaps(gaps) && (forall x :: x in ws ==> ProperWord(x)) && Apart(ws, gaps)
    requires Holds(s, p, Document(ws, gaps)) && p + |Document(ws, gaps)| == |s|
    ensures Ahead(s, Lex(s, p)) == WordTokens(ws) + [Eof]
    decreases |ws|
  {
    hide Lex, Holds, Spelled, WordToken, ProperWord, Delimited, Gaps, Apart;
    GapsTail(gaps);
    var q := p + |gaps[0]|;
    if ws == [] {
      HoldsIs(s, p, gaps[0]);
      BlanksSkipped(s, p, q);
      AtEnd(s);
    } else {
      var x, rest := ws[0], Document(ws[1..], gaps[1..]);
      HoldsParts(s, p, gaps[0], Spelled(x) + rest);
      HoldsParts(s, q, Spelled(x), rest);
      HoldsIs(s, p, gaps[0]);
      BlanksSkipped(s, p, q);
      ApartTail(ws, gaps);
      var r := q + |Spelled(x)|;
      if x.Number? { DocumentStarts(s, r, ws[1..], gaps[1..]); }
      WordReads(s, q, x);
      DocumentReads(s, r, ws[1..], gaps[1..]);
      assert [WordToken(x)] + (WordTokens(ws[1..]) + [Eof]) == WordTokens(ws) + [Eof];
    }
  }

  // ---------------------------------------------------------------- documents

  /** A text written with these words stands for the value. */
  ghost predicate Writes(ws: seq<Word>, v: Value) {
    (forall x :: x in ws ==> ProperWord(x)) && WordTokens(ws) == ValueTokens(v)
  }

  /** However a value is written, and with whatever blanks, the lexer finds its tokens and skipping it returns 0 at
      EOF. */
  lemma AnyDocument(v: Value, ws: seq<Word>, gaps: seq<string>)
    requires Writes(ws, v) && |gaps| == |ws| + 1 && Gaps(gaps) && Apart(ws, gaps) && Shaped(v, true)
    ensures var s := Document(ws, gaps);
      Comes(s, Lex(s, 0), ValueTokens(v), [Eof]) && SkipValue(s, Lex(s, 0)) == (State(Eof, |s|), true)
  {
    hide Lex, Ahead, SkipValue, Gaps, Apart, ValueTokens, WordTokens, ProperWord, Shaped;
    var s := Document(ws, gaps);
    Itself(s);
    DocumentReads(s, 0, ws, gaps);
    SkipsValue(s, Lex(s, 0), v, [Eof]);
    LexEof(s, 0);
    SkipSound(s, Lex(s, 0));
    OnlyEof(s, SkipValue(s, Lex(s, 0)).0);
  }

  lemma OnlyEof(s: string, st: State)
    requires st.pos <= |s| && Ahead(s, st) == [] + [Eof]
    ensures st.tok == Eof
  {
    hide Lex;
    assert Ahead(s, st)[0] == Eof;
  }
}
