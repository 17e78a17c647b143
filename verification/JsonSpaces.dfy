/** White space between tokens, and all else that the lexer makes of a text: nothing but its tokens matters. */
module JsonSpaces {
  import opened Format
  import opened JsonLexer
  import opened JsonRoundTrip
  import opened JsonWriter

  // ---------------------------------------------------------------- single tokens

  predicate AllBlank(w: string) {
    forall i :: 0 <= i < |w| ==> Blank(w[i])
  }

  /** Blanks before a token are passed over ... */
  lemma {:induction false} BlanksSkipped(s: string, p: nat, q: nat)
    requires p <= q <= |s| && AllBlank(s[p..q])
    ensures Lex(s, p) == Lex(s, q)
    decreases q - p
  {
    hide TokenAt;
    if p < q {
      assert s[p..q][0] == s[p];
      assert s[p..q][1..] == s[p + 1..q];
      BlanksSkipped(s, p + 1, q);
    }
  }

  /** ... and nothing else is: any other character decides by itself what token begins there. */
  lemma FirstDecides(s: string, p: nat)
    requires p < |s| && !Blank(s[p])
    ensures var c, t := s[p], Lex(s, p).tok;
      && (t == LBrace <==> c == '{') && (t == RBrace <==> c == '}')
      && (t == LBracket <==> c == '[') && (t == RBracket <==> c == ']')
      && (t == Colon <==> c == ':') && (t == JsonLexer.Comma <==> c == ',')
      && (t.Str? ==> c == '"')
      && (t.Num? <==> c == '-' || '0' <= c <= '9')
      && (t == True <==> p + 4 <= |s| && s[p..p + 4] == "true")
      && (t == False <==> p + 5 <= |s| && s[p..p + 5] == "false")
      && (t == Null <==> p + 4 <= |s| && s[p..p + 4] == "null")
      && t != Eof
  {
    hide ScanString, NumeralAt, Denoted;
    WordStarts(s, p, "true");
    WordStarts(s, p, "false");
    WordStarts(s, p, "null");
  }

  lemma WordStarts(s: string, p: nat, w: string)
    requires p < |s| && w != []
    ensures p + |w| <= |s| && s[p..p + |w|] == w ==> s[p] == w[0]
  {
    if p + |w| <= |s| && s[p..p + |w|] == w { assert s[p..p + |w|][0] == s[p]; }
  }

  // ---------------------------------------------------------------- only the tokens matter

  /** The current token and all that follow, up to EOF or the first ERROR. */
  function Ahead(s: string, st: State): seq<Token>
    requires st.pos <= |s|
    decreases Measure(s, st)
  {
    [st.tok] + if Usable(st) then Ahead(s, Next(s, st)) else []
  }

  lemma SameNow(a: string, st: State, b: string, tt: State)
    requires st.pos <= |a| && tt.pos <= |b| && Ahead(a, st) == Ahead(b, tt)
    ensures st.tok == tt.tok && Usable(st) == Usable(tt)
    ensures Usable(st) ==> Ahead(a, Next(a, st)) == Ahead(b, Next(b, tt))
  {
    hide Lex;
    assert Ahead(a, st)[0] == Ahead(b, tt)[0];
    assert Usable(st) ==> Ahead(a, st)[1..] == Ahead(a, Next(a, st)) && Ahead(b, tt)[1..] == Ahead(b, Next(b, tt));
  }

  lemma SameAfterComma(a: string, st: State, b: string, tt: State)
    requires st.pos <= |a| && tt.pos <= |b| && Ahead(a, st) == Ahead(b, tt)
    ensures Ahead(a, PastComma(a, st)) == Ahead(b, PastComma(b, tt))
  {
    hide Lex, Ahead;
    SameNow(a, st, b, tt);
  }

  /** Two texts with the same tokens ahead are skipped alike. */
  lemma {:induction false} SameSkip(a: string, st: State, b: string, tt: State)
    requires st.pos <= |a| && tt.pos <= |b| && Ahead(a, st) == Ahead(b, tt)
    ensures SkipValue(a, st).1 == SkipValue(b, tt).1
    ensures Ahead(a, SkipValue(a, st).0) == Ahead(b, SkipValue(b, tt).0)
    decreases Measure(a, st), 0
  {
    hide Lex, Ahead;
    SameNow(a, st, b, tt);
    if st.tok == LBrace {
      SameSkipMembers(a, Next(a, st), b, Next(b, tt));
    } else if st.tok == LBracket {
      SameSkipElements(a, Next(a, st), b, Next(b, tt));
    }
  }

  lemma {:induction false} SameSkipMembers(a: string, st: State, b: string, tt: State)
    requires st.pos <= |a| && tt.pos <= |b| && Ahead(a, st) == Ahead(b, tt)
    ensures SkipMembers(a, st).1 == SkipMembers(b, tt).1
    ensures Ahead(a, SkipMembers(a, st).0) == Ahead(b, SkipMembers(b, tt).0)
    decreases Measure(a, st), 1
  {
    hide Lex, Ahead, SkipValue;
    SameNow(a, st, b, tt);
    if st.tok.Str? {
      var x, y := Next(a, st), Next(b, tt);
      SameNow(a, x, b, y);
      if x.tok == Colon {
        SameSkip(a, Next(a, x), b, Next(b, y));
        var (u, ok) := SkipValue(a, Next(a, x));
        var (v, ok') := SkipValue(b, Next(b, y));
        if ok {
          SameAfterComma(a, u, b, v);
          SameSkipMembers(a, PastComma(a, u), b, PastComma(b, v));
        }
      }
    }
  }

  lemma {:induction false} SameSkipElements(a: string, st: State, b: string, tt: State)
    requires st.pos <= |a| && tt.pos <= |b| && Ahead(a, st) == Ahead(b, tt)
    ensures SkipElements(a, st).1 == SkipElements(b, tt).1
    ensures Ahead(a, SkipElements(a, st).0) == Ahead(b, SkipElements(b, tt).0)
    decreases Measure(a, st), 1
  {
    hide Lex, Ahead, SkipValue;
    SameNow(a, st, b, tt);
    if st.tok != RBracket && st.tok != Eof {
      SameSkip(a, st, b, tt);
      var (u, ok) := SkipValue(a, st);
      var (v, ok') := SkipValue(b, tt);
      if ok {
        SameAfterComma(a, u, b, v);
        SameSkipElements(a, PastComma(a, u), b, PastComma(b, v));
      }
    }
  }

  // ---------------------------------------------------------------- a tree written with blanks

  /** The pieces of a serialised tree: punctuation, keys, and values that are one token. */
  datatype Piece = Punct(c: char) | Name(key: string) | Leaf(v: Json)

  function Whole(x: Piece): string {
    match x
    case Punct(c) => [c]
    case Name(key) => Quoted(key)
    case Leaf(v) => Text(v)
  }

  function TokenOf(x: Piece): Token {
    match x
    case Punct(c) => Mark(c)
    case Name(key) => Str(Cut(key, STRING_MAX))
    case Leaf(v) => Tokens(v)[0]
  }

  predicate Proper(x: Piece) {
    match x
    case Punct(c) => Mark(c) != Error
    case Name(key) => CleanKey(key)
    case Leaf(v) => !v.JArray? && !v.JObject?
  }

  function Pieces(v: Json): seq<Piece>
    decreases v, 0
  {
    match v
    case JArray(items) => [Punct('[')] + ElementPieces(items) + [Punct(']')]
    case JObject(members) => [Punct('{')] + MemberPieces(members) + [Punct('}')]
    case _ => [Leaf(v)]
  }

  function ElementPieces(items: seq<Json>): seq<Piece>
    decreases items, 1
  {
    if items == [] then []
    else Pieces(items[0]) + if |items| == 1 then [] else [Punct(',')] + ElementPieces(items[1..])
  }

  function MemberPieces(members: seq<Member>): seq<Piece>
    decreases members, 1
  {
    if members == [] then []
    else OneMemberPieces(members[0]) + if |members| == 1 then [] else [Punct(',')] + MemberPieces(members[1..])
  }

  function OneMemberPieces(m: Member): seq<Piece>
    decreases m, 1
  {
    [Name(m.key), Punct(':')] + Pieces(m.value)
  }

  /** The pieces with gaps before, between and behind them. */
  function Spread(ps: seq<Piece>, gaps: seq<string>): string
    requires |gaps| == |ps| + 1
  {
    if ps == [] then gaps[0] else gaps[0] + (Whole(ps[0]) + Spread(ps[1..], gaps[1..]))
  }

  function TokensOf(ps: seq<Piece>): seq<Token> {
    if ps == [] then [] else [TokenOf(ps[0])] + TokensOf(ps[1..])
  }

  /** No number is followed by anything but a comma or a closing mark. */
  predicate EndsAt(ps: seq<Piece>, i: nat)
    requires i < |ps|
  {
    && Proper(ps[i])
    && (i + 1 < |ps| && ps[i].Leaf? ==> ps[i + 1] in {Punct(','), Punct(']'), Punct('}')})
  }

  ghost predicate Readable(ps: seq<Piece>) {
    forall i :: 0 <= i < |ps| ==> EndsAt(ps, i)
  }

  ghost predicate Gaps(gaps: seq<string>) {
    forall i :: 0 <= i < |gaps| ==> AllBlank(gaps[i])
  }

  lemma PieceReads(s: string, p: nat, x: Piece)
    requires Proper(x) && Holds(s, p, Whole(x)) && (x.Leaf? ==> Delimited(s, p + |Whole(x)|))
    ensures p + |Whole(x)| <= |s|
    ensures Lex(s, p) == State(TokenOf(x), p + |Whole(x)|)
    ensures TokenOf(x) != Eof && TokenOf(x) != Error
  {
    hide Lex, Holds, Delimited, Escaped, Kept, SignedText, Cut, CleanKey;
    Within(s, p, Whole(x));
    match x
    case Punct(c) => MarkReadsBack(s, p, c);
    case Name(key) => KeyReadsBack(s, p, key);
    case Leaf(v) =>
      match v {
        case JString(t) => StringReadsBack(s, p, t);
        case JInt(i) => IntReadsBack(s, p, i);
        case JBool(b) => WordReadsBack(s, p, Text(v), if b then True else False);
        case JNull => WordReadsBack(s, p, Text(v), Null);
      }
  }

  lemma ReadableTail(ps: seq<Piece>)
    requires Readable(ps) && ps != []
    ensures Proper(ps[0]) && Readable(ps[1..])
  {
    assert EndsAt(ps, 0);
    forall i | 0 <= i < |ps| - 1 ensures EndsAt(ps[1..], i) { assert EndsAt(ps, i + 1); }
  }

  /** What stands behind a number: a blank, or the mark that ends it, or the end of the text. */
  lemma SpreadStarts(s: string, p: nat, ps: seq<Piece>, gaps: seq<string>)
    requires |gaps| == |ps| + 1 && Gaps(gaps) && Holds(s, p, Spread(ps, gaps)) && p + |Spread(ps, gaps)| == |s|
    requires ps != [] ==> ps[0] in {Punct(','), Punct(']'), Punct('}')}
    ensures Delimited(s, p)
  {
    var t := Spread(ps, gaps);
    if t != [] {
      HoldsChar(s, p, t, 0);
      assert AllBlank(gaps[0]);
      if gaps[0] != [] { assert t[0] == gaps[0][0]; } else { assert t[0] == Whole(ps[0])[0]; }
    }
  }

  /** Such a text has exactly the tokens of its pieces, and then ends. */
  lemma {:induction false} SpreadReads(s: string, p: nat, ps: seq<Piece>, gaps: seq<string>)
    requires |gaps| == |ps| + 1 && Gaps(gaps) && Readable(ps)
    requires Holds(s, p, Spread(ps, gaps)) && p + |Spread(ps, gaps)| == |s|
    ensures Ahead(s, Lex(s, p)) == TokensOf(ps) + [Eof]
    decreases |ps|
  {
    hide Lex, Holds, Whole, TokenOf, Proper, Delimited, Gaps, Readable;
    GapsTail(gaps);
    var q := p + |gaps[0]|;
    if ps == [] {
      HoldsIs(s, p, gaps[0]);
      BlanksSkipped(s, p, q);
      AtEnd(s);
    } else {
      var x, rest := ps[0], Spread(ps[1..], gaps[1..]);
      HoldsParts(s, p, gaps[0], Whole(x) + rest);
      HoldsParts(s, q, Whole(x), rest);
      HoldsIs(s, p, gaps[0]);
      BlanksSkipped(s, p, q);
      ReadableTail(ps);
      var r := q + |Whole(x)|;
      if x.Leaf? {
        LeafEnds(ps);
        SpreadStarts(s, r, ps[1..], gaps[1..]);
      }
      PieceReads(s, q, x);
      SpreadReads(s, r, ps[1..], gaps[1..]);
      assert [TokenOf(x)] + (TokensOf(ps[1..]) + [Eof]) == TokensOf(ps) + [Eof];
    }
  }

  lemma LeafEnds(ps: seq<Piece>)
    requires Readable(ps) && ps != [] && ps[0].Leaf?
    ensures |ps| > 1 ==> ps[1..][0] in {Punct(','), Punct(']'), Punct('}')}
  {
    assert EndsAt(ps, 0);
  }

  lemma HoldsIs(s: string, p: nat, x: string)
    requires Holds(s, p, x)
    ensures p + |x| <= |s| && s[p..p + |x|] == x
  {
  }

  lemma GapsTail(gaps: seq<string>)
    requires gaps != [] && Gaps(gaps)
    ensures AllBlank(gaps[0]) && Gaps(gaps[1..])
  {
  }

  // ---------------------------------------------------------------- the pieces are those of the serialisation

  lemma {:induction false} TokensOfConcat(a: seq<Piece>, b: seq<Piece>)
    ensures TokensOf(a + b) == TokensOf(a) + TokensOf(b)
  {
    if a == [] {
      assert a + b == b;
    } else {
      assert (a + b)[1..] == a[1..] + b;
      TokensOfConcat(a[1..], b);
    }
  }

  lemma ReadableConcat(a: seq<Piece>, b: seq<Piece>)
    requires Readable(a) && Readable(b)
    requires a != [] && b != [] && a[|a| - 1].Leaf? ==> b[0] in {Punct(','), Punct(']'), Punct('}')}
    ensures Readable(a + b)
  {
    var c := a + b;
    forall i | 0 <= i < |c| ensures EndsAt(c, i) {
      if i < |a| {
        assert EndsAt(a, i);
        assert c[i] == a[i] && (i + 1 < |a| ==> c[i + 1] == a[i + 1]) && (i + 1 == |a| && b != [] ==> c[i + 1] == b[0]);
      } else {
        assert EndsAt(b, i - |a|);
      }
    }
  }

  lemma ReadableMark(c: char)
    requires Mark(c) != Error
    ensures Readable([Punct(c)]) && TokensOf([Punct(c)]) == [Mark(c)]
  {
    assert [Punct(c)][1..] == [];
  }

  lemma {:induction false} PiecesRead(v: Json)
    requires WellKeyed(v)
    ensures Readable(Pieces(v)) && Pieces(v) != [] && TokensOf(Pieces(v)) == Tokens(v)
    decreases v, 0
  {
    hide TokensOf, Readable;
    match v
    case JArray(items) =>
      ElementPiecesRead(items);
      Bracketed('[', ElementPieces(items), ']');
    case JObject(members) =>
      MemberPiecesRead(members);
      Bracketed('{', MemberPieces(members), '}');
    case _ => LeafReads(v);
  }

  lemma LeafReads(v: Json)
    requires !v.JArray? && !v.JObject?
    ensures Readable([Leaf(v)]) && TokensOf([Leaf(v)]) == Tokens(v)
  {
    assert [Leaf(v)][1..] == [];
  }

  lemma Bracketed(open: char, ps: seq<Piece>, close: char)
    requires Readable(ps) && Mark(open) != Error && close in {']', '}'}
    ensures Readable([Punct(open)] + ps + [Punct(close)])
    ensures TokensOf([Punct(open)] + ps + [Punct(close)]) == [Mark(open)] + TokensOf(ps) + [Mark(close)]
  {
    hide TokensOf, Readable;
    ReadableMark(open);
    ReadableMark(close);
    ReadableConcat([Punct(open)], ps);
    ReadableConcat([Punct(open)] + ps, [Punct(close)]);
    TokensOfConcat([Punct(open)], ps);
    TokensOfConcat([Punct(open)] + ps, [Punct(close)]);
  }

  /** One item, and behind a comma the rest. */
  lemma Listed(first: seq<Piece>, rest: seq<Piece>)
    requires Readable(first) && Readable(rest)
    ensures Readable(first + ([Punct(',')] + rest))
    ensures TokensOf(first + ([Punct(',')] + rest)) == TokensOf(first) + ([JsonLexer.Comma] + TokensOf(rest))
  {
    hide TokensOf, Readable;
    ReadableMark(',');
    MarkNames();
    ReadableConcat([Punct(',')], rest);
    ReadableConcat(first, [Punct(',')] + rest);
    TokensOfConcat([Punct(',')], rest);
    TokensOfConcat(first, [Punct(',')] + rest);
  }

  lemma {:induction false} ElementPiecesRead(items: seq<Json>)
    requires forall i :: 0 <= i < |items| ==> WellKeyed(items[i])
    ensures Readable(ElementPieces(items)) && TokensOf(ElementPieces(items)) == ElementTokens(items)
    decreases items, 1
  {
    hide Readable, WellKeyed, Pieces, Tokens;
    if items == [] {
      NoPieces();
    } else {
      PiecesRead(items[0]);
      if |items| == 1 {
        assert Pieces(items[0]) + [] == Pieces(items[0]);
      } else {
        ElementPiecesRead(items[1..]);
        Listed(Pieces(items[0]), ElementPieces(items[1..]));
      }
    }
  }

  lemma NoPieces()
    ensures Readable([]) && TokensOf([]) == []
  {
  }

  lemma {:induction false} MemberPiecesRead(members: seq<Member>)
    requires WellKeyedMembers(members)
    ensures Readable(MemberPieces(members)) && TokensOf(MemberPieces(members)) == MemberTokens(members)
    decreases members, 1
  {
    hide Readable, WellKeyed, OneMemberPieces, MemberToken, CleanKey;
    if members == [] {
      NoPieces();
    } else {
      OneMemberPiecesRead(members[0]);
      if |members| == 1 {
        assert OneMemberPieces(members[0]) + [] == OneMemberPieces(members[0]);
      } else {
        MemberPiecesRead(members[1..]);
        Listed(OneMemberPieces(members[0]), MemberPieces(members[1..]));
      }
    }
  }

  lemma {:induction false} OneMemberPiecesRead(m: Member)
    requires CleanKey(m.key) && WellKeyed(m.value)
    ensures Readable(OneMemberPieces(m)) && TokensOf(OneMemberPieces(m)) == MemberToken(m)
    decreases m, 1
  {
    hide Pieces, WellKeyed, Readable, Tokens;
    PiecesRead(m.value);
    NameReads(m.key);
    ReadableConcat([Name(m.key), Punct(':')], Pieces(m.value));
    TokensOfConcat([Name(m.key), Punct(':')], Pieces(m.value));
  }

  lemma NameReads(key: string)
    requires CleanKey(key)
    ensures Readable([Name(key), Punct(':')])
    ensures TokensOf([Name(key), Punct(':')]) == [Str(Cut(key, STRING_MAX)), Colon]
  {
    assert [Name(key), Punct(':')][1..] == [Punct(':')] && [Punct(':')][1..] == [];
  }

  /** The pieces without gaps. */
  function Plain(ps: seq<Piece>): string {
    if ps == [] then [] else Whole(ps[0]) + Plain(ps[1..])
  }

  function NoGaps(n: nat): (gaps: seq<string>)
    ensures |gaps| == n
  {
    seq(n, _ => [])
  }

  lemma {:induction false} SpreadPlain(ps: seq<Piece>)
    ensures Spread(ps, NoGaps(|ps| + 1)) == Plain(ps)
    decreases |ps|
  {
    hide Whole;
    if ps != [] {
      SpreadPlain(ps[1..]);
      assert NoGaps(|ps| + 1)[1..] == NoGaps(|ps|);
    }
  }

  lemma {:induction false} PlainConcat(a: seq<Piece>, b: seq<Piece>)
    ensures Plain(a + b) == Plain(a) + Plain(b)
  {
    hide Whole;
    if a == [] {
      assert a + b == b;
    } else {
      assert (a + b)[1..] == a[1..] + b;
      PlainConcat(a[1..], b);
    }
  }

  lemma PlainOne(x: Piece)
    ensures Plain([x]) == Whole(x)
  {
    assert [x][1..] == [];
    assert Whole(x) + [] == Whole(x);
  }

  /** They make up the serialisation. */
  lemma {:induction false} PlainText(v: Json)
    ensures Plain(Pieces(v)) == Text(v)
    decreases v, 0
  {
    hide Plain;
    match v
    case JArray(items) =>
      PlainElements(items);
      PlainBracketed('[', ElementPieces(items), ']');
    case JObject(members) =>
      PlainMembersText(members);
      PlainBracketed('{', MemberPieces(members), '}');
    case _ => PlainOne(Leaf(v));
  }

  lemma PlainBracketed(open: char, ps: seq<Piece>, close: char)
    ensures Plain([Punct(open)] + ps + [Punct(close)]) == [open] + Plain(ps) + [close]
  {
    hide Plain;
    PlainConcat([Punct(open)] + ps, [Punct(close)]);
    PlainConcat([Punct(open)], ps);
    PlainOne(Punct(open));
    PlainOne(Punct(close));
  }

  lemma PlainListed(first: seq<Piece>, rest: seq<Piece>)
    ensures Plain(first + ([Punct(',')] + rest)) == Plain(first) + ("," + Plain(rest))
  {
    hide Plain;
    PlainConcat(first, [Punct(',')] + rest);
    PlainConcat([Punct(',')], rest);
    PlainOne(Punct(','));
  }

  lemma {:induction false} PlainElements(items: seq<Json>)
    ensures Plain(ElementPieces(items)) == ElementsText(items)
    decreases items, 1
  {
    hide Plain, Pieces, Text;
    if items == [] {
      PlainNothing();
    } else {
      PlainText(items[0]);
      if |items| == 1 {
        assert Pieces(items[0]) + [] == Pieces(items[0]) && Text(items[0]) + [] == Text(items[0]);
      } else {
        PlainElements(items[1..]);
        PlainListed(Pieces(items[0]), ElementPieces(items[1..]));
      }
    }
  }

  lemma PlainNothing()
    ensures Plain([]) == []
  {
  }

  lemma {:induction false} PlainMembersText(members: seq<Member>)
    ensures Plain(MemberPieces(members)) == MembersText(members)
    decreases members, 1
  {
    hide Plain, OneMemberPieces, MemberText;
    if members == [] {
      PlainNothing();
    } else {
      PlainMember(members[0]);
      if |members| == 1 {
        assert OneMemberPieces(members[0]) + [] == OneMemberPieces(members[0]);
        assert MemberText(members[0]) + [] == MemberText(members[0]);
      } else {
        PlainMembersText(members[1..]);
        PlainListed(OneMemberPieces(members[0]), MemberPieces(members[1..]));
      }
    }
  }

  lemma {:induction false} PlainMember(m: Member)
    ensures Plain(OneMemberPieces(m)) == MemberText(m)
    decreases m, 1
  {
    hide Plain, Pieces, Text;
    PlainText(m.value);
    PlainConcat([Name(m.key)] + [Punct(':')], Pieces(m.value));
    PlainConcat([Name(m.key)], [Punct(':')]);
    assert [Name(m.key)] + [Punct(':')] == [Name(m.key), Punct(':')];
    PlainOne(Name(m.key));
    PlainOne(Punct(':'));
  }

  // ---------------------------------------------------------------- reading a spaced tree

  lemma {:induction false} AheadAll(s: string, p: nat)
    requires p <= |s|
    ensures var a, l := Ahead(s, Lex(s, p)), LexAll(s, p);
      |a| == |l| + 1 && a[..|l|] == l
    decreases |s| - p
  {
    hide Lex;
    var st := Lex(s, p);
    if Usable(st) {
      AheadAll(s, st.pos);
      var a, l := Ahead(s, Lex(s, st.pos)), LexAll(s, st.pos);
      assert ([st.tok] + a)[..|l| + 1] == [st.tok] + a[..|l|];
    }
  }

  lemma LexEof(s: string, p: nat)
    requires p <= |s|
    ensures Lex(s, p).tok == Eof ==> Lex(s, p).pos == |s|
  {
    hide TokenAt;
  }

  /** At EOF the lexer is at the end of the text. */
  predicate Sound(s: string, st: State) {
    st.pos <= |s| && (st.tok == Eof ==> st.pos == |s|)
  }

  lemma {:induction false} SkipSound(s: string, st: State)
    requires Sound(s, st)
    ensures Sound(s, SkipValue(s, st).0)
    decreases Measure(s, st), 0
  {
    hide Lex;
    LexEof(s, st.pos);
    if st.tok == LBrace { MembersSound(s, Next(s, st)); }
    if st.tok == LBracket { ElementsSound(s, Next(s, st)); }
  }

  lemma {:induction false} MembersSound(s: string, st: State)
    requires Sound(s, st)
    ensures Sound(s, SkipMembers(s, st).0)
    decreases Measure(s, st), 1
  {
    hide Lex, SkipValue;
    LexEof(s, st.pos);
    if st.tok.Str? {
      var colon := Next(s, st);
      LexEof(s, colon.pos);
      if colon.tok == Colon {
        SkipSound(s, Next(s, colon));
        var (after, ok) := SkipValue(s, Next(s, colon));
        LexEof(s, after.pos);
        if ok { MembersSound(s, PastComma(s, after)); }
      }
    }
  }

  lemma {:induction false} ElementsSound(s: string, st: State)
    requires Sound(s, st)
    ensures Sound(s, SkipElements(s, st).0)
    decreases Measure(s, st), 1
  {
    hide Lex, SkipValue;
    LexEof(s, st.pos);
    if st.tok != RBracket && st.tok != Eof {
      SkipSound(s, st);
      var (after, ok) := SkipValue(s, st);
      LexEof(s, after.pos);
      if ok { ElementsSound(s, PastComma(s, after)); }
    }
  }

  /** Its tokens, whatever the gaps. */
  lemma SpacedTokens(v: Json, gaps: seq<string>)
    requires WellKeyed(v) && |gaps| == |Pieces(v)| + 1 && Gaps(gaps)
    ensures var s := Spread(Pieces(v), gaps);
      Ahead(s, Lex(s, 0)) == Tokens(v) + [Eof] && LexAll(s, 0) == Tokens(v)
  {
    hide Lex, LexAll, Ahead, WellKeyed, Tokens, Pieces, Gaps, Readable, Holds;
    var s := Spread(Pieces(v), gaps);
    PiecesRead(v);
    Itself(s);
    SpreadReads(s, 0, Pieces(v), gaps);
    AheadAll(s, 0);
    var a := Ahead(s, Lex(s, 0));
    assert |LexAll(s, 0)| == |Tokens(v)| && LexAll(s, 0) == a[..|LexAll(s, 0)|];
  }

  lemma NoGapsBlank(n: nat)
    ensures Gaps(NoGaps(n))
  {
  }

  /** The serialisation is the text without gaps. */
  lemma TextIsSpread(v: Json)
    ensures Text(v) == Spread(Pieces(v), NoGaps(|Pieces(v)| + 1)) && Gaps(NoGaps(|Pieces(v)| + 1))
  {
    SpreadPlain(Pieces(v));
    PlainText(v);
    NoGapsBlank(|Pieces(v)| + 1);
  }

  /** So the two have the same tokens ahead. */
  lemma SpacedLikePlain(v: Json, gaps: seq<string>)
    requires WellKeyed(v) && |gaps| == |Pieces(v)| + 1 && Gaps(gaps)
    ensures var s, t := Spread(Pieces(v), gaps), Text(v);
      Ahead(s, Lex(s, 0)) == Ahead(t, Lex(t, 0))
  {
    hide Lex, Ahead, WellKeyed, Tokens, Pieces, Gaps, Text, Spread, LexAll;
    TextIsSpread(v);
    SpacedTokens(v, gaps);
    SpacedTokens(v, NoGaps(|Pieces(v)| + 1));
  }

  /** A tree written with any blanks before, between and behind its tokens reads as its tokens, and skipping it returns
      0 at EOF. */
  lemma SpacedReadsBack(v: Json, gaps: seq<string>)
    requires WellKeyed(v) && |gaps| == |Pieces(v)| + 1 && Gaps(gaps)
    ensures var s := Spread(Pieces(v), gaps);
      LexAll(s, 0) == Tokens(v) && SkipValue(s, Lex(s, 0)) == (State(Eof, |s|), true)
  {
    hide Lex, LexAll, Ahead, SkipValue, WellKeyed, Tokens, Pieces, Gaps, Text;
    var s, t := Spread(Pieces(v), gaps), Text(v);
    SpacedTokens(v, gaps);
    SpacedLikePlain(v, gaps);
    DocumentReadsBack(v);
    SameSkip(s, Lex(s, 0), t, Lex(t, 0));
    LexEof(s, 0);
    SkipSound(s, Lex(s, 0));
    SameNow(s, SkipValue(s, Lex(s, 0)).0, t, State(Eof, |t|));
  }
}
