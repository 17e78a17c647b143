/** parse_detokenize_request of src/api_v1.c, on any text and on serialised objects. */
module Detokenize {
  import opened Completion
  import opened Format
  import opened JsonLexer
  import opened JsonParser
  import opened JsonWriter
  import opened JsonRoundTrip
  import opened Options

  const MAX_TOKENS: nat := 2048
  const NAME := "tokens"

  // ---------------------------------------------------------------- the loops

  /** The loop over the elements; a full array ends it wherever it is. */
  function TokenList(inp: string, st: State, toks: seq<int>): (v: Option<(State, seq<int>)>)
    requires st.pos <= |inp| && |toks| <= MAX_TOKENS
    ensures v.Some? ==> v.value.0.pos <= |inp| && Measure(inp, v.value.0) <= Measure(inp, st)
    ensures v.Some? ==> toks <= v.value.1 && |v.value.1| <= MAX_TOKENS
    decreases Measure(inp, st)
  {
    if st.tok == RBracket || st.tok == Eof || |toks| == MAX_TOKENS then Some((st, toks))
    else if !st.tok.Num? then None
    else TokenList(inp, PastComma(inp, Next(inp, st)), toks + [Truncated(st.tok.value)])
  }

  function TokenValue(inp: string, st: State, toks: seq<int>): (v: Option<(State, seq<int>)>)
    requires st.pos <= |inp| && |toks| <= MAX_TOKENS
    ensures v.Some? ==> v.value.0.pos <= |inp| && Measure(inp, v.value.0) < Measure(inp, st)
    ensures v.Some? ==> |v.value.1| <= MAX_TOKENS
  {
    if st.tok != LBracket then None
    else
      match TokenList(inp, Next(inp, st), toks)
      case None => None
      case Some((after, more)) => Some((if after.tok == RBracket then Next(inp, after) else after, more))
  }

  function NamedValue(inp: string, key: string, st: State, toks: seq<int>): (v: Option<(State, seq<int>)>)
    requires st.pos <= |inp| && |toks| <= MAX_TOKENS
    ensures v.Some? ==> v.value.0.pos <= |inp| && Measure(inp, v.value.0) < Measure(inp, st)
    ensures v.Some? ==> |v.value.1| <= MAX_TOKENS
  {
    if key == NAME then TokenValue(inp, st, toks)
    else
      var (after, ok) := SkipValue(inp, st);
      if ok then Some((after, toks)) else None
  }

  function Round(inp: string, st: State, toks: seq<int>): (v: Option<(State, seq<int>)>)
    requires st.pos <= |inp| && |toks| <= MAX_TOKENS
    ensures v.Some? ==> v.value.0.pos <= |inp| && Measure(inp, v.value.0) < Measure(inp, st)
    ensures v.Some? ==> |v.value.1| <= MAX_TOKENS
  {
    if !st.tok.Str? then None
    else
      var colon := Next(inp, st);
      if colon.tok != Colon then None
      else
        match NamedValue(inp, Copied(st.tok.text, KEY_MAX), Next(inp, colon), toks)
        case None => None
        case Some((after, more)) => Some((PastComma(inp, after), more))
  }

  function Rounds(inp: string, st: State, toks: seq<int>): (v: Option<seq<int>>)
    requires st.pos <= |inp| && |toks| <= MAX_TOKENS
    ensures v.Some? ==> |v.value| <= MAX_TOKENS
    decreases Measure(inp, st)
  {
    if st.tok == RBrace || st.tok == Eof then Some(toks)
    else
      match Round(inp, st, toks)
      case None => None
      case Some((st', toks')) => Rounds(inp, st', toks')
  }

  /** parse_detokenize_request: the tokens, or None for -1. */
  function ParsedTokens(body: string): (v: Option<seq<int>>)
    ensures v.Some? ==> |v.value| <= MAX_TOKENS
  {
    var first := Lex(body, 0);
    if first.tok != LBrace then None else Rounds(body, Next(body, first), [])
  }

  lemma ListStep(inp: string, st: State, toks: seq<int>)
    requires st.pos <= |inp| && |toks| <= MAX_TOKENS && st.tok != RBracket && st.tok != Eof && |toks| < MAX_TOKENS
    ensures !st.tok.Num? ==> TokenList(inp, st, toks) == None
    ensures st.tok.Num? ==> (
      && TokenList(inp, st, toks) == TokenList(inp, PastComma(inp, Next(inp, st)), toks + [Truncated(st.tok.value)])
      && Measure(inp, PastComma(inp, Next(inp, st))) < Measure(inp, st))
  {
  }

  lemma ListEnd(inp: string, st: State, toks: seq<int>)
    requires st.pos <= |inp| && |toks| <= MAX_TOKENS && (st.tok == RBracket || st.tok == Eof || |toks| == MAX_TOKENS)
    ensures TokenList(inp, st, toks) == Some((st, toks))
  {
  }

  // ---------------------------------------------------------------- the meaning on objects

  predicate AllInts(items: seq<Json>) {
    forall i :: 0 <= i < |items| ==> items[i].JInt?
  }

  function Ints(items: seq<Json>): seq<int>
    requires AllInts(items)
  {
    seq(|items|, i requires 0 <= i < |items| => items[i].i)
  }

  /** All arrays named tokens one after the other; malformed if one is not an array of integers or if there
      are more than MAX_TOKENS of them in all. */
  function Gathered(members: seq<Member>, toks: seq<int>): Option<seq<int>> {
    if members == [] then Some(toks)
    else if members[0].key != NAME then Gathered(members[1..], toks)
    else if Fits(members[0].value, |toks|) then Gathered(members[1..], toks + Ints(members[0].value.items))
    else None
  }

  predicate Fits(v: Json, n: nat) {
    v.JArray? && AllInts(v.items) && n + |v.items| <= MAX_TOKENS
  }

  /** In the middle of an array, at an element: the member loop fails here. */
  predicate StuckAt(inp: string, st: State) {
    st.pos <= |inp| && StartsValue(st.tok) && (st.tok.Str? ==> Next(inp, st).tok != Colon)
  }

  lemma StuckFails(inp: string, st: State, toks: seq<int>)
    requires StuckAt(inp, st) && |toks| <= MAX_TOKENS
    ensures st.tok != RBracket && PastComma(inp, st) == st && Rounds(inp, st, toks) == None
  {
    hide Lex;
  }

  /** An element, and the comma or bracket behind it. */
  lemma ElementStops(inp: string, p: nat, v: Json, c: char)
    requires Holds(inp, p, Text(v)) && WellKeyed(v) && Holds(inp, p + |Text(v)|, [c]) && (c == ',' || c == ']')
    requires Delimited(inp, p + |Text(v)|)
    ensures p + |Text(v)| + 1 <= |inp| && StuckAt(inp, Lex(inp, p))
    ensures Lex(inp, p).tok.Num? <==> v.JInt?
    ensures v.JInt? ==> Lex(inp, p) == State(Num(v.i as real), p + |Text(v)|)
    ensures Lex(inp, p + |Text(v)|) == State(Mark(c), p + |Text(v)| + 1)
  {
    hide Lex, Text, Tokens, Skips, ReadsAs, Holds, Kept, Escaped, SignedText, Quoted, Cut, Delimited, WellKeyed;
    var q := p + |Text(v)|;
    Within(inp, p, Text(v));
    Within(inp, q, [c]);
    MarkNames();
    ReadsMark(inp, q, c);
    TreeReadsBack(inp, p, v);
    FirstOfValue(inp, p, v, q);
    if v.JInt? { TextOfInt(v); IntReadsBack(inp, p, v.i); }
    if v.JString? { TextOfString(v); StringReadsBack(inp, p, v.s); }
  }

  lemma TextOfInt(v: Json)
    requires v.JInt?
    ensures Text(v) == SignedText(v.i)
  {
  }

  lemma TextOfString(v: Json)
    requires v.JString?
    ensures Text(v) == Quoted(Escaped(v.s))
  {
  }

  lemma WholeReal(i: int)
    ensures Truncated(i as real) == i
  {
  }

  lemma {:induction false} ListReads(inp: string, p: nat, items: seq<Json>, toks: seq<int>)
    requires Holds(inp, p, ElementsText(items) + "]") && forall i :: 0 <= i < |items| ==> WellKeyed(items[i])
    requires |toks| <= MAX_TOKENS
    ensures var e := p + |ElementsText(items)| + 1;
      && p <= e <= |inp|
      && var v := TokenList(inp, Lex(inp, p), toks);
      if AllInts(items) && |toks| + |items| <= MAX_TOKENS then v == Some((State(RBracket, e), toks + Ints(items)))
      else v.None? || StuckAt(inp, v.value.0)
    decreases |items|
  {
    hide Lex, Holds, StuckAt, PastComma, Mark, Text, WellKeyed, Measure, ElementsText, Delimited;
    Within(inp, p, ElementsText(items) + "]");
    MarkNames();
    if items == [] {
      NoElements();
      ReadsMark(inp, p, ']');
      assert toks + Ints(items) == toks;
    } else {
      var q, c := ElementEnd(p, items), ElementMark(items);
      ElementsParts(inp, p, items);
      ElementStops(inp, p, items[0], c);
      if |toks| < MAX_TOKENS && items[0].JInt? {
        var more := toks + [items[0].i];
        WholeReal(items[0].i);
        AfterElement(inp, q, c);
        if |items| == 1 {
          assert Ints(items) == [items[0].i];
        } else {
          ListReads(inp, q + 1, items[1..], more);
          assert AllInts(items) <==> AllInts(items[1..]) by { assert items == [items[0]] + items[1..]; }
          if AllInts(items) { assert toks + Ints(items) == more + Ints(items[1..]); }
        }
      }
    }
  }

  lemma AfterElement(inp: string, q: nat, c: char)
    requires q + 1 <= |inp| && Lex(inp, q) == State(Mark(c), q + 1) && (c == ']' || c == ',')
    ensures PastComma(inp, Lex(inp, q)) == if c == ']' then State(RBracket, q + 1) else Lex(inp, q + 1)
  {
    hide Lex;
  }

  /** The value of a member called tokens. */
  lemma TokensRead(inp: string, p: nat, v: Json, toks: seq<int>)
    requires Holds(inp, p, Text(v)) && Delimited(inp, p + |Text(v)|) && WellKeyed(v) && |toks| <= MAX_TOKENS
    ensures var e := p + |Text(v)|;
      && p <= e <= |inp|
      && var r := TokenValue(inp, Lex(inp, p), toks);
      if Fits(v, |toks|) then r == Some((Lex(inp, e), toks + Ints(v.items))) else r.None? || StuckAt(inp, r.value.0)
  {
    hide Lex, Holds, StuckAt, Delimited, TokenList, WellKeyed, Tokens, Skips, ReadsAs, Text, ElementsText, Ints;
    hide Measure;
    Within(inp, p, Text(v));
    TreeReadsBack(inp, p, v);
    FirstOfValue(inp, p, v, p + |Text(v)|);
    if v.JArray? {
      var body := ElementsText(v.items) + "]";
      ArrayText(v.items);
      HoldsParts(inp, p, "[", body);
      MarkReadsBack(inp, p, '[');
      ItemsKeyed(v.items);
      ListReads(inp, p + 1, v.items, toks);
      if !Fits(v, |toks|) && TokenList(inp, Lex(inp, p + 1), toks).Some? {
        StuckFails(inp, TokenList(inp, Lex(inp, p + 1), toks).value.0, []);
      }
    }
  }

  lemma ArrayText(items: seq<Json>)
    ensures Text(JArray(items)) == "[" + (ElementsText(items) + "]")
  {
  }

  lemma ItemsKeyed(items: seq<Json>)
    requires WellKeyed(JArray(items))
    ensures forall i :: 0 <= i < |items| ==> WellKeyed(items[i])
  {
  }

  /** Being cut to the buffers makes no key into a short name, nor a short name into another. */
  lemma CutName(key: string, name: string, max: nat)
    requires CString(key) && |name| < max <= STRING_MAX
    ensures Copied(Cut(key, STRING_MAX), max) == name <==> key == name
  {
    var c := Cut(Cut(key, STRING_MAX), max);
    assert forall i :: 0 <= i < |c| ==> c[i] == key[i];
    UpToNulWhole(c);
  }

  /** A serialised member is read as itself, or else the loop cannot go on. */
  lemma RoundReads(inp: string, p: nat, m: Member, toks: seq<int>)
    requires Holds(inp, p, MemberText(m)) && Delimited(inp, p + |MemberText(m)|) && |toks| <= MAX_TOKENS
    requires CleanKey(m.key) && WellKeyed(m.value) && CString(m.key)
    ensures var q := p + |MemberText(m)|;
      && p < q <= |inp| && Lex(inp, p).tok.Str?
      && var r := Round(inp, Lex(inp, p), toks);
      if m.key != NAME then r == Some((PastComma(inp, Lex(inp, q)), toks))
      else if Fits(m.value, |toks|) then r == Some((PastComma(inp, Lex(inp, q)), toks + Ints(m.value.items)))
      else r.None? || StuckAt(inp, r.value.0)
  {
    hide Lex, Holds, TokenValue, Text, Tokens, Skips, ReadsAs, Cut, PastComma, Fits, StuckAt, Measure, CString;
    hide CleanKey, WellKeyed;
    var k, q := p + |Quoted(m.key)|, p + |MemberText(m)|;
    Within(inp, p, MemberText(m));
    MemberReadsBack(inp, p, m);
    CutName(m.key, NAME, KEY_MAX);
    ValueReads(inp, p, m);
    if m.key == NAME {
      var t := Text(m.value);
      assert MemberText(m) == Quoted(m.key) + (":" + t);
      HoldsParts(inp, p, Quoted(m.key), ":" + t);
      HoldsParts(inp, k, ":", t);
      TokensRead(inp, k + 1, m.value, toks);
      var r := TokenValue(inp, Lex(inp, k + 1), toks);
      if !Fits(m.value, |toks|) && r.Some? { StuckFails(inp, r.value.0, []); }
    } else {
      SkipsIs(inp, k + 1, q);
    }
  }

  lemma SkipsIs(inp: string, p: nat, q: nat)
    requires Skips(inp, p, q)
    ensures p <= q <= |inp| && SkipValue(inp, Lex(inp, p)) == (Lex(inp, q), true)
  {
  }

  lemma {:induction false} RoundsGather(inp: string, p: nat, members: seq<Member>, toks: seq<int>)
    requires Holds(inp, p, MembersText(members) + "}") && WellKeyedMembers(members) && |toks| <= MAX_TOKENS
    requires PlainMembers(members)
    ensures p <= |inp| && Rounds(inp, Lex(inp, p), toks) == Gathered(members, toks)
    decreases |members|
  {
    hide Lex, Holds, Round, MemberText, MembersText, Mark, PastComma, Fits, StuckAt, Ints, Measure, Delimited;
    hide WellKeyedMembers, PlainMembers, CleanKey, WellKeyed, CString;
    Within(inp, p, MembersText(members) + "}");
    if members == [] {
      NoMembers();
      MarkNames();
      ReadsMark(inp, p, '}');
    } else {
      var m, q, c := members[0], MemberEnd(p, members), MemberMark(members);
      MembersTail(members);
      MembersParts(inp, p, members);
      RoundReads(inp, p, m, toks);
      if m.key != NAME || Fits(m.value, |toks|) {
        AfterMember(inp, q, c);
        FitsSize(m.value, |toks|);
        if |members| == 1 {
          assert members[1..] == [];
        } else {
          RoundsGather(inp, q + 1, members[1..], if m.key != NAME then toks else toks + Ints(m.value.items));
        }
      } else {
        var r := Round(inp, Lex(inp, p), toks);
        if r.Some? { StuckFails(inp, r.value.0, r.value.1); }
      }
    }
  }

  lemma FitsSize(v: Json, n: nat)
    ensures Fits(v, n) ==> v.JArray? && AllInts(v.items) && n + |Ints(v.items)| <= MAX_TOKENS
  {
  }

  /** Parsing the serialisation of any object gathers exactly the elements of all its arrays called tokens;
      it fails exactly if one of those is no array of integers or they hold more than 2048 in all. */
  lemma DetokenizeReadsBack(members: seq<Member>)
    requires WellKeyedMembers(members) && PlainMembers(members)
    ensures ParsedTokens(Text(JObject(members))) == Gathered(members, [])
  {
    hide ParsedTokens, Gathered, Text, Holds, PlainMembers, WellKeyedMembers;
    ObjectText(members);
    Itself(Text(JObject(members)));
    GatheredFrom(Text(JObject(members)), members);
  }

  lemma GatheredFrom(inp: string, members: seq<Member>)
    requires Holds(inp, 0, "{" + (MembersText(members) + "}"))
    requires WellKeyedMembers(members) && PlainMembers(members)
    ensures ParsedTokens(inp) == Gathered(members, [])
  {
    hide Lex, ParsedTokens, Rounds, Gathered, WellKeyedMembers, Holds, PlainMembers;
    HoldsParts(inp, 0, "{", MembersText(members) + "}");
    MarkReadsBack(inp, 0, '{');
    RoundsGather(inp, 1, members, []);
    AfterBrace(inp);
  }

  lemma AfterBrace(inp: string)
    requires 1 <= |inp| && Lex(inp, 0) == State(Mark('{'), 1)
    ensures ParsedTokens(inp) == Rounds(inp, Lex(inp, 1), [])
  {
    hide Lex, Rounds;
  }

  // ---------------------------------------------------------------- the parser as it runs

  class DetokenizeRequest {
    const tokens: array<int>
    var tokenCount: nat

    ghost predicate Valid()
      reads this
    {
      tokens.Length == MAX_TOKENS && tokenCount <= MAX_TOKENS
    }

    ghost function Taken(): (s: seq<int>)
      requires Valid()
      reads this, tokens
      ensures |s| <= MAX_TOKENS
    {
      tokens[..tokenCount]
    }

    constructor ()
      ensures Valid() && Taken() == [] && fresh(tokens)
    {
      tokens := new int[MAX_TOKENS](_ => 0);
      tokenCount := 0;
    }

    /** The array of tokens: opening bracket, elements, closing bracket if the loop came that far. */
    method ParseTokens(p: Parser) returns (ok: bool)
      requires p.Valid() && Valid() && tokens as object != p.stringBuf as object
      modifies this, tokens, p, p.stringBuf
      ensures p.Valid() && Valid()
      ensures ok == TokenValue(p.input, old(p.At()), old(Taken())).Some?
      ensures ok ==> TokenValue(p.input, old(p.At()), old(Taken())).value == (p.At(), Taken())
    {
      hide Lex, TokenList, Measure;
      if p.kind != TokLBracket { return false; }
      p.NextToken();
      ok := ParseElements(p);
      if ok && p.kind == TokRBracket { p.NextToken(); }
    }

    method ParseElements(p: Parser) returns (ok: bool)
      requires p.Valid() && Valid() && tokens as object != p.stringBuf as object
      modifies this, tokens, p, p.stringBuf
      ensures p.Valid() && Valid()
      ensures ok == TokenList(p.input, old(p.At()), old(Taken())).Some?
      ensures ok ==> TokenList(p.input, old(p.At()), old(Taken())).value == (p.At(), Taken())
    {
      hide Lex, Truncated, Measure, TokenList;
      ghost var start := TokenList(p.input, p.At(), Taken());
      while p.kind != TokRBracket && p.kind != TokEof
        invariant p.Valid() && Valid()
        invariant start == TokenList(p.input, p.At(), Taken())
        decreases Measure(p.input, p.At())
      {
        if tokenCount >= MAX_TOKENS { break; }
        ListStep(p.input, p.At(), Taken());
        if p.kind != TokNumber { return false; }
        ParseElement(p);
      }
      ListEnd(p.input, p.At(), Taken());
      return true;
    }

    /** A number, and perhaps a comma. */
    method ParseElement(p: Parser)
      requires p.Valid() && Valid() && tokens as object != p.stringBuf as object
      requires p.kind == TokNumber && tokenCount < MAX_TOKENS
      modifies this, tokens, p, p.stringBuf
      ensures p.Valid() && Valid()
      ensures p.At() == PastComma(p.input, Next(p.input, old(p.At())))
      ensures Taken() == old(Taken()) + [Truncated(old(p.Current()).value)]
    {
      hide Lex, Truncated, Measure;
      ghost var before := Taken();
      var _, token := p.ParseInt();
      assert tokens[..tokenCount] == before;
      tokens[tokenCount] := token;
      tokenCount := tokenCount + 1;
      p.KindIs();
      if p.kind == TokComma { p.NextToken(); }
      assert tokens[..tokenCount] == before + [token];
    }

    /** One round of the member loop. */
    method ParseMember(p: Parser) returns (ok: bool)
      requires p.Valid() && Valid() && tokens as object != p.stringBuf as object
      modifies this, tokens, p, p.stringBuf
      ensures p.Valid() && Valid()
      ensures ok == Round(p.input, old(p.At()), old(Taken())).Some?
      ensures ok ==> Round(p.input, old(p.At()), old(Taken())).value == (p.At(), Taken())
    {
      hide Lex, Copied, Measure, TokenValue, JsonLexer.SkipValue, Parser.Current;
      var key;
      ok, key := p.ParseString(KEY_MAX);
      if !ok { return; }
      p.KindIs();
      if p.kind != TokColon { return false; }
      p.NextToken();
      if key == NAME {
        ok := ParseTokens(p);
        if !ok { return; }
      } else {
        var r := p.SkipValue();
        ok := r == 0;
        if !ok { return; }
      }
      p.KindIs();
      if p.kind == TokComma { p.NextToken(); }
    }
  }

  /** 0 with the tokens taken, never more than the array holds, or -1; whatever the text, the loops end. */
  method ParseDetokenizeRequest(body: string) returns (r: int, req: DetokenizeRequest)
    ensures r == if ParsedTokens(body).Some? then 0 else -1
    ensures req.Valid() && fresh(req)
    ensures r == 0 ==> ParsedTokens(body) == Some(req.Taken())
  {
    hide Lex, Round, Measure;
    req := new DetokenizeRequest();
    var p := new Parser(body);
    p.NextToken();
    if p.kind != TokLBrace {
      return -1, req;
    }
    p.NextToken();
    while p.kind != TokRBrace && p.kind != TokEof
      invariant p.Valid() && p.input == body && fresh(p) && fresh(p.stringBuf)
      invariant req.Valid() && fresh(req) && fresh(req.tokens)
      invariant Rounds(body, p.At(), req.Taken()) == ParsedTokens(body)
      decreases Measure(body, p.At())
    {
      var ok := req.ParseMember(p);
      if !ok {
        return -1, req;
      }
    }
    r := 0;
  }
}
