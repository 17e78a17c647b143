/** Reading back what the writer wrote: tokens, skipped values, and strings through the 1023-character buffer. */
module JsonRoundTrip {
  import opened Format
  import opened JsonLexer
  import opened JsonWriter

  /** inp has x at p. */
  predicate Holds(inp: string, p: nat, x: string) {
    p + |x| <= |inp| && inp[p..p + |x|] == x
  }

  lemma Itself(inp: string)
    ensures Holds(inp, 0, inp)
  {
    assert inp[0..0 + |inp|] == inp;
  }

  lemma HoldsParts(inp: string, p: nat, x: string, y: string)
    requires Holds(inp, p, x + y)
    ensures Holds(inp, p, x) && Holds(inp, p + |x|, y)
  {
    assert inp[p..p + |x|] == (x + y)[..|x|];
    assert inp[p + |x|..p + |x| + |y|] == (x + y)[|x|..];
  }

  lemma HoldsChar(inp: string, p: nat, x: string, i: nat)
    requires Holds(inp, p, x) && i < |x|
    ensures inp[p + i] == x[i]
  {
    assert inp[p..p + |x|][i] == x[i];
  }

  predicate Blank(c: char) { c == ' ' || c == '\t' || c == '\n' || c == '\r' }

  /** A character that may go on a number literal. */
  predicate Extends(c: char) { '0' <= c <= '9' || c in {'.', 'e', 'E', '+', '-'} }

  /** A place where a number literal ends: the end of the input or a character that cannot extend it. */
  predicate Delimited(inp: string, p: nat) {
    p == |inp| || (p < |inp| && !Extends(inp[p]))
  }

  /** Keys are written unescaped, so only these are writable. */
  predicate CleanKey(k: string) { '"' !in k && '\\' !in k }

  predicate WellKeyed(v: Json)
    decreases v, 0
  {
    match v
    case JArray(items) => forall i :: 0 <= i < |items| ==> WellKeyed(items[i])
    case JObject(members) => WellKeyedMembers(members)
    case _ => true
  }

  predicate WellKeyedMembers(members: seq<Member>)
    decreases members, 1
  {
    forall i :: 0 <= i < |members| ==> CleanKey(members[i].key) && WellKeyed(members[i].value)
  }

  // ---------------------------------------------------------------- strings

  /** What survives escaping: everything but the control characters without an escape of their own. */
  function Kept(s: string): string {
    if s == [] then [] else (if EscapedChar(s[0]) == [] then [] else [s[0]]) + Kept(s[1..])
  }

  /** Everything but the control characters that have no short escape. */
  predicate Writable(c: char) {
    ' ' <= c || c in {'\n', '\r', '\t', BACKSPACE, FORMFEED}
  }

  lemma EscapeExists(c: char)
    ensures EscapedChar(c) != [] <==> Writable(c)
  {
  }

  lemma KeptDrops(s: string)
    ensures Kept(s) == s <==> forall i :: 0 <= i < |s| ==> Writable(s[i])
  {
    if s != [] {
      EscapeExists(s[0]);
      KeptDrops(s[1..]);
      KeptShorter(s[1..]);
      assert s == [s[0]] + s[1..];
      assert forall i :: 1 <= i < |s| ==> s[i] == s[1..][i - 1];
      if Writable(s[0]) && Kept(s) == s {
        assert Kept(s)[1..] == Kept(s[1..]);
      }
    }
  }

  lemma KeptShorter(s: string)
    ensures |Kept(s)| <= |s|
  {
  }

  lemma AppendCut(text: string, c: char, more: string)
    requires |text| <= STRING_MAX
    ensures Cut(Append(text, c) + more, STRING_MAX) == Cut(text + ([c] + more), STRING_MAX)
  {
    if |text| < STRING_MAX {
      assert text + [c] + more == text + ([c] + more);
    } else {
      assert (text + more)[..STRING_MAX] == text == (text + ([c] + more))[..STRING_MAX];
    }
  }

  /** One escaped character reads back as itself. */
  lemma ScanEscaped(inp: string, p: nat, c: char, text: string)
    requires EscapedChar(c) != [] && Holds(inp, p, EscapedChar(c)) && p + |EscapedChar(c)| < |inp|
    requires |text| <= STRING_MAX
    ensures ScanString(inp, p, text) == ScanString(inp, p + |EscapedChar(c)|, Append(text, c))
  {
    var e := EscapedChar(c);
    HoldsChar(inp, p, e, 0);
    if |e| == 2 { HoldsChar(inp, p, e, 1); }
    EscapeReads(c);
  }

  lemma EscapeReads(c: char)
    requires EscapedChar(c) != []
    ensures var e := EscapedChar(c);
            && (|e| == 1 ==> e == [c] && c != '"' && c != '\\')
            && (|e| != 1 ==> |e| == 2 && e[0] == '\\' && e[1] != 'u' && Unescaped(e[1]) == c)
  {
  }

  lemma {:induction false} ScanReadsBack(inp: string, p: nat, s: string, text: string)
    requires Holds(inp, p, Escaped(s) + "\"") && |text| <= STRING_MAX
    ensures ScanString(inp, p, text) == Scan(true, Cut(text + Kept(s), STRING_MAX), p + |Escaped(s)| + 1)
    decreases |s|
  {
    hide ScanString, EscapedChar, Append, Cut;
    if s == [] {
      ScanNothing(inp, p, text);
    } else {
      var e, rest := EscapedChar(s[0]), Escaped(s[1..]) + "\"";
      assert Escaped(s) + "\"" == e + rest;
      HoldsParts(inp, p, e, rest);
      if e == [] {
        ScanReadsBack(inp, p, s[1..], text);
        assert Kept(s) == Kept(s[1..]);
      } else {
        ScanEscaped(inp, p, s[0], text);
        ScanReadsBack(inp, p + |e|, s[1..], Append(text, s[0]));
        AppendCut(text, s[0], Kept(s[1..]));
      }
    }
  }

  lemma ScanNothing(inp: string, p: nat, text: string)
    requires Holds(inp, p, Escaped([]) + "\"") && |text| <= STRING_MAX
    ensures ScanString(inp, p, text) == Scan(true, Cut(text + Kept([]), STRING_MAX), p + |Escaped([])| + 1)
  {
    HoldsChar(inp, p, "\"", 0);
    assert text + [] == text;
  }

  lemma {:induction false} ScanCleanKey(inp: string, p: nat, k: string, text: string)
    requires CleanKey(k) && Holds(inp, p, k + "\"") && |text| <= STRING_MAX
    ensures ScanString(inp, p, text) == Scan(true, Cut(text + k, STRING_MAX), p + |k| + 1)
    decreases |k|
  {
    HoldsChar(inp, p, k + "\"", 0);
    if k == [] {
      assert text + [] == text;
    } else {
      assert k + "\"" == [k[0]] + (k[1..] + "\"");
      HoldsParts(inp, p, [k[0]], k[1..] + "\"");
      assert k == [k[0]] + k[1..];
      ScanCleanKey(inp, p + 1, k[1..], Append(text, k[0]));
      AppendCut(text, k[0], k[1..]);
    }
  }

  /** A string value reads back as what survives escaping, cut to the lexer's buffer. */
  lemma StringReadsBack(inp: string, p: nat, s: string)
    requires Holds(inp, p, Quoted(Escaped(s)))
    ensures Lex(inp, p) == State(Str(Cut(Kept(s), STRING_MAX)), p + |Quoted(Escaped(s))|)
  {
    hide Escaped, Kept, ScanString;
    HoldsChar(inp, p, Quoted(Escaped(s)), 0);
    assert Quoted(Escaped(s)) == "\"" + (Escaped(s) + "\"");
    HoldsParts(inp, p, "\"", Escaped(s) + "\"");
    ScanReadsBack(inp, p + 1, s, []);
    assert [] + Kept(s) == Kept(s);
  }

  /** A written string reads back as itself if and only if it has no other control character and fits the buffer. */
  lemma StringReadsBackIff(s: string)
    ensures Lex(Quoted(Escaped(s)), 0) == State(Str(s), |Quoted(Escaped(s))|)
        <==> |s| <= STRING_MAX && forall i :: 0 <= i < |s| ==> Writable(s[i])
  {
    hide Lex, Kept, Writable, Escaped;
    var inp := Quoted(Escaped(s));
    assert inp[0..0 + |inp|] == inp;
    StringReadsBack(inp, 0, s);
    KeptDrops(s);
    KeptShorter(s);
  }

  lemma KeyReadsBack(inp: string, p: nat, k: string)
    requires CleanKey(k) && Holds(inp, p, Quoted(k))
    ensures Lex(inp, p) == State(Str(Cut(k, STRING_MAX)), p + |Quoted(k)|)
  {
    HoldsChar(inp, p, Quoted(k), 0);
    assert Quoted(k) == "\"" + (k + "\"");
    HoldsParts(inp, p, "\"", k + "\"");
    ScanCleanKey(inp, p + 1, k, []);
    assert [] + k == k;
  }

  /** A literal never reads as more characters than it has. */
  lemma {:induction false} ScanNoLonger(inp: string, i: nat, text: string)
    requires i <= |inp| && |text| <= STRING_MAX
    ensures var r := ScanString(inp, i, text); r.ok ==> i < r.pos && |r.text| <= |text| + (r.pos - 1 - i)
    decreases |inp| - i
  {
    if i < |inp| && inp[i] != '"' && !BadUnicode(inp, i) {
      ScanStep(inp, i, text);
      ScanNoLonger(inp, ScanChar(inp, i).1, Append(text, ScanChar(inp, i).0));
    }
  }

  /** A key that is not clean does not read back: its literal ends early or comes out shorter. */
  lemma {:induction false} ScanDirtyKey(inp: string, p: nat, k: string, text: string)
    requires !CleanKey(k) && Holds(inp, p, k + "\"") && |inp| == p + |k| + 1 && |text| <= STRING_MAX
    ensures var r := ScanString(inp, p, text); r.ok ==> r.pos < |inp| || |r.text| < |text| + |k|
    decreases |k|
  {
    hide ScanString;
    HoldsChar(inp, p, k + "\"", 0);
    ScanStep(inp, p, text);
    if k[0] == '"' {
    } else if k[0] == '\\' {
      if !BadUnicode(inp, p) {
        ScanNoLonger(inp, ScanChar(inp, p).1, Append(text, ScanChar(inp, p).0));
      }
    } else {
      assert k + "\"" == [k[0]] + (k[1..] + "\"");
      HoldsParts(inp, p, [k[0]], k[1..] + "\"");
      assert k == [k[0]] + k[1..];
      ScanDirtyKey(inp, p + 1, k[1..], Append(text, k[0]));
    }
  }

  /** Keys are written as they are, and read back exactly when they hold no quote and no backslash and fit the
      buffer. */
  lemma KeyReadsBackIff(k: string)
    ensures Lex(Quoted(k), 0) == State(Str(k), |Quoted(k)|) <==> CleanKey(k) && |k| <= STRING_MAX
  {
    var inp := Quoted(k);
    assert inp == "\"" + (k + "\"") && inp[1..] == k + "\"";
    assert Holds(inp, 1, k + "\"");
    if CleanKey(k) {
      KeyReadsBack(inp, 0, k);
    } else {
      ScanDirtyKey(inp, 1, k, []);
    }
  }

  // ---------------------------------------------------------------- numbers

  lemma DigitsAreDigits(v: nat)
    ensures forall i :: 0 <= i < |Digits(v, 10, false)| ==> IsDigit(Digits(v, 10, false)[i])
  {
    DigitsShape(v, 10, false);
    forall i | 0 <= i < |Digits(v, 10, false)|
      ensures IsDigit(Digits(v, 10, false)[i])
    {
      assert Digits(v, 10, false)[i] in Digits(v, 10, false);
    }
  }

  /** The digits of an integer's text: all of it, or all behind the sign. */
  function Magnitude(i: sint): string {
    var n: int := i;
    Digits(if n < 0 then -n else n, 10, false)
  }

  /** Where the digits of an integer's text are. */
  lemma IntPlaces(inp: string, p: nat, i: sint)
    requires Holds(inp, p, SignedText(i)) && Delimited(inp, p + |SignedText(i)|)
    ensures var d, e := Magnitude(i), p + |SignedText(i)|;
            var a := e - |d|;
      && p <= a < e <= |inp| && a == IntStart(inp, p) && inp[a..e] == d && DigitsEnd(inp, a) == e
      && (inp[p] == '-' <==> i < 0) && (inp[p] == '-' || IsDigit(inp[p]))
  {
    hide Digits, DigitsEnd, Holds;
    var n: int := i;
    var d, t := Magnitude(i), SignedText(i);
    var e := p + |t|;
    var a := e - |d|;
    DigitsAreDigits(if n < 0 then -n else n);
    if n < 0 {
      assert t == "-" + d;
      HoldsParts(inp, p, "-", d);
      HoldsChar(inp, p, "-", 0);
    }
    HeldDigits(inp, a, d);
    DigitsEndIs(inp, a, e);
  }

  lemma HeldDigits(inp: string, a: nat, d: string)
    requires Holds(inp, a, d) && forall k :: 0 <= k < |d| ==> IsDigit(d[k])
    ensures a + |d| <= |inp| && inp[a..a + |d|] == d
    ensures forall k :: a <= k < a + |d| ==> IsDigit(inp[k])
  {
    forall k | a <= k < a + |d| ensures IsDigit(inp[k]) {
      HoldsChar(inp, a, d, k - a);
    }
  }

  /** An integer reads back as the same number. */
  lemma IntReadsBack(inp: string, p: nat, i: sint)
    requires Holds(inp, p, SignedText(i)) && Delimited(inp, p + |SignedText(i)|)
    ensures Lex(inp, p) == State(Num(i as real), p + |SignedText(i)|)
  {
    hide Digits, Value, Lex, DigitsEnd, Holds, SignedText;
    var n: int := i;
    var v, e := if n < 0 then -n else n, p + |SignedText(i)|;
    IntPlaces(inp, p, i);
    DigitsDenote(v, 10, false);
    IntLiteral(inp, p, e - |Magnitude(i)|, e, v);
  }

  lemma IntLiteral(inp: string, p: nat, a: nat, e: nat, v: nat)
    requires p < |inp| && a == IntStart(inp, p) && a < e <= |inp| && DigitsEnd(inp, a) == e
    requires inp[p] == '-' || IsDigit(inp[p])
    requires Delimited(inp, e) && Value(inp[a..e], 10) == v
    ensures Lex(inp, p) == State(Num(if inp[p] == '-' then -(v as real) else v as real), e)
  {
    hide Denoted, Value;
    IntNumeral(inp, p, a, e);
    WholeDenotes(inp[p] == '-', inp[a..e]);
  }

  lemma IntNumeral(inp: string, p: nat, a: nat, e: nat)
    requires p < |inp| && a == IntStart(inp, p) && a < e <= |inp| && DigitsEnd(inp, a) == e && Delimited(inp, e)
    ensures NumeralAt(inp, p) == (Numeral(inp[p] == '-', inp[a..e], [], false, []), e)
  {
    hide DigitsEnd;
    assert FracStart(inp, e) == e && FracEnd(inp, e) == e;
    assert !HasExp(inp, e) && ExpStart(inp, e) == e && ExpEnd(inp, e) == e;
    assert inp[e..e] == [];
  }

  lemma WholeDenotes(negative: bool, whole: string)
    ensures var v := Value(whole, 10);
      Denoted(Numeral(negative, whole, [], false, [])) == if negative then -(v as real) else v as real
  {
    ValueNone(10);
    TensZero();
    hide Value, Tens;
  }

  lemma TensZero()
    ensures Tens(0) == 1.0
  {
  }

  lemma WordReadsBack(inp: string, p: nat, w: string, t: Token)
    requires (w == "true" && t == True) || (w == "false" && t == False) || (w == "null" && t == Null)
    requires Holds(inp, p, w)
    ensures Lex(inp, p) == State(t, p + |w|)
  {
    HoldsChar(inp, p, w, 0);
  }

  function Mark(c: char): Token {
    match c
    case '{' => LBrace
    case '}' => RBrace
    case '[' => LBracket
    case ']' => RBracket
    case ':' => Colon
    case ',' => JsonLexer.Comma
    case _ => Error
  }

  lemma MarkReadsBack(inp: string, p: nat, c: char)
    requires Holds(inp, p, [c]) && Mark(c) != Error
    ensures Lex(inp, p) == State(Mark(c), p + 1)
  {
    HoldsChar(inp, p, [c], 0);
  }

  // ---------------------------------------------------------------- whole trees

  /** The tokens a tree stands for. */
  function Tokens(v: Json): seq<Token>
    decreases v, 0
  {
    match v
    case JString(s) => [Str(Cut(Kept(s), STRING_MAX))]
    case JInt(i) => [Num(i as real)]
    case JBool(b) => [if b then True else False]
    case JNull => [Null]
    case JArray(items) => [LBracket] + ElementTokens(items) + [RBracket]
    case JObject(members) => [LBrace] + MemberTokens(members) + [RBrace]
  }

  function ElementTokens(items: seq<Json>): seq<Token>
    decreases items, 1
  {
    if items == [] then []
    else Tokens(items[0]) + if |items| == 1 then [] else [JsonLexer.Comma] + ElementTokens(items[1..])
  }

  function MemberTokens(members: seq<Member>): seq<Token>
    decreases members, 1
  {
    if members == [] then []
    else
      MemberToken(members[0]) + if |members| == 1 then [] else [JsonLexer.Comma] + MemberTokens(members[1..])
  }

  function MemberToken(m: Member): seq<Token>
    decreases m, 1
  {
    [Str(Cut(m.key, STRING_MAX)), Colon] + Tokens(m.value)
  }

  /** All tokens from a position on, up to EOF or the first ERROR. */
  function LexAll(inp: string, p: nat): seq<Token>
    requires p <= |inp|
    decreases |inp| - p
  {
    var st := Lex(inp, p);
    if Usable(st) then [st.tok] + LexAll(inp, st.pos) else []
  }

  /** From p to q the input reads as these tokens. */
  predicate ReadsAs(inp: string, p: nat, tokens: seq<Token>, q: nat) {
    p <= q <= |inp| && LexAll(inp, p) == tokens + LexAll(inp, q)
  }

  /** From p to q the input reads as one value that json_skip_value passes over. */
  predicate Skips(inp: string, p: nat, q: nat) {
    p <= q <= |inp| && StartsValue(Lex(inp, p).tok) && SkipValue(inp, Lex(inp, p)) == (Lex(inp, q), true)
  }

  predicate StartsValue(t: Token) {
    t == LBrace || t == LBracket || t.Str? || t.Num? || t == True || t == False || t == Null
  }

  lemma ReadsOne(inp: string, p: nat, t: Token, q: nat)
    requires p <= q <= |inp| && Lex(inp, p) == State(t, q) && t != Eof && t != Error
    ensures ReadsAs(inp, p, [t], q)
    ensures StartsValue(t) && t != LBrace && t != LBracket ==> Skips(inp, p, q)
  {
  }

  lemma ReadsThen(inp: string, p: nat, a: seq<Token>, q: nat, b: seq<Token>, r: nat)
    requires ReadsAs(inp, p, a, q) && ReadsAs(inp, q, b, r)
    ensures ReadsAs(inp, p, a + b, r)
  {
    assert a + (b + LexAll(inp, r)) == a + b + LexAll(inp, r);
  }

  lemma ReadsMark(inp: string, p: nat, c: char)
    requires Holds(inp, p, [c]) && Mark(c) != Error
    ensures Lex(inp, p) == State(Mark(c), p + 1) && ReadsAs(inp, p, [Mark(c)], p + 1)
  {
    MarkReadsBack(inp, p, c);
    ReadsOne(inp, p, Mark(c), p + 1);
  }

  /** The serialisation of a tree, at its place in any text, reads as the tree's tokens, and skipping the
      value there consumes exactly it. */
  lemma {:induction false} TreeReadsBack(inp: string, p: nat, v: Json)
    requires Holds(inp, p, Text(v)) && Delimited(inp, p + |Text(v)|) && WellKeyed(v)
    ensures ReadsAs(inp, p, Tokens(v), p + |Text(v)|)
    ensures Skips(inp, p, p + |Text(v)|)
    decreases v, 0
  {
    hide ReadsAs, Lex, LexAll, SkipMembers, SkipElements, Escaped, Kept, SignedText, Holds;
    var q := p + |Text(v)|;
    Within(inp, p, Text(v));
    match v
    case JString(t) =>
      StringReadsBack(inp, p, t);
      ReadsOne(inp, p, Tokens(v)[0], q);
    case JInt(i) =>
      IntReadsBack(inp, p, i);
      ReadsOne(inp, p, Tokens(v)[0], q);
    case JBool(b) =>
      WordReadsBack(inp, p, Text(v), if b then True else False);
      ReadsOne(inp, p, Tokens(v)[0], q);
    case JNull =>
      WordReadsBack(inp, p, Text(v), Null);
      ReadsOne(inp, p, Null, q);
    case JArray(items) => ArrayReadsBack(inp, p, items);
    case JObject(members) => ObjectReadsBack(inp, p, members);
  }

  lemma {:induction false} ArrayReadsBack(inp: string, p: nat, items: seq<Json>)
    requires Holds(inp, p, Text(JArray(items))) && WellKeyed(JArray(items))
    ensures ReadsAs(inp, p, Tokens(JArray(items)), p + |Text(JArray(items))|)
    ensures Skips(inp, p, p + |Text(JArray(items))|)
    decreases items, 2
  {
    hide ReadsAs, Lex, LexAll, Holds, SkipElements;
    var t := Text(JArray(items));
    Within(inp, p, t);
    assert t == "[" + (ElementsText(items) + "]");
    HoldsParts(inp, p, "[", ElementsText(items) + "]");
    ReadsMark(inp, p, '[');
    ElementsReadBack(inp, p + 1, items);
    ReadsThen(inp, p, [LBracket], p + 1, ElementTokens(items) + [RBracket], p + |t|);
    assert [LBracket] + (ElementTokens(items) + [RBracket]) == Tokens(JArray(items));
  }

  lemma {:induction false} ObjectReadsBack(inp: string, p: nat, members: seq<Member>)
    requires Holds(inp, p, Text(JObject(members))) && WellKeyed(JObject(members))
    ensures ReadsAs(inp, p, Tokens(JObject(members)), p + |Text(JObject(members))|)
    ensures Skips(inp, p, p + |Text(JObject(members))|)
    decreases members, 2
  {
    hide ReadsAs, Lex, LexAll, Holds, SkipMembers;
    var t := Text(JObject(members));
    Within(inp, p, t);
    assert t == "{" + (MembersText(members) + "}");
    HoldsParts(inp, p, "{", MembersText(members) + "}");
    ReadsMark(inp, p, '{');
    MembersReadBack(inp, p + 1, members);
    ReadsThen(inp, p, [LBrace], p + 1, MemberTokens(members) + [RBrace], p + |t|);
    assert [LBrace] + (MemberTokens(members) + [RBrace]) == Tokens(JObject(members));
  }

  lemma Within(inp: string, p: nat, x: string)
    requires Holds(inp, p, x)
    ensures p + |x| <= |inp|
  {
  }

  /** One round of the array loop over a value followed by a comma, and the last round. */
  lemma SkipsElement(inp: string, p: nat, r: nat)
    requires Skips(inp, p, r)
    ensures Lex(inp, r) == State(JsonLexer.Comma, r + 1) && r + 1 <= |inp| ==>
              SkipElements(inp, Lex(inp, p)) == SkipElements(inp, Lex(inp, r + 1))
    ensures Lex(inp, r) == State(RBracket, r + 1) && r + 1 <= |inp| ==>
              SkipElements(inp, Lex(inp, p)) == (Lex(inp, r + 1), true)
  {
    hide Lex;
  }

  lemma {:induction false} ElementsReadBack(inp: string, p: nat, items: seq<Json>)
    requires Holds(inp, p, ElementsText(items) + "]") && forall i :: 0 <= i < |items| ==> WellKeyed(items[i])
    ensures var q := p + |ElementsText(items)| + 1;
            && ReadsAs(inp, p, ElementTokens(items) + [RBracket], q)
            && SkipElements(inp, Lex(inp, p)) == (Lex(inp, q), true)
    decreases items, 1
  {
    hide ReadsAs, Lex, LexAll, Holds, Skips, SkipElements, Text, Tokens, ElementsText, ElementTokens, Mark, WellKeyed;
    hide Delimited;
    MarkNames();
    if items == [] {
      NoElements();
      Within(inp, p, "]");
      ReadsMark(inp, p, ']');
      EmptyElements(inp, p);
    } else {
      var r, c := ElementEnd(p, items), ElementMark(items);
      ElementsParts(inp, p, items);
      TreeReadsBack(inp, p, items[0]);
      ReadsMark(inp, r, c);
      ReadsThen(inp, p, Tokens(items[0]), r, [Mark(c)], r + 1);
      SkipsElement(inp, p, r);
      ElementTokensSplit(items);
      if |items| > 1 {
        ElementsReadBack(inp, r + 1, items[1..]);
        ReadsThen(inp, p, Tokens(items[0]) + [Mark(c)], r + 1, ElementTokens(items[1..]) + [RBracket],
                  p + |ElementsText(items)| + 1);
      }
    }
  }

  /** Where the first element ends, and the character behind it. */
  function ElementEnd(p: nat, items: seq<Json>): nat
    requires items != []
  {
    p + |Text(items[0])|
  }

  function ElementMark(items: seq<Json>): char { if |items| == 1 then ']' else ',' }

  /** The parts of an array's text from an element on. */
  lemma ElementsParts(inp: string, p: nat, items: seq<Json>)
    requires items != [] && Holds(inp, p, ElementsText(items) + "]")
    ensures var r, c := ElementEnd(p, items), ElementMark(items);
      && Holds(inp, p, Text(items[0])) && Delimited(inp, r) && Holds(inp, r, [c]) && r + 1 <= |inp|
      && if |items| == 1 then r + 1 == p + |ElementsText(items)| + 1
         else Holds(inp, r + 1, ElementsText(items[1..]) + "]")
              && r + 1 + |ElementsText(items[1..])| == p + |ElementsText(items)|
  {
    hide Holds, Text, ElementsText, ElementsRest, Delimited;
    var r, c, rest := ElementEnd(p, items), ElementMark(items), ElementsRest(items);
    ElementsTextSplit(items);
    HoldsParts(inp, p, Text(items[0]), rest);
    AfterValue(inp, r, rest, c);
    Within(inp, r, [c]);
    if |items| > 1 { HoldsParts(inp, r, ",", ElementsText(items[1..]) + "]"); }
  }

  lemma EmptyElements(inp: string, p: nat)
    requires p < |inp| && Lex(inp, p) == State(RBracket, p + 1)
    ensures SkipElements(inp, Lex(inp, p)) == (Lex(inp, p + 1), true)
  {
  }

  function ElementsRest(items: seq<Json>): string
    requires items != []
  {
    (if |items| == 1 then [] else "," + ElementsText(items[1..])) + "]"
  }

  lemma NoElements()
    ensures ElementsText([]) + "]" == "]" && ElementTokens([]) + [RBracket] == [RBracket]
  {
  }

  lemma ElementsTextSplit(items: seq<Json>)
    requires items != []
    ensures ElementsText(items) + "]" == Text(items[0]) + ElementsRest(items)
    ensures ElementsRest(items) == if |items| == 1 then "]" else "," + (ElementsText(items[1..]) + "]")
    ensures ElementsRest(items) != [] && ElementsRest(items)[0] == ElementMark(items)
    ensures |ElementsText(items)| + 1 == |Text(items[0])| + |ElementsRest(items)|
    ensures |items| > 1 ==> |ElementsRest(items)| == |ElementsText(items[1..])| + 2
  {
    hide Text, ElementsText;
    ElementsTextDef(items);
    RegroupRight(Text(items[0]), ",", ElementsText(items[1..]), "]");
  }

  lemma ElementsTextDef(items: seq<Json>)
    requires items != []
    ensures ElementsText(items) == Text(items[0]) + if |items| == 1 then [] else "," + ElementsText(items[1..])
  {
  }

  lemma RegroupRight(a: string, x: string, b: string, y: string)
    ensures a + (x + b) + y == a + (x + b + y) && x + b + y == x + (b + y)
    ensures a + [] + y == a + y && [] + y == y
  {
  }

  lemma Regroup<T>(a: seq<T>, x: seq<T>, b: seq<T>, y: seq<T>)
    ensures a + (x + b) + y == a + x + (b + y)
    ensures a + [] + y == a + y
  {
  }

  lemma ElementTokensSplit(items: seq<Json>)
    requires items != []
    ensures ElementTokens(items) + [RBracket] ==
            if |items| == 1 then Tokens(items[0]) + [Mark(']')]
            else Tokens(items[0]) + [Mark(',')] + (ElementTokens(items[1..]) + [RBracket])
  {
    hide Tokens, ElementTokens, Mark;
    ElementTokensDef(items);
    MarkNames();
    var a, b := Tokens(items[0]), ElementTokens(items[1..]);
    if |items| == 1 {
      Regroup(a, [], [], [RBracket]);
    } else {
      Regroup(a, [JsonLexer.Comma], b, [RBracket]);
    }
  }

  lemma MarkNames()
    ensures Mark(',') == JsonLexer.Comma && Mark(']') == RBracket && Mark('}') == RBrace
  {
  }

  lemma ElementTokensDef(items: seq<Json>)
    requires items != []
    ensures ElementTokens(items) == Tokens(items[0]) +
            if |items| == 1 then [] else [JsonLexer.Comma] + ElementTokens(items[1..])
  {
  }

  lemma AfterValue(inp: string, p: nat, rest: string, c: char)
    requires Holds(inp, p, rest) && rest != [] && rest[0] == c && (c == ',' || c == ']' || c == '}')
    ensures Delimited(inp, p) && Holds(inp, p, [c])
  {
    HoldsChar(inp, p, rest, 0);
  }

  /** From p to r the input reads as a key, a colon and a value that is passed over. */
  predicate SkipsMember(inp: string, p: nat, k: nat, r: nat) {
    && p <= k && k + 1 <= r <= |inp| && Lex(inp, p).tok.Str? && Lex(inp, p).pos == k
    && Lex(inp, k) == State(Colon, k + 1) && Skips(inp, k + 1, r)
  }

  lemma SkipsOneMember(inp: string, p: nat, k: nat, r: nat)
    requires SkipsMember(inp, p, k, r)
    ensures Lex(inp, r) == State(JsonLexer.Comma, r + 1) && r + 1 <= |inp| ==>
              SkipMembers(inp, Lex(inp, p)) == SkipMembers(inp, Lex(inp, r + 1))
    ensures Lex(inp, r) == State(RBrace, r + 1) && r + 1 <= |inp| ==>
              SkipMembers(inp, Lex(inp, p)) == (Lex(inp, r + 1), true)
  {
    hide Lex, StartsValue;
  }

  lemma EmptyMembers(inp: string, p: nat)
    requires p < |inp| && Lex(inp, p) == State(RBrace, p + 1)
    ensures SkipMembers(inp, Lex(inp, p)) == (Lex(inp, p + 1), true)
  {
  }

  function MembersRest(members: seq<Member>): string
    requires members != []
  {
    (if |members| == 1 then [] else "," + MembersText(members[1..])) + "}"
  }

  lemma NoMembers()
    ensures MembersText([]) + "}" == "}" && MemberTokens([]) + [RBrace] == [RBrace]
  {
  }

  lemma MembersTextSplit(members: seq<Member>)
    requires members != []
    ensures MembersText(members) + "}" == MemberText(members[0]) + MembersRest(members)
    ensures MembersRest(members) == if |members| == 1 then "}" else "," + (MembersText(members[1..]) + "}")
    ensures MembersRest(members) != [] && MembersRest(members)[0] == MemberMark(members)
    ensures |MembersText(members)| + 1 == |MemberText(members[0])| + |MembersRest(members)|
    ensures |members| > 1 ==> |MembersRest(members)| == |MembersText(members[1..])| + 2
  {
    hide MemberText, MembersText;
    MembersTextDef(members);
    RegroupRight(MemberText(members[0]), ",", MembersText(members[1..]), "}");
  }

  lemma MembersTextDef(members: seq<Member>)
    requires members != []
    ensures MembersText(members) ==
            MemberText(members[0]) + if |members| == 1 then [] else "," + MembersText(members[1..])
  {
  }

  lemma MemberTokensSplit(members: seq<Member>)
    requires members != []
    ensures MemberTokens(members) + [RBrace] ==
            if |members| == 1 then MemberToken(members[0]) + [Mark('}')]
            else MemberToken(members[0]) + [Mark(',')] + (MemberTokens(members[1..]) + [RBrace])
  {
    hide MemberToken, MemberTokens, Mark;
    MemberTokensDef(members);
    MarkNames();
    var a, b := MemberToken(members[0]), MemberTokens(members[1..]);
    if |members| == 1 {
      Regroup(a, [], [], [RBrace]);
    } else {
      Regroup(a, [JsonLexer.Comma], b, [RBrace]);
    }
  }

  lemma MemberTokensDef(members: seq<Member>)
    requires members != []
    ensures MemberTokens(members) == MemberToken(members[0]) +
            if |members| == 1 then [] else [JsonLexer.Comma] + MemberTokens(members[1..])
  {
  }

  lemma {:induction false} MembersReadBack(inp: string, p: nat, members: seq<Member>)
    requires Holds(inp, p, MembersText(members) + "}") && WellKeyedMembers(members)
    ensures var q := p + |MembersText(members)| + 1;
            && ReadsAs(inp, p, MemberTokens(members) + [RBrace], q)
            && SkipMembers(inp, Lex(inp, p)) == (Lex(inp, q), true)
    decreases members, 1
  {
    hide ReadsAs, Lex, LexAll, Holds, SkipsMember, SkipMembers, MemberText, MemberToken, MembersText, MemberTokens;
    hide Mark;
    hide CleanKey, WellKeyed, Delimited;
    MarkNames();
    if members == [] {
      NoMembers();
      Within(inp, p, "}");
      ReadsMark(inp, p, '}');
      EmptyMembers(inp, p);
    } else {
      var m, r, c := members[0], MemberEnd(p, members), MemberMark(members);
      MembersParts(inp, p, members);
      MemberReadsBack(inp, p, m);
      ReadsMark(inp, r, c);
      ReadsThen(inp, p, MemberToken(m), r, [Mark(c)], r + 1);
      SkipsOneMember(inp, p, p + |Quoted(m.key)|, r);
      MemberTokensSplit(members);
      if |members| > 1 {
        MembersReadBack(inp, r + 1, members[1..]);
        ReadsThen(inp, p, MemberToken(m) + [Mark(c)], r + 1, MemberTokens(members[1..]) + [RBrace],
                  p + |MembersText(members)| + 1);
      }
    }
  }

  /** Where the first member ends, and the character behind it. */
  function MemberEnd(p: nat, members: seq<Member>): nat
    requires members != []
  {
    p + |MemberText(members[0])|
  }

  function MemberMark(members: seq<Member>): char { if |members| == 1 then '}' else ',' }

  /** The parts of an object's text from a member on. */
  lemma MembersParts(inp: string, p: nat, members: seq<Member>)
    requires members != [] && Holds(inp, p, MembersText(members) + "}")
    ensures var r, c := MemberEnd(p, members), MemberMark(members);
      && Holds(inp, p, MemberText(members[0])) && Delimited(inp, r) && Holds(inp, r, [c]) && r + 1 <= |inp|
      && if |members| == 1 then r + 1 == p + |MembersText(members)| + 1
         else Holds(inp, r + 1, MembersText(members[1..]) + "}")
              && r + 1 + |MembersText(members[1..])| == p + |MembersText(members)|
  {
    hide Holds, MemberText, MembersText, MembersRest, Delimited;
    var r, c, rest := MemberEnd(p, members), MemberMark(members), MembersRest(members);
    MembersTextSplit(members);
    HoldsParts(inp, p, MemberText(members[0]), rest);
    AfterValue(inp, r, rest, c);
    Within(inp, r, [c]);
    if |members| > 1 { HoldsParts(inp, r, ",", MembersText(members[1..]) + "}"); }
  }

  lemma {:induction false} MemberReadsBack(inp: string, p: nat, m: Member)
    requires Holds(inp, p, MemberText(m)) && Delimited(inp, p + |MemberText(m)|)
    requires CleanKey(m.key) && WellKeyed(m.value)
    ensures var k := p + |Quoted(m.key)|;
            && SkipsMember(inp, p, k, p + |MemberText(m)|)
            && Lex(inp, p).tok == Str(Cut(m.key, STRING_MAX))
            && ReadsAs(inp, p, MemberToken(m), p + |MemberText(m)|)
    decreases m, 1
  {
    hide ReadsAs, Lex, LexAll, Holds, Text, Tokens, Skips;
    var k, t := p + |Quoted(m.key)|, Text(m.value);
    assert MemberText(m) == Quoted(m.key) + (":" + t);
    Within(inp, p, MemberText(m));
    HoldsParts(inp, p, Quoted(m.key), ":" + t);
    HoldsParts(inp, k, ":", t);
    KeyReadsBack(inp, p, m.key);
    ReadsOne(inp, p, Str(Cut(m.key, STRING_MAX)), k);
    ReadsMark(inp, k, ':');
    TreeReadsBack(inp, k + 1, m.value);
    ReadsThen(inp, p, [Str(Cut(m.key, STRING_MAX))], k, [Colon], k + 1);
    assert [Str(Cut(m.key, STRING_MAX))] + [Colon] == [Str(Cut(m.key, STRING_MAX)), Colon];
    ReadsThen(inp, p, [Str(Cut(m.key, STRING_MAX)), Colon], k + 1, Tokens(m.value), p + |MemberText(m)|);
  }

  /** A serialised tree on its own: its tokens are exactly all there is, and skipping it returns 0 at EOF. */
  lemma DocumentReadsBack(v: Json)
    requires WellKeyed(v)
    ensures LexAll(Text(v), 0) == Tokens(v)
    ensures SkipValue(Text(v), Lex(Text(v), 0)) == (State(Eof, |Text(v)|), true)
  {
    hide Text, Tokens, Lex, LexAll, SkipValue, WellKeyed;
    var inp := Text(v);
    assert inp[0..0 + |inp|] == inp;
    TreeReadsBack(inp, 0, v);
    AtEnd(inp);
    assert Tokens(v) + [] == Tokens(v);
  }

  lemma AtEnd(inp: string)
    ensures Lex(inp, |inp|) == State(Eof, |inp|) && LexAll(inp, |inp|) == []
  {
  }
}
