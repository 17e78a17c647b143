/** JSON values, however their texts are written: with any blanks, any escapes and any form of number, with or without
    commas, and broken off or not. */
module JsonValues {
  import opened Format
  import opened JsonLexer
  import opened JsonLiterals
  import opened JsonRoundTrip
  import opened JsonSpaces
  import opened Options

  /** Items and fields may have a comma behind them or not, and an array or object may lack its closing mark. */
  datatype Value =
    | VString(text: string) | VNumber(x: real) | VBool(b: bool) | VNull
    | VArray(items: seq<Item>, closed: bool) | VObject(fields: seq<Field>, closed: bool)

  datatype Item = Item(value: Value, comma: bool)
  datatype Field = Field(name: string, value: Value, comma: bool)

  // ---------------------------------------------------------------- their tokens

  function ValueTokens(v: Value): seq<Token>
    decreases v, 0
  {
    match v
    case VString(t) => [Str(t)]
    case VNumber(x) => [Num(x)]
    case VBool(b) => [if b then True else False]
    case VNull => [Null]
    case VArray(items, closed) => [LBracket] + ItemTokens(items, closed)
    case VObject(fields, closed) => [LBrace] + FieldTokens(fields, closed)
  }

  function CommaTokens(comma: bool): seq<Token> { if comma then [JsonLexer.Comma] else [] }

  /** From an item on, up to the closing bracket if there is one. */
  function ItemTokens(items: seq<Item>, closed: bool): seq<Token>
    decreases items, 1
  {
    if items == [] then if closed then [RBracket] else []
    else
      assert items[0] in items && items[0].value < items[0];
      ValueTokens(items[0].value) + (CommaTokens(items[0].comma) + ItemTokens(items[1..], closed))
  }

  function FieldTokens(fields: seq<Field>, closed: bool): seq<Token>
    decreases fields, 1
  {
    if fields == [] then if closed then [RBrace] else []
    else
      assert fields[0] in fields && fields[0].value < fields[0];
      [Str(fields[0].name), Colon]
      + (ValueTokens(fields[0].value) + (CommaTokens(fields[0].comma) + FieldTokens(fields[1..], closed)))
  }

  /** Nothing is broken off but what stands at the very end of the text. */
  predicate Shaped(v: Value, last: bool)
    decreases v, 0
  {
    match v
    case VArray(items, closed) => (closed || last) && ItemsShaped(items, !closed)
    case VObject(fields, closed) => (closed || last) && FieldsShaped(fields, !closed)
    case _ => true
  }

  predicate ItemsShaped(items: seq<Item>, last: bool)
    decreases items, 1
  {
    items == []
    || (assert items[0] in items && items[0].value < items[0];
        && Shaped(items[0].value, last && |items| == 1 && !items[0].comma)
        && ItemsShaped(items[1..], last))
  }

  predicate FieldsShaped(fields: seq<Field>, last: bool)
    decreases fields, 1
  {
    fields == []
    || (assert fields[0] in fields && fields[0].value < fields[0];
        && Shaped(fields[0].value, last && |fields| == 1 && !fields[0].comma)
        && FieldsShaped(fields[1..], last))
  }

  // ---------------------------------------------------------------- reading them

  /** The tokens ahead are these and then others. */
  predicate Comes(s: string, st: State, ts: seq<Token>, rest: seq<Token>) {
    st.pos <= |s| && Ahead(s, st) == ts + rest && rest != []
  }

  /** The first of them is the current one, and the next token leads to the others. */
  lemma Step(s: string, st: State, t: Token, ts: seq<Token>, rest: seq<Token>)
    requires Comes(s, st, [t] + ts, rest)
    ensures st.tok == t && Usable(st) && rest != [] && st.pos <= |s|
    ensures Next(s, st).pos <= |s| && Comes(s, Next(s, st), ts, rest)
  {
    hide Lex, Ahead;
    AheadIs(s, st);
    var others := if Usable(st) then Ahead(s, Next(s, st)) else [];
    assert [st.tok] + others == [t] + (ts + rest);
    assert others == ([st.tok] + others)[1..] == ts + rest;
  }

  lemma AheadIs(s: string, st: State)
    requires st.pos <= |s|
    ensures Ahead(s, st) == [st.tok] + if Usable(st) then Ahead(s, Next(s, st)) else []
  {
  }

  lemma Now(s: string, st: State, ts: seq<Token>, rest: seq<Token>)
    requires Comes(s, st, ts, rest)
    ensures st.pos <= |s| && rest != [] && st.tok == (ts + rest)[0]
  {
    assert Ahead(s, st)[0] == st.tok;
  }

  lemma Regrouped(s: string, st: State, a: seq<Token>, b: seq<Token>, rest: seq<Token>)
    ensures Comes(s, st, a + b, rest) ==> Comes(s, st, a, b + rest) && rest != []
    ensures Comes(s, st, a, b + rest) && rest != [] ==> Comes(s, st, a + b, rest)
  {
    assert a + b + rest == a + (b + rest);
  }

  /** Behind a value, an optional comma is passed. */
  lemma CommaPassed(s: string, u: State, comma: bool, ts: seq<Token>, rest: seq<Token>)
    requires Comes(s, u, [], CommaTokens(comma) + ts + rest) && rest != []
    requires (ts + rest)[0] != JsonLexer.Comma
    ensures u.pos <= |s| && Comes(s, PastComma(s, u), ts, rest)
  {
    hide Lex, Ahead;
    assert CommaTokens(comma) + ts + rest == CommaTokens(comma) + (ts + rest);
    if comma {
      assert [] + ([JsonLexer.Comma] + (ts + rest)) == [JsonLexer.Comma] + ts + rest;
      Regrouped(s, u, [JsonLexer.Comma] + ts, [], rest);
      assert Comes(s, u, [JsonLexer.Comma] + ts, rest);
      Step(s, u, JsonLexer.Comma, ts, rest);
    } else {
      assert [] + ([] + (ts + rest)) == ts + rest;
      assert Comes(s, u, ts, rest);
      Now(s, u, ts, rest);
    }
  }

  lemma ValueStarts(v: Value)
    ensures ValueTokens(v) != [] && var t := ValueTokens(v)[0];
            t != RBracket && t != RBrace && t != Eof && t != JsonLexer.Comma && t != Colon && t != Error
  {
  }

  lemma Start(s: string, st: State, v: Value, rest: seq<Token>)
    requires Comes(s, st, ValueTokens(v), rest)
    ensures st.pos <= |s| && rest != [] && ValueTokens(v) != [] && st.tok == ValueTokens(v)[0]
  {
    hide Ahead, ValueTokens;
    ValueStarts(v);
    Now(s, st, ValueTokens(v), rest);
  }

  /** Skipping a value leads exactly to what comes behind it. */
  lemma {:induction false} SkipsValue(s: string, st: State, v: Value, rest: seq<Token>)
    requires Comes(s, st, ValueTokens(v), rest) && Shaped(v, rest == [Eof])
    ensures SkipValue(s, st).1 && Comes(s, SkipValue(s, st).0, [], rest)
    decreases v, 0
  {
    hide Lex, Ahead, Comes, SkipMembers, SkipElements, ItemTokens, FieldTokens;
    Start(s, st, v, rest);
    match v
    case VArray(items, closed) =>
      Step(s, st, LBracket, ItemTokens(items, closed), rest);
      SkipsItems(s, Next(s, st), items, closed, rest);
    case VObject(fields, closed) =>
      Step(s, st, LBrace, FieldTokens(fields, closed), rest);
      SkipsFields(s, Next(s, st), fields, closed, rest);
    case _ =>
      assert ValueTokens(v) == [ValueTokens(v)[0]] + [];
      Step(s, st, ValueTokens(v)[0], [], rest);
  }

  // ---------------------------------------------------------------- items

  /** Behind the value of the first item. */
  function ItemsBehind(items: seq<Item>, closed: bool): seq<Token>
    requires items != []
  {
    CommaTokens(items[0].comma) + ItemTokens(items[1..], closed)
  }

  lemma ItemsBegin(items: seq<Item>, closed: bool, rest: seq<Token>)
    requires rest != [] && (!closed ==> rest == [Eof])
    ensures var t := (ItemTokens(items, closed) + rest)[0]; t != JsonLexer.Comma && t != Colon && t != RBrace
    ensures items == [] ==> (ItemTokens(items, closed) + rest)[0] == if closed then RBracket else Eof
  {
    if items != [] { ValueStarts(items[0].value); }
  }

  lemma ItemComes(s: string, st: State, items: seq<Item>, closed: bool, rest: seq<Token>)
    requires items != [] && Comes(s, st, ItemTokens(items, closed), rest)
    ensures rest != [] && st.pos <= |s|
    ensures Comes(s, st, ValueTokens(items[0].value), ItemsBehind(items, closed) + rest)
    ensures ValueTokens(items[0].value) != [] && st.tok == ValueTokens(items[0].value)[0]
    ensures st.tok != RBracket && st.tok != Eof
  {
    hide Ahead, ValueTokens, Comes;
    var v := items[0].value;
    Regrouped(s, st, ValueTokens(v), ItemsBehind(items, closed), rest);
    Start(s, st, v, ItemsBehind(items, closed) + rest);
    ValueStarts(v);
  }

  /** The first item is broken off only if nothing but the end is behind it. */
  lemma ItemShaped(items: seq<Item>, closed: bool, rest: seq<Token>)
    requires items != [] && rest != [] && ItemsShaped(items, !closed) && (!closed ==> rest == [Eof])
    ensures Shaped(items[0].value, ItemsBehind(items, closed) + rest == [Eof]) && ItemsShaped(items[1..], !closed)
  {
    hide Shaped;
    var last := !closed && |items| == 1 && !items[0].comma;
    if last { assert items[1..] == [] && ItemsBehind(items, closed) + rest == [Eof]; }
    ShapedMore(items[0].value, last, ItemsBehind(items, closed) + rest == [Eof]);
  }

  lemma ShapedMore(v: Value, a: bool, b: bool)
    requires Shaped(v, a) && (a ==> b)
    ensures Shaped(v, b)
  {
  }

  /** After an item: past its comma, the other items. */
  lemma ItemPassed(s: string, u: State, items: seq<Item>, closed: bool, rest: seq<Token>)
    requires items != [] && Comes(s, u, [], ItemsBehind(items, closed) + rest) && rest != []
    requires !closed ==> rest == [Eof]
    ensures u.pos <= |s| && Comes(s, PastComma(s, u), ItemTokens(items[1..], closed), rest)
  {
    hide Lex, Ahead, ItemTokens, Comes, CommaTokens;
    ItemsBegin(items[1..], closed, rest);
    CommaPassed(s, u, items[0].comma, ItemTokens(items[1..], closed), rest);
  }

  lemma ItemsEnd(s: string, st: State, closed: bool, rest: seq<Token>)
    requires Comes(s, st, ItemTokens([], closed), rest) && (!closed ==> rest == [Eof])
    ensures st.pos <= |s| && rest != [] && st.tok == (if closed then RBracket else Eof)
    ensures Comes(s, if closed then Next(s, st) else st, [], rest)
  {
    hide Lex, Ahead;
    if closed {
      assert ItemTokens([], closed) == [RBracket] + [];
      Step(s, st, RBracket, [], rest);
    } else {
      Now(s, st, [], rest);
    }
  }

  lemma {:induction false} SkipsItems(s: string, st: State, items: seq<Item>, closed: bool, rest: seq<Token>)
    requires st.pos <= |s| && Comes(s, st, ItemTokens(items, closed), rest)
    requires ItemsShaped(items, !closed) && (!closed ==> rest == [Eof])
    ensures SkipElements(s, st).1 && Comes(s, SkipElements(s, st).0, [], rest)
    decreases items, 1
  {
    hide Lex, Ahead, Comes, SkipValue, ValueTokens, ItemTokens, ItemsBehind, Shaped, ItemsShaped;
    if items == [] {
      ItemsEnd(s, st, closed, rest);
    } else {
      ItemComes(s, st, items, closed, rest);
      ItemShaped(items, closed, rest);
      assert items[0] in items && items[0].value < items[0];
      SkipsValue(s, st, items[0].value, ItemsBehind(items, closed) + rest);
      var u := SkipValue(s, st).0;
      ItemPassed(s, u, items, closed, rest);
      SkipsItems(s, PastComma(s, u), items[1..], closed, rest);
    }
  }

  // ---------------------------------------------------------------- fields

  /** Behind the value of the first field. */
  function FieldsBehind(fields: seq<Field>, closed: bool): seq<Token>
    requires fields != []
  {
    CommaTokens(fields[0].comma) + FieldTokens(fields[1..], closed)
  }

  lemma FieldsBegin(fields: seq<Field>, closed: bool, rest: seq<Token>)
    requires rest != [] && (!closed ==> rest == [Eof])
    ensures (FieldTokens(fields, closed) + rest)[0] != JsonLexer.Comma
  {
  }

  lemma FieldsSplit(fields: seq<Field>, closed: bool)
    requires fields != []
    ensures FieldTokens(fields, closed) ==
            [Str(fields[0].name), Colon] + (ValueTokens(fields[0].value) + FieldsBehind(fields, closed))
  {
    hide ValueTokens, CommaTokens;
  }

  lemma Pair(a: Token, b: Token, c: seq<Token>)
    ensures [a, b] + c == [a] + ([b] + c)
  {
  }

  /** A field comes as its name, a colon and its value. */
  lemma FieldComes(s: string, st: State, fields: seq<Field>, closed: bool, rest: seq<Token>)
    requires fields != [] && Comes(s, st, FieldTokens(fields, closed), rest)
    ensures rest != [] && st.pos <= |s| && st.tok == Str(fields[0].name)
    ensures Next(s, st).pos <= |s| && Next(s, st).tok == Colon
    ensures var at := Next(s, Next(s, st));
      at.pos <= |s| && Comes(s, at, ValueTokens(fields[0].value), FieldsBehind(fields, closed) + rest)
  {
    hide Lex, Ahead, ValueTokens, Comes, FieldTokens, FieldsBehind;
    var f, b := fields[0], FieldsBehind(fields, closed);
    var v := ValueTokens(f.value);
    FieldsSplit(fields, closed);
    Pair(Str(f.name), Colon, v + b);
    Step(s, st, Str(f.name), [Colon] + (v + b), rest);
    Step(s, Next(s, st), Colon, v + b, rest);
    Regrouped(s, Next(s, Next(s, st)), v, b, rest);
  }

  lemma FieldShaped(fields: seq<Field>, closed: bool, rest: seq<Token>)
    requires fields != [] && rest != [] && FieldsShaped(fields, !closed) && (!closed ==> rest == [Eof])
    ensures Shaped(fields[0].value, FieldsBehind(fields, closed) + rest == [Eof]) && FieldsShaped(fields[1..], !closed)
  {
    hide Shaped;
    var last := !closed && |fields| == 1 && !fields[0].comma;
    if last { assert fields[1..] == [] && FieldsBehind(fields, closed) + rest == [Eof]; }
    ShapedMore(fields[0].value, last, FieldsBehind(fields, closed) + rest == [Eof]);
  }

  /** After the value of a field: past its comma, the other fields. */
  lemma FieldPassed(s: string, u: State, fields: seq<Field>, closed: bool, rest: seq<Token>)
    requires fields != [] && Comes(s, u, [], FieldsBehind(fields, closed) + rest) && rest != []
    requires !closed ==> rest == [Eof]
    ensures u.pos <= |s| && Comes(s, PastComma(s, u), FieldTokens(fields[1..], closed), rest)
  {
    hide Lex, Ahead, FieldTokens, Comes, CommaTokens;
    FieldsBegin(fields[1..], closed, rest);
    CommaPassed(s, u, fields[0].comma, FieldTokens(fields[1..], closed), rest);
  }

  lemma FieldsEnd(s: string, st: State, closed: bool, rest: seq<Token>)
    requires Comes(s, st, FieldTokens([], closed), rest) && (!closed ==> rest == [Eof])
    ensures st.pos <= |s| && rest != [] && st.tok == (if closed then RBrace else Eof)
    ensures Comes(s, if closed then Next(s, st) else st, [], rest)
  {
    hide Lex, Ahead;
    if closed {
      assert FieldTokens([], closed) == [RBrace] + [];
      Step(s, st, RBrace, [], rest);
    } else {
      Now(s, st, [], rest);
    }
  }

  lemma {:induction false} SkipsFields(s: string, st: State, fields: seq<Field>, closed: bool, rest: seq<Token>)
    requires st.pos <= |s| && Comes(s, st, FieldTokens(fields, closed), rest)
    requires FieldsShaped(fields, !closed) && (!closed ==> rest == [Eof])
    ensures SkipMembers(s, st).1 && Comes(s, SkipMembers(s, st).0, [], rest)
    decreases fields, 1
  {
    hide Lex, Ahead, Comes, SkipValue, ValueTokens, FieldTokens, FieldsBehind, Shaped, FieldsShaped;
    if fields == [] {
      FieldsEnd(s, st, closed, rest);
    } else {
      FieldComes(s, st, fields, closed, rest);
      FieldShaped(fields, closed, rest);
      assert fields[0] in fields && fields[0].value < fields[0];
      var at := Next(s, Next(s, st));
      SkipsValue(s, at, fields[0].value, FieldsBehind(fields, closed) + rest);
      var u := SkipValue(s, at).0;
      FieldPassed(s, u, fields, closed, rest);
      SkipsFields(s, PastComma(s, u), fields[1..], closed, rest);
    }
  }

  /** An object opens with a brace, behind which its fields come. */
  lemma ObjectComes(s: string, st: State, fields: seq<Field>, closed: bool, rest: seq<Token>)
    requires Comes(s, st, ValueTokens(VObject(fields, closed)), rest)
    ensures st.pos <= |s| && st.tok == LBrace && Usable(st) && rest != []
    ensures Next(s, st).pos <= |s| && Comes(s, Next(s, st), FieldTokens(fields, closed), rest)
  {
    hide Lex, Ahead, FieldTokens;
    Step(s, st, LBrace, FieldTokens(fields, closed), rest);
  }

  lemma ArrayComes(s: string, st: State, items: seq<Item>, closed: bool, rest: seq<Token>)
    requires Comes(s, st, ValueTokens(VArray(items, closed)), rest)
    ensures st.pos <= |s| && st.tok == LBracket && Usable(st) && rest != []
    ensures Next(s, st).pos <= |s| && Comes(s, Next(s, st), ItemTokens(items, closed), rest)
  {
    hide Lex, Ahead, ItemTokens;
    Step(s, st, LBracket, ItemTokens(items, closed), rest);
  }

  // ---------------------------------------------------------------- nothing else is skipped

  lemma AheadFirst(s: string, st: State)
    requires st.pos <= |s|
    ensures Ahead(s, st) != [] && Ahead(s, st)[0] == st.tok
    ensures Ahead(s, st) == [Eof] <==> st.tok == Eof
  {
  }

  /** What a token that is a value by itself stands for. */
  function Single(t: Token): Value {
    match t case Str(x) => VString(x) case Num(x) => VNumber(x) case True => VBool(true) case False => VBool(false)
            case _ => VNull
  }

  lemma SingleFound(s: string, st: State)
    requires st.pos <= |s| && (st.tok.Str? || st.tok.Num? || st.tok in {True, False, Null})
    ensures Ahead(s, st) == ValueTokens(Single(st.tok)) + Ahead(s, Next(s, st)) && forall b :: Shaped(Single(st.tok), b)
  {
    hide Lex, Ahead;
    AheadIs(s, st);
  }

  /** Whatever is skipped is a value. */
  lemma {:induction false} SkipFinds(s: string, st: State) returns (v: Value)
    requires st.pos <= |s| && SkipValue(s, st).1
    ensures Ahead(s, st) == ValueTokens(v) + Ahead(s, SkipValue(s, st).0)
    ensures Shaped(v, Ahead(s, SkipValue(s, st).0) == [Eof])
    decreases Measure(s, st), 0
  {
    hide Lex, Ahead, ItemTokens, FieldTokens, ItemsShaped, FieldsShaped, SkipMembers, SkipElements;
    AheadIs(s, st);
    if st.tok == LBracket {
      var items, closed := ItemsFind(s, Next(s, st));
      v := VArray(items, closed);
    } else if st.tok == LBrace {
      var fields, closed := FieldsFind(s, Next(s, st));
      v := VObject(fields, closed);
    } else {
      SingleFound(s, st);
      v := Single(st.tok);
    }
  }

  lemma {:induction false} ItemsFind(s: string, st: State) returns (items: seq<Item>, closed: bool)
    requires st.pos <= |s| && SkipElements(s, st).1
    ensures Ahead(s, st) == ItemTokens(items, closed) + Ahead(s, SkipElements(s, st).0)
    ensures ItemsShaped(items, !closed) && (!closed ==> Ahead(s, SkipElements(s, st).0) == [Eof])
    decreases Measure(s, st), 1
  {
    hide Lex, Ahead, SkipValue, ValueTokens, Shaped, ItemTokens, ItemsShaped;
    AheadIs(s, st);
    AheadFirst(s, st);
    AheadFirst(s, SkipElements(s, st).0);
    ItemsNone();
    if st.tok == RBracket {
      items, closed := [], true;
    } else if st.tok == Eof {
      items, closed := [], false;
    } else {
      var v := SkipFinds(s, st);
      var u := SkipValue(s, st).0;
      var more;
      more, closed := ItemsFind(s, PastComma(s, u));
      items := ItemFound(s, st, v, u, more, closed, Ahead(s, SkipElements(s, st).0));
    }
  }

  lemma ItemsNone()
    ensures ItemTokens([], true) == [RBracket] && ItemTokens([], false) == []
    ensures ItemsShaped([], true) && ItemsShaped([], false)
  {
  }

  /** An item found in front of others that were. */
  lemma ItemFound(s: string, st: State, v: Value, u: State, more: seq<Item>, closed: bool, rest: seq<Token>)
    returns (items: seq<Item>)
    requires st.pos <= |s| && u.pos <= |s|
    requires Ahead(s, st) == ValueTokens(v) + Ahead(s, u) && Shaped(v, Ahead(s, u) == [Eof])
    requires Ahead(s, PastComma(s, u)) == ItemTokens(more, closed) + rest && rest != []
    requires ItemsShaped(more, !closed) && (!closed ==> rest == [Eof])
    ensures items == [Item(v, u.tok == JsonLexer.Comma)] + more
    ensures Ahead(s, st) == ItemTokens(items, closed) + rest && ItemsShaped(items, !closed)
  {
    hide Lex, Ahead, ValueTokens, Shaped, PastComma;
    var x := Item(v, u.tok == JsonLexer.Comma);
    items := [x] + more;
    assert items[1..] == more;
    FoundBehind(s, u, ItemTokens(more, closed), rest);
    if Ahead(s, u) == [Eof] { ItemsStart(more, closed); }
    ShapedMore(v, Ahead(s, u) == [Eof], !closed && |items| == 1 && !x.comma);
    Joined(ValueTokens(v), CommaTokens(x.comma), ItemTokens(more, closed), rest);
  }

  /** What is ahead behind a value, in front of its comma and past it; at the end, nothing is. */
  lemma FoundBehind(s: string, u: State, ts: seq<Token>, rest: seq<Token>)
    requires u.pos <= |s| && Ahead(s, PastComma(s, u)) == ts + rest && rest != []
    ensures Ahead(s, u) == CommaTokens(u.tok == JsonLexer.Comma) + (ts + rest)
    ensures Ahead(s, u) == [Eof] ==> u.tok != JsonLexer.Comma && ts == []
  {
    hide Lex, Ahead;
    AheadIs(s, u);
    AheadFirst(s, u);
    if Ahead(s, u) == [Eof] { assert |ts + rest| == 1; }
  }

  lemma ItemsStart(items: seq<Item>, closed: bool)
    ensures ItemTokens(items, closed) == [] ==> items == [] && !closed
  {
    if items != [] { ValueStarts(items[0].value); }
  }

  lemma Joined(a: seq<Token>, b: seq<Token>, c: seq<Token>, d: seq<Token>)
    ensures a + (b + (c + d)) == a + (b + c) + d
  {
  }

  lemma {:induction false} FieldsFind(s: string, st: State) returns (fields: seq<Field>, closed: bool)
    requires st.pos <= |s| && SkipMembers(s, st).1
    ensures Ahead(s, st) == FieldTokens(fields, closed) + Ahead(s, SkipMembers(s, st).0)
    ensures FieldsShaped(fields, !closed) && (!closed ==> Ahead(s, SkipMembers(s, st).0) == [Eof])
    decreases Measure(s, st), 1
  {
    hide Lex, Ahead, SkipValue, ValueTokens, Shaped, FieldTokens, FieldsShaped;
    AheadIs(s, st);
    AheadFirst(s, st);
    AheadFirst(s, SkipMembers(s, st).0);
    FieldsNone();
    if st.tok == RBrace {
      fields, closed := [], true;
    } else if st.tok == Eof {
      fields, closed := [], false;
    } else {
      var colon := Next(s, st);
      var at := Next(s, colon);
      AheadIs(s, colon);
      var v := SkipFinds(s, at);
      var u := SkipValue(s, at).0;
      var more;
      more, closed := FieldsFind(s, PastComma(s, u));
      fields := FieldFound(s, st, v, u, more, closed, Ahead(s, SkipMembers(s, st).0));
    }
  }

  lemma FieldsNone()
    ensures FieldTokens([], true) == [RBrace] && FieldTokens([], false) == []
    ensures FieldsShaped([], true) && FieldsShaped([], false)
  {
  }

  /** A field found in front of others that were. */
  lemma FieldFound(s: string, st: State, v: Value, u: State, more: seq<Field>, closed: bool, rest: seq<Token>)
    returns (fields: seq<Field>)
    requires st.pos <= |s| && u.pos <= |s| && st.tok.Str? && Next(s, st).tok == Colon
    requires Ahead(s, Next(s, Next(s, st))) == ValueTokens(v) + Ahead(s, u) && Shaped(v, Ahead(s, u) == [Eof])
    requires Ahead(s, PastComma(s, u)) == FieldTokens(more, closed) + rest && rest != []
    requires FieldsShaped(more, !closed) && (!closed ==> rest == [Eof])
    ensures fields == [Field(st.tok.text, v, u.tok == JsonLexer.Comma)] + more
    ensures Ahead(s, st) == FieldTokens(fields, closed) + rest && FieldsShaped(fields, !closed)
  {
    hide Lex, Ahead, ValueTokens, Shaped, PastComma;
    var x := Field(st.tok.text, v, u.tok == JsonLexer.Comma);
    fields := [x] + more;
    assert fields[1..] == more;
    FoundBehind(s, u, FieldTokens(more, closed), rest);
    if Ahead(s, u) == [Eof] { FieldsStart(more, closed); }
    ShapedMore(v, Ahead(s, u) == [Eof], !closed && |fields| == 1 && !x.comma);
    NameFound(s, st, ValueTokens(v) + Ahead(s, u));
    Joined(ValueTokens(v), CommaTokens(x.comma), FieldTokens(more, closed), rest);
    Joined([Str(x.name), Colon], ValueTokens(v), CommaTokens(x.comma) + FieldTokens(more, closed), rest);
  }

  lemma NameFound(s: string, st: State, after: seq<Token>)
    requires st.pos <= |s| && st.tok.Str? && Next(s, st).tok == Colon && Ahead(s, Next(s, Next(s, st))) == after
    ensures Ahead(s, st) == [Str(st.tok.text), Colon] + after
  {
    hide Lex, Ahead;
    AheadIs(s, st);
    AheadIs(s, Next(s, st));
  }

  lemma FieldsStart(fields: seq<Field>, closed: bool)
    ensures FieldTokens(fields, closed) == [] ==> fields == [] && !closed
  {
  }

  /** json_skip_value succeeds exactly on values, commas optional and what the text breaks off included. */
  lemma SkipsExactly(s: string, st: State)
    requires st.pos <= |s|
    ensures SkipValue(s, st).1 <==>
            exists v, rest :: Comes(s, st, ValueTokens(v), rest) && Shaped(v, rest == [Eof])
  {
    hide Lex, Ahead, SkipValue, ValueTokens, Shaped;
    if SkipValue(s, st).1 {
      var v := SkipFinds(s, st);
      AheadFirst(s, SkipValue(s, st).0);
      assert Comes(s, st, ValueTokens(v), Ahead(s, SkipValue(s, st).0));
    }
    if v, rest :| Comes(s, st, ValueTokens(v), rest) && Shaped(v, rest == [Eof]) {
      SkipsValue(s, st, v, rest);
    }
  }

  // ---------------------------------------------------------------- fields by name

  /** A C string compares equal to a name if it is the name, or goes on behind it with a NUL. */
  predicate Named(f: Field, name: string) {
    name <= f.name && (|f.name| == |name| || f.name[|name|] == NUL)
  }

  lemma NamedIs(f: Field, name: string, max: nat)
    requires CString(name) && |name| < max
    ensures Copied(f.name, max) == name <==> Named(f, name)
  {
    CopiedIs(f.name, max);
    var c := Copied(f.name, max);
    assert forall i :: 0 <= i < |c| ==> f.name[i] == c[i] && c[i] in c;
    if Named(f, name) {
      assert forall i :: 0 <= i < |name| ==> f.name[i] == name[i] && name[i] in name;
      assert |c| == |name|;
    }
  }

  /** The value of the last field with a name. */
  function LastNamed(fields: seq<Field>, name: string): (r: Option<Value>)
    ensures r.Some? ==> exists i :: 0 <= i < |fields| && Named(fields[i], name) && fields[i].value == r.value
                                    && forall j :: i < j < |fields| ==> !Named(fields[j], name)
    ensures r.None? ==> forall i :: 0 <= i < |fields| ==> !Named(fields[i], name)
  {
    if fields == [] then None
    else
      var f := fields[|fields| - 1];
      if Named(f, name) then Some(f.value) else LastNamed(fields[..|fields| - 1], name)
  }
}
