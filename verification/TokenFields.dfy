/** The tokens of a detokenize request, on every JSON text. */
module TokenFields {
  import C = Completion
  import opened ChatFields
  import opened Detokenize
  import opened Format
  import opened JsonLexer
  import opened JsonLiterals
  import opened JsonSpaces
  import opened JsonValues
  import opened Options
  import opened RequestFields

  predicate AllNumbers(items: seq<Item>) {
    forall x :: x in items ==> x.value.VNumber?
  }

  /** The numbers of an array without what is behind their points. */
  function Whole(items: seq<Item>): seq<int> {
    seq(|items|, i requires 0 <= i < |items| => if items[i].value.VNumber? then Truncated(items[i].value.x) else 0)
  }

  /** The field is called tokens and holds something else than an array of numbers. */
  predicate TokensMalformed(f: Field) {
    Named(f, "tokens") && !(f.value.VArray? && AllNumbers(f.value.items))
  }

  function FieldNumbers(f: Field): seq<int> {
    if Named(f, "tokens") && f.value.VArray? then Whole(f.value.items) else []
  }

  /** The numbers of all fields called tokens, one after the other. */
  function AllTokens(fields: seq<Field>): seq<int> {
    if fields == [] then [] else FieldNumbers(fields[0]) + AllTokens(fields[1..])
  }

  lemma WholeFirst(toks: seq<int>, items: seq<Item>)
    ensures items == [] ==> toks + Whole(items) == toks
    ensures items != [] && items[0].value.VNumber? ==>
              toks + Whole(items) == toks + [Truncated(items[0].value.x)] + Whole(items[1..])
  {
    hide Truncated;
    assert items != [] && items[0].value.VNumber? ==> Whole(items) == [Truncated(items[0].value.x)] + Whole(items[1..]);
  }

  lemma {:induction false} NumbersFill(s: string, st: State, items: seq<Item>, closed: bool, rest: seq<Token>,
                                       toks: seq<int>)
    requires Comes(s, st, ItemTokens(items, closed), rest) && st.pos <= |s| && |toks| <= MAX_TOKENS
    requires !closed ==> rest == [Eof]
    ensures var v := TokenList(s, st, toks);
      if AllNumbers(items) && |toks| + |items| <= 2048 then
        v.Some? && v.value.1 == toks + Whole(items) && v.value.0.tok == (if closed then RBracket else Eof)
        && Comes(s, if closed then Next(s, v.value.0) else v.value.0, [], rest)
      else v == None || StuckAt(s, v.value.0)
    decreases |items|
  {
    hide Lex, Ahead, Comes, Whole, ItemTokens, StuckAt, PastComma, Truncated, ItemsBehind;
    WholeFirst(toks, items);
    if items == [] {
      ItemsEnd(s, st, closed, rest);
      ListEnd(s, st, toks);
    } else {
      ItemComes(s, st, items, closed, rest);
      if |toks| == MAX_TOKENS {
        ItemStuck(s, st, items, closed, rest);
        ListEnd(s, st, toks);
      } else {
        var v := items[0].value;
        FirstTokenIs(v);
        ListStep(s, st, toks);
        assert items == [items[0]] + items[1..];
        if v.VNumber? {
          SingleComes(s, st, v, ItemsBehind(items, closed) + rest);
          ItemPassed(s, Next(s, st), items, closed, rest);
          NumbersFill(s, PastComma(s, Next(s, st)), items[1..], closed, rest, toks + [Truncated(v.x)]);
        }
      }
    }
  }

  lemma NumberArray(s: string, st: State, v: Value, rest: seq<Token>, toks: seq<int>)
    requires Comes(s, st, ValueTokens(v), rest) && st.pos <= |s| && |toks| <= MAX_TOKENS && Shaped(v, rest == [Eof])
    ensures var r := TokenValue(s, st, toks);
      if v.VArray? && AllNumbers(v.items) && |toks| + |v.items| <= 2048 then
        r.Some? && r.value.1 == toks + Whole(v.items) && Comes(s, r.value.0, [], rest)
      else r == None || StuckAt(s, r.value.0)
  {
    hide Lex, Ahead, Comes, AllNumbers, Whole, ItemTokens, TokenList, StuckAt, ItemsShaped;
    Start(s, st, v, rest);
    FirstIsBrace(v);
    if v.VArray? {
      ArrayComes(s, st, v.items, v.closed, rest);
      NumbersFill(s, Next(s, st), v.items, v.closed, rest, toks);
      var r := TokenList(s, Next(s, st), toks);
      if r.Some? && StuckAt(s, r.value.0) { StuckFails(s, r.value.0, []); }
    }
  }

  predicate TokensFit(f: Field, n: nat) { n + |FieldNumbers(f)| <= 2048 }

  lemma TokensKey(f: Field)
    ensures Copied(f.name, C.KEY_MAX) == NAME <==> Named(f, "tokens")
  {
    hide Copied, Named;
    assert CString("tokens");
    NamedIs(f, "tokens", C.KEY_MAX);
  }

  lemma TokensFieldReads(s: string, st: State, fields: seq<Field>, closed: bool, rest: seq<Token>, toks: seq<int>)
    requires fields != [] && Comes(s, st, FieldTokens(fields, closed), rest) && st.pos <= |s|
    requires FieldsShaped(fields, !closed) && (!closed ==> rest == [Eof]) && |toks| <= MAX_TOKENS
    ensures var v := Round(s, st, toks);
      if !TokensMalformed(fields[0]) && TokensFit(fields[0], |toks|) then
        v.Some? && v.value.1 == toks + FieldNumbers(fields[0])
        && Comes(s, v.value.0, FieldTokens(fields[1..], closed), rest)
      else v == None || StuckAt(s, v.value.0)
  {
    hide Lex, Ahead, Comes, FieldTokens, ValueTokens, FieldsBehind, Copied, SkipValue, StuckAt, Named, TokenValue;
    hide AllNumbers, Shaped, FieldsShaped;
    var f, behind := fields[0], FieldsBehind(fields, closed) + rest;
    var at := Next(s, Next(s, st));
    FieldComes(s, st, fields, closed, rest);
    FieldShaped(fields, closed, rest);
    TokensKey(f);
    if Named(f, "tokens") {
      NumberArray(s, at, f.value, behind, toks);
      var r := TokenValue(s, at, toks);
      if !TokensMalformed(f) && TokensFit(f, |toks|) {
        FieldPassed(s, r.value.0, fields, closed, rest);
      } else if r.Some? {
        StuckFails(s, r.value.0, []);
      }
    } else {
      SkipsValue(s, at, f.value, behind);
      FieldPassed(s, SkipValue(s, at).0, fields, closed, rest);
      assert toks + [] == toks;
    }
  }

  lemma {:induction false} TokenFieldsFill(s: string, st: State, fields: seq<Field>, closed: bool, rest: seq<Token>,
                                           toks: seq<int>)
    requires Comes(s, st, FieldTokens(fields, closed), rest) && st.pos <= |s|
    requires FieldsShaped(fields, !closed) && (!closed ==> rest == [Eof]) && |toks| <= MAX_TOKENS
    ensures Rounds(s, st, toks) == if NoTokensMalformed(fields) && |toks| + |AllTokens(fields)| <= 2048
                                   then Some(toks + AllTokens(fields)) else None
    decreases |fields|
  {
    hide Lex, Ahead, Comes, TokensMalformed, FieldTokens, Round, StuckAt, FieldNumbers, FieldsShaped;
    AllTokensFirst(toks, fields);
    if fields == [] {
      FieldsEnd(s, st, closed, rest);
    } else {
      FieldComes(s, st, fields, closed, rest);
      FieldShaped(fields, closed, rest);
      TokensFieldReads(s, st, fields, closed, rest, toks);
      assert fields == [fields[0]] + fields[1..];
      var v := Round(s, st, toks);
      if !TokensMalformed(fields[0]) && TokensFit(fields[0], |toks|) {
        TokenFieldsFill(s, v.value.0, fields[1..], closed, rest, v.value.1);
      } else if v.Some? {
        StuckFails(s, v.value.0, v.value.1);
      }
    }
  }

  predicate NoTokensMalformed(fields: seq<Field>) {
    forall f :: f in fields ==> !TokensMalformed(f)
  }

  lemma AllTokensFirst(toks: seq<int>, fields: seq<Field>)
    ensures fields == [] ==> toks + AllTokens(fields) == toks
    ensures fields != [] ==> toks + AllTokens(fields) == toks + FieldNumbers(fields[0]) + AllTokens(fields[1..])
  {
    hide FieldNumbers;
  }

  /** A detokenize request in any JSON text, whatever stands behind it: it is rejected exactly if some field called
      tokens is no array of numbers or there are more than 2048 numbers in all; otherwise they are all taken, in
      order. */
  lemma TokenFieldsMeant(s: string, fields: seq<Field>, closed: bool, rest: seq<Token>)
    requires HasObject(s, fields, closed, rest)
    ensures ParsedTokens(s) ==
            if (exists f :: f in fields && TokensMalformed(f)) || |AllTokens(fields)| > 2048 then None
            else Some(AllTokens(fields))
  {
    hide Lex, Ahead, Comes, Rounds, FieldTokens, FieldsShaped, HasObject, TokensMalformed, AllTokens;
    ObjectOpens(s, fields, closed, rest);
    TokenFieldsFill(s, Next(s, Lex(s, 0)), fields, closed, rest, []);
    assert [] + AllTokens(fields) == AllTokens(fields);
  }
}
