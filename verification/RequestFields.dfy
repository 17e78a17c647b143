/** Which field of a request each name fills, on every JSON text: completion requests. */
module RequestFields {
  import opened Completion
  import opened Format
  import opened JsonLexer
  import opened JsonLiterals
  import opened JsonSpaces
  import opened JsonValues
  import opened Options

  // ---------------------------------------------------------------- the last value of a name

  lemma LastNamedFirst(fields: seq<Field>, name: string)
    requires fields != []
    ensures LastNamed(fields, name) ==
            if LastNamed(fields[1..], name).Some? then LastNamed(fields[1..], name)
            else if Named(fields[0], name) then Some(fields[0].value) else None
    decreases |fields|
  {
    hide Named;
    var n := |fields| - 1;
    if n == 0 {
      assert fields[1..] == [] && fields[..0] == [];
    } else {
      LastNamedFirst(fields[..n], name);
      assert fields[..n][1..] == fields[1..][..n - 1] && fields[1..][n - 1] == fields[n];
    }
  }

  lemma LastIsField(fields: seq<Field>, name: string)
    requires fields != []
    ensures LastNamed(fields[1..], name).Some? ==>
              exists f :: f in fields && Named(f, name) && f.value == LastNamed(fields[1..], name).value
  {
    if LastNamed(fields[1..], name).Some? {
      var i :| 0 <= i < |fields| - 1 && Named(fields[1..][i], name)
               && fields[1..][i].value == LastNamed(fields[1..], name).value;
      assert fields[i + 1] in fields;
    }
  }

  lemma LastNamedOne(f: Field, name: string)
    ensures LastNamed([f], name) == if Named(f, name) then Some(f.value) else None
  {
    assert [f][..0] == [];
  }

  /** The string that the last field of a name holds, up to its first NUL and cut to max characters; `otherwise` if
      there is none. */
  function TextNamed(fields: seq<Field>, name: string, max: nat, otherwise: string): string {
    match LastNamed(fields, name)
    case Some(VString(t)) => Copied(t, max)
    case _ => otherwise
  }

  function NumberNamed(fields: seq<Field>, name: string, otherwise: real): real {
    match LastNamed(fields, name)
    case Some(VNumber(x)) => x
    case _ => otherwise
  }

  /** The number without what is behind its point. */
  function IntNamed(fields: seq<Field>, name: string, otherwise: int): int {
    match LastNamed(fields, name)
    case Some(VNumber(x)) => Truncated(x)
    case _ => otherwise
  }

  function BoolNamed(fields: seq<Field>, name: string, otherwise: bool): bool {
    match LastNamed(fields, name)
    case Some(VBool(b)) => b
    case _ => otherwise
  }

  /** Numbers below 0 or above 512 count as 512; the value before is no number of the request. */
  function LimitNamed(fields: seq<Field>, name: string, otherwise: int): int {
    match LastNamed(fields, name)
    case Some(VNumber(x)) => if 0 <= Truncated(x) <= 512 then Truncated(x) else 512
    case _ => otherwise
  }

  predicate NotString(f: Field, name: string) { Named(f, name) && !f.value.VString? }
  predicate NotNumber(f: Field, name: string) { Named(f, name) && !f.value.VNumber? }
  predicate NotBool(f: Field, name: string) { Named(f, name) && !f.value.VBool? }

  lemma TextFirst(fields: seq<Field>, name: string, max: nat, otherwise: string)
    requires fields != [] && forall f :: f in fields ==> !NotString(f, name)
    ensures TextNamed(fields, name, max, otherwise) ==
            TextNamed(fields[1..], name, max, TextNamed([fields[0]], name, max, otherwise))
  {
    hide Named;
    LastNamedFirst(fields, name);
    LastNamedOne(fields[0], name);
    LastIsField(fields, name);
  }

  lemma NumberFirst(fields: seq<Field>, name: string, x: real, i: int)
    requires fields != [] && forall f :: f in fields ==> !NotNumber(f, name)
    ensures NumberNamed(fields, name, x) == NumberNamed(fields[1..], name, NumberNamed([fields[0]], name, x))
    ensures IntNamed(fields, name, i) == IntNamed(fields[1..], name, IntNamed([fields[0]], name, i))
    ensures LimitNamed(fields, name, i) == LimitNamed(fields[1..], name, LimitNamed([fields[0]], name, i))
  {
    hide Named;
    LastNamedFirst(fields, name);
    LastNamedOne(fields[0], name);
    LastIsField(fields, name);
  }

  lemma BoolFirst(fields: seq<Field>, name: string, b: bool)
    requires fields != [] && forall f :: f in fields ==> !NotBool(f, name)
    ensures BoolNamed(fields, name, b) == BoolNamed(fields[1..], name, BoolNamed([fields[0]], name, b))
  {
    hide Named;
    LastNamedFirst(fields, name);
    LastNamedOne(fields[0], name);
    LastIsField(fields, name);
  }

  // ---------------------------------------------------------------- completion requests

  /** The field has one of the names and a value of another type. */
  predicate Malformed(f: Field) {
    || NotString(f, "prompt") || NotString(f, "model")
    || NotNumber(f, "max_tokens") || NotNumber(f, "temperature") || NotNumber(f, "top_p") || NotNumber(f, "top_k")
    || NotNumber(f, "frequency_penalty") || NotNumber(f, "presence_penalty")
    || NotBool(f, "stream") || NotNumber(f, "seed") || NotBool(f, "echo") || NotNumber(f, "n")
  }

  /** r with the fields of an object filled in. */
  function Filled(fields: seq<Field>, r: Request): Request {
    Request(
      TextNamed(fields, "prompt", 4095, r.prompt), TextNamed(fields, "model", 63, r.model),
      LimitNamed(fields, "max_tokens", r.maxTokens),
      NumberNamed(fields, "temperature", r.temperature), NumberNamed(fields, "top_p", r.topP),
      IntNamed(fields, "top_k", r.topK),
      NumberNamed(fields, "frequency_penalty", r.frequencyPenalty),
      NumberNamed(fields, "presence_penalty", r.presencePenalty),
      BoolNamed(fields, "stream", r.stream), IntNamed(fields, "seed", r.seed), BoolNamed(fields, "echo", r.echo),
      IntNamed(fields, "n", r.n))
  }

  predicate NoneMalformed(fields: seq<Field>) {
    forall f :: f in fields ==> !Malformed(f)
  }

  lemma FilledFirst(fields: seq<Field>, r: Request)
    requires fields != [] && NoneMalformed(fields)
    ensures Filled(fields, r) == Filled(fields[1..], Filled([fields[0]], r))
  {
    hide LastNamed, TextNamed, NumberNamed, IntNamed, BoolNamed, LimitNamed, NotString, NotNumber, NotBool;
    TextFirst(fields, "prompt", 4095, r.prompt);
    TextFirst(fields, "model", 63, r.model);
    NumberFirst(fields, "max_tokens", 0.0, r.maxTokens);
    NumberFirst(fields, "temperature", r.temperature, 0);
    NumberFirst(fields, "top_p", r.topP, 0);
    NumberFirst(fields, "top_k", 0.0, r.topK);
    NumberFirst(fields, "frequency_penalty", r.frequencyPenalty, 0);
    NumberFirst(fields, "presence_penalty", r.presencePenalty, 0);
    BoolFirst(fields, "stream", r.stream);
    NumberFirst(fields, "seed", 0.0, r.seed);
    BoolFirst(fields, "echo", r.echo);
    NumberFirst(fields, "n", 0.0, r.n);
  }

  /** The same for a single field. */
  function FilledOne(f: Field, r: Request): Request {
    var text := if f.value.VString? then f.value.text else "";
    var x := if f.value.VNumber? then f.value.x else 0.0;
    var i := Truncated(x);
    var s, n, b := f.value.VString?, f.value.VNumber?, f.value.VBool?;
    var yes := b && f.value.b;
    Request(
      if s && Named(f, "prompt") then Copied(text, 4095) else r.prompt,
      if s && Named(f, "model") then Copied(text, 63) else r.model,
      if n && Named(f, "max_tokens") then if 0 <= i <= 512 then i else 512 else r.maxTokens,
      if n && Named(f, "temperature") then x else r.temperature,
      if n && Named(f, "top_p") then x else r.topP,
      if n && Named(f, "top_k") then i else r.topK,
      if n && Named(f, "frequency_penalty") then x else r.frequencyPenalty,
      if n && Named(f, "presence_penalty") then x else r.presencePenalty,
      if b && Named(f, "stream") then yes else r.stream,
      if n && Named(f, "seed") then i else r.seed,
      if b && Named(f, "echo") then yes else r.echo,
      if n && Named(f, "n") then i else r.n)
  }

  lemma TextOne(f: Field, name: string, max: nat, otherwise: string)
    ensures TextNamed([f], name, max, otherwise) ==
            if f.value.VString? && Named(f, name) then Copied(f.value.text, max) else otherwise
  {
    hide Named, LastNamed, Copied;
    LastNamedOne(f, name);
  }

  lemma NumberOne(f: Field, name: string, x: real, i: int)
    ensures var given := f.value.VNumber? && Named(f, name);
      && NumberNamed([f], name, x) == (if given then f.value.x else x)
      && IntNamed([f], name, i) == (if given then Truncated(f.value.x) else i)
      && LimitNamed([f], name, i) ==
         if given then if 0 <= Truncated(f.value.x) <= 512 then Truncated(f.value.x) else 512 else i
  {
    hide Named, LastNamed, Truncated;
    LastNamedOne(f, name);
  }

  lemma BoolOne(f: Field, name: string, b: bool)
    ensures BoolNamed([f], name, b) == if f.value.VBool? && Named(f, name) then f.value.b else b
  {
    hide Named, LastNamed;
    LastNamedOne(f, name);
  }

  lemma FilledIs(f: Field, r: Request)
    ensures Filled([f], r) == FilledOne(f, r)
  {
    hide Named, LastNamed, Copied, Truncated, TextNamed, NumberNamed, IntNamed, BoolNamed, LimitNamed;
    TextOne(f, "prompt", 4095, r.prompt);
    TextOne(f, "model", 63, r.model);
    NumberOne(f, "max_tokens", 0.0, r.maxTokens);
    NumberOne(f, "temperature", r.temperature, 0);
    NumberOne(f, "top_p", r.topP, 0);
    NumberOne(f, "top_k", 0.0, r.topK);
    NumberOne(f, "frequency_penalty", r.frequencyPenalty, 0);
    NumberOne(f, "presence_penalty", r.presencePenalty, 0);
    BoolOne(f, "stream", r.stream);
    NumberOne(f, "seed", 0.0, r.seed);
    BoolOne(f, "echo", r.echo);
    NumberOne(f, "n", 0.0, r.n);
  }

  /** The key that the parser compares is the name, for every name it knows. */
  predicate NamesAre(f: Field, key: string) {
    && (Named(f, "prompt") <==> key == "prompt") && (Named(f, "model") <==> key == "model")
    && (Named(f, "max_tokens") <==> key == "max_tokens") && (Named(f, "temperature") <==> key == "temperature")
    && (Named(f, "top_p") <==> key == "top_p") && (Named(f, "top_k") <==> key == "top_k")
    && (Named(f, "frequency_penalty") <==> key == "frequency_penalty")
    && (Named(f, "presence_penalty") <==> key == "presence_penalty")
    && (Named(f, "stream") <==> key == "stream") && (Named(f, "seed") <==> key == "seed")
    && (Named(f, "echo") <==> key == "echo") && (Named(f, "n") <==> key == "n")
  }

  lemma KeyNames(f: Field, name: string)
    requires name in FIELDS
    ensures Named(f, name) <==> Copied(f.name, KEY_MAX) == name
  {
    hide Copied, Named;
    KnownShort(name);
    NamedIs(f, name, KEY_MAX);
  }

  lemma KeyNamed(f: Field)
    ensures NamesAre(f, Copied(f.name, KEY_MAX))
  {
    hide Copied, Named;
    KeyNames(f, "prompt"); KeyNames(f, "model"); KeyNames(f, "max_tokens"); KeyNames(f, "temperature");
    KeyNames(f, "top_p"); KeyNames(f, "top_k"); KeyNames(f, "frequency_penalty"); KeyNames(f, "presence_penalty");
    KeyNames(f, "stream"); KeyNames(f, "seed"); KeyNames(f, "echo"); KeyNames(f, "n");
  }

  /** What a field does to the request. */
  lemma Assigns(f: Field, r: Request)
    ensures ValueTokens(f.value) != []
    ensures var key := Copied(f.name, KEY_MAX);
      && (Known(key) ==>
            Assigned(r, key, ValueTokens(f.value)[0]) == if Malformed(f) then None else Some(Filled([f], r)))
      && (!Known(key) ==> !Malformed(f) && Filled([f], r) == r)
  {
    hide Copied, Named, Assigned, Malformed, Filled, NamesAre, FilledOne, FIELDS;
    var key := Copied(f.name, KEY_MAX);
    KeyNamed(f);
    FilledIs(f, r);
    FirstTokenIs(f.value);
    if Known(key) { AssignsKnown(f, r, key); } else { AssignsNone(f, r, key); }
  }

  lemma AssignsKnown(f: Field, r: Request, key: string)
    requires NamesAre(f, key) && Known(key) && ValueTokens(f.value) != []
    ensures Assigned(r, key, ValueTokens(f.value)[0]) == if Malformed(f) then None else Some(FilledOne(f, r))
  {
    hide Copied, Named, Truncated;
    FirstTokenIs(f.value);
  }

  lemma AssignsNone(f: Field, r: Request, key: string)
    requires NamesAre(f, key) && !Known(key)
    ensures !Malformed(f) && FilledOne(f, r) == r
  {
    hide Copied, Named, Truncated;
  }

  lemma FirstTokenIs(v: Value)
    ensures ValueTokens(v) != []
    ensures var t := ValueTokens(v)[0];
      && (t.Str? <==> v.VString?) && (v.VString? ==> t.text == v.text)
      && (t.Num? <==> v.VNumber?) && (v.VNumber? ==> t.value == v.x)
      && (t == True || t == False <==> v.VBool?) && (v.VBool? ==> ((t == True) == v.b))
  {
  }

  /** One field of an object, read by the parser. */
  lemma FieldReads(s: string, st: State, fields: seq<Field>, closed: bool, rest: seq<Token>, r: Request)
    requires fields != [] && Comes(s, st, FieldTokens(fields, closed), rest) && st.pos <= |s|
    requires FieldsShaped(fields, !closed) && (!closed ==> rest == [Eof])
    ensures var v := OneMember(s, st, r);
      if Malformed(fields[0]) then v == None
      else v.Some? && v.value.1 == Filled([fields[0]], r)
           && Comes(s, v.value.0, FieldTokens(fields[1..], closed), rest)
  {
    hide Lex, Ahead, Comes, Known, Assigned, Malformed, Filled, FieldTokens, ValueTokens, FieldsBehind, Copied;
    hide SkipValue, Shaped, FieldsShaped;
    var f, behind := fields[0], FieldsBehind(fields, closed) + rest;
    var key := Copied(f.name, KEY_MAX);
    var at := Next(s, Next(s, st));
    FieldComes(s, st, fields, closed, rest);
    FieldShaped(fields, closed, rest);
    Assigns(f, r);
    Start(s, at, f.value, behind);
    if !Known(key) {
      SkipsValue(s, at, f.value, behind);
      FieldPassed(s, SkipValue(s, at).0, fields, closed, rest);
    } else if !Malformed(f) {
      AssignedType(r, key, ValueTokens(f.value)[0]);
      SingleComes(s, at, f.value, behind);
      FieldPassed(s, Next(s, at), fields, closed, rest);
    }
  }

  /** A value of one token is passed by using it up. */
  lemma SingleComes(s: string, st: State, v: Value, rest: seq<Token>)
    requires Comes(s, st, ValueTokens(v), rest) && st.pos <= |s| && ValueTokens(v) != []
    requires var t := ValueTokens(v)[0]; t.Str? || t.Num? || t == True || t == False
    ensures Comes(s, Next(s, st), [], rest)
  {
    hide Lex, Ahead;
    assert ValueTokens(v) == [ValueTokens(v)[0]] + [];
    JsonValues.Step(s, st, ValueTokens(v)[0], [], rest);
  }

  lemma {:induction false} FieldsFill(s: string, st: State, fields: seq<Field>, closed: bool, rest: seq<Token>,
                                      r: Request)
    requires Comes(s, st, FieldTokens(fields, closed), rest) && st.pos <= |s|
    requires FieldsShaped(fields, !closed) && (!closed ==> rest == [Eof])
    ensures Members(s, st, r) == if NoneMalformed(fields) then Some(Filled(fields, r)) else None
    decreases |fields|
  {
    hide Lex, Ahead, Comes, Malformed, Filled, FieldTokens, OneMember, FieldsShaped;
    if fields == [] {
      FieldsEnd(s, st, closed, rest);
      NothingFilled(r);
    } else {
      FieldComes(s, st, fields, closed, rest);
      FieldReads(s, st, fields, closed, rest, r);
      FieldShaped(fields, closed, rest);
      assert fields == [fields[0]] + fields[1..];
      if !Malformed(fields[0]) {
        FieldsFill(s, OneMember(s, st, r).value.0, fields[1..], closed, rest, Filled([fields[0]], r));
        if NoneMalformed(fields[1..]) { FilledFirst(fields, r); }
      }
    }
  }

  lemma NothingFilled(r: Request)
    ensures Filled([], r) == r && NoneMalformed([])
  {
  }

  /** A text that begins with an object, whatever stands behind it. */
  predicate HasObject(s: string, fields: seq<Field>, closed: bool, rest: seq<Token>) {
    Comes(s, Lex(s, 0), ValueTokens(VObject(fields, closed)), rest) && Shaped(VObject(fields, closed), rest == [Eof])
  }

  lemma ObjectOpens(s: string, fields: seq<Field>, closed: bool, rest: seq<Token>)
    requires HasObject(s, fields, closed, rest)
    ensures Lex(s, 0).tok == LBrace && Next(s, Lex(s, 0)).pos <= |s|
    ensures Comes(s, Next(s, Lex(s, 0)), FieldTokens(fields, closed), rest)
    ensures FieldsShaped(fields, !closed) && (!closed ==> rest == [Eof])
  {
    hide Lex, Ahead, Comes, FieldTokens, FieldsShaped;
    ObjectComes(s, Lex(s, 0), fields, closed, rest);
  }

  /** A completion request in any JSON text, whatever stands behind it: it is rejected exactly if some field with one of
      the names has a value of the wrong type; otherwise each field is the last value given for it, or its default. */
  lemma CompletionFields(s: string, fields: seq<Field>, closed: bool, rest: seq<Token>)
    requires HasObject(s, fields, closed, rest)
    ensures Parsed(s) == None <==> exists f :: f in fields && Malformed(f)
    ensures Parsed(s).Some? ==>
              var r := Parsed(s).value;
              && r.prompt == TextNamed(fields, "prompt", 4095, "") && r.model == TextNamed(fields, "model", 63, "")
              && r.maxTokens == LimitNamed(fields, "max_tokens", 64)
              && r.temperature == NumberNamed(fields, "temperature", 0.8)
              && r.topP == NumberNamed(fields, "top_p", 0.95)
              && r.topK == IntNamed(fields, "top_k", 40)
              && r.frequencyPenalty == NumberNamed(fields, "frequency_penalty", 0.0)
              && r.presencePenalty == NumberNamed(fields, "presence_penalty", 0.0)
              && r.stream == BoolNamed(fields, "stream", false) && r.seed == IntNamed(fields, "seed", -1)
              && r.echo == BoolNamed(fields, "echo", false) && r.n == IntNamed(fields, "n", 1)
  {
    hide Lex, Ahead, Comes, Members, FieldTokens, FieldsShaped, HasObject, Malformed;
    hide TextNamed, NumberNamed, IntNamed, BoolNamed, LimitNamed;
    ObjectOpens(s, fields, closed, rest);
    FieldsFill(s, Next(s, Lex(s, 0)), fields, closed, rest, DEFAULTS);
  }

  // ---------------------------------------------------------------- nothing else is accepted

  /** What the parser takes as fields are fields. */
  lemma {:induction false} MembersFind(s: string, st: State, r: Request)
    returns (fields: seq<Field>, closed: bool, rest: seq<Token>)
    requires st.pos <= |s| && Members(s, st, r).Some?
    ensures Comes(s, st, FieldTokens(fields, closed), rest)
    ensures FieldsShaped(fields, !closed) && (!closed ==> rest == [Eof])
    decreases Measure(s, st)
  {
    hide Lex, Ahead, OneValue, FieldTokens, FieldsShaped;
    AheadIs(s, st);
    AheadFirst(s, st);
    FieldsNone();
    if st.tok == RBrace {
      fields, closed, rest := [], true, Ahead(s, Next(s, st));
      AheadFirst(s, Next(s, st));
    } else if st.tok == Eof {
      fields, closed, rest := [], false, [Eof];
      assert [] + rest == rest;
    } else {
      var at := Next(s, Next(s, st));
      var key := Copied(st.tok.text, KEY_MAX);
      var (u, r') := OneValue(s, key, at, r).value;
      var v := OneFound(s, at, key, r);
      var more;
      more, closed, rest := MembersFind(s, PastComma(s, u), r');
      fields := FieldFound(s, st, v, u, more, closed, rest);
    }
  }

  lemma OneFound(s: string, st: State, key: string, r: Request) returns (v: Value)
    requires st.pos <= |s| && OneValue(s, key, st, r).Some?
    ensures var u := OneValue(s, key, st, r).value.0;
      Ahead(s, st) == ValueTokens(v) + Ahead(s, u) && Shaped(v, Ahead(s, u) == [Eof])
  {
    hide Lex, Ahead, Assigned, SkipValue, Known, ValueTokens, Shaped;
    if Known(key) {
      AssignedType(r, key, st.tok);
      SingleFound(s, st);
      v := Single(st.tok);
    } else {
      v := SkipFinds(s, st);
    }
  }

  /** A completion request is accepted exactly if the text begins with an object that has nothing malformed in it. */
  lemma CompletionAccepts(s: string)
    ensures Parsed(s).Some? <==>
            exists fields, closed, rest :: HasObject(s, fields, closed, rest) && NoneMalformed(fields)
  {
    hide Lex, Ahead, Members, FieldTokens, FieldsShaped, Malformed;
    var st := Lex(s, 0);
    if Parsed(s).Some? {
      var fields, closed, rest := MembersFind(s, Next(s, st), DEFAULTS);
      AheadIs(s, st);
      ObjectFound(s, fields, closed, rest);
      CompletionFields(s, fields, closed, rest);
      assert HasObject(s, fields, closed, rest) && NoneMalformed(fields);
    }
    if fields, closed, rest :| HasObject(s, fields, closed, rest) && NoneMalformed(fields) {
      CompletionFields(s, fields, closed, rest);
    }
  }

  lemma ObjectFound(s: string, fields: seq<Field>, closed: bool, rest: seq<Token>)
    requires Lex(s, 0).tok == LBrace && Comes(s, Next(s, Lex(s, 0)), FieldTokens(fields, closed), rest)
    requires FieldsShaped(fields, !closed) && (!closed ==> rest == [Eof])
    ensures HasObject(s, fields, closed, rest)
  {
    hide Lex, Ahead, FieldTokens, FieldsShaped;
    AheadIs(s, Lex(s, 0));
    assert [LBrace] + (FieldTokens(fields, closed) + rest) == [LBrace] + FieldTokens(fields, closed) + rest;
  }
}
