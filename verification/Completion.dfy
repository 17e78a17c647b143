/** parse_completion_request of src/api_v1.c, on any text and on serialised objects. */
module Completion {
  import opened Format
  import opened JsonLexer
  import opened JsonParser
  import opened JsonWriter
  import opened JsonRoundTrip
  import opened Options

  const MAX_GENERATION_TOKENS: int := 512
  const KEY_MAX: nat := 63       // char key[64]
  const PROMPT_MAX: nat := 4095  // char prompt[MAX_PROMPT_LENGTH]
  const MODEL_MAX: nat := 63     // char model[MAX_MODEL_ID_LENGTH]

  /** The fields the parser fills; texts are C strings, floats exact reals. */
  datatype Request = Request(
    prompt: string, model: string, maxTokens: int, temperature: real, topP: real, topK: int,
    frequencyPenalty: real, presencePenalty: real, stream: bool, seed: int, echo: bool, n: int)

  const DEFAULTS := Request("", "", 64, 0.8, 0.95, 40, 0.0, 0.0, false, -1, false, 1)

  function Clamped(n: int): int { if n < 0 || n > MAX_GENERATION_TOKENS then MAX_GENERATION_TOKENS else n }

  const FIELDS: seq<string> :=
    ["prompt", "model", "max_tokens", "temperature", "top_p", "top_k", "frequency_penalty", "presence_penalty",
     "stream", "seed", "echo", "n"]

  predicate Known(key: string) { key in FIELDS }

  /** The field named by a known key takes the value of a token, if the token has the field's type. */
  function Assigned(r: Request, key: string, t: Token): Option<Request> {
    if key == "prompt" then (if t.Str? then Some(r.(prompt := Copied(t.text, PROMPT_MAX))) else None)
    else if key == "model" then (if t.Str? then Some(r.(model := Copied(t.text, MODEL_MAX))) else None)
    else if key == "max_tokens" then (if t.Num? then Some(r.(maxTokens := Clamped(Truncated(t.value)))) else None)
    else if key == "temperature" then (if t.Num? then Some(r.(temperature := t.value)) else None)
    else if key == "top_p" then (if t.Num? then Some(r.(topP := t.value)) else None)
    else if key == "top_k" then (if t.Num? then Some(r.(topK := Truncated(t.value))) else None)
    else if key == "frequency_penalty" then (if t.Num? then Some(r.(frequencyPenalty := t.value)) else None)
    else if key == "presence_penalty" then (if t.Num? then Some(r.(presencePenalty := t.value)) else None)
    else if key == "stream" then (if t == True || t == False then Some(r.(stream := t == True)) else None)
    else if key == "seed" then (if t.Num? then Some(r.(seed := Truncated(t.value))) else None)
    else if key == "echo" then (if t == True || t == False then Some(r.(echo := t == True)) else None)
    else if key == "n" then (if t.Num? then Some(r.(n := Truncated(t.value))) else None)
    else None
  }

  // ---------------------------------------------------------------- the member loop

  /** One round of the loop after its key and colon: the state after the value and the request, or failure. */
  function OneValue(inp: string, key: string, st: State, r: Request): (v: Option<(State, Request)>)
    requires st.pos <= |inp|
    ensures v.Some? ==> v.value.0.pos <= |inp| && Measure(inp, v.value.0) < Measure(inp, st)
  {
    if Known(key) then
      match Assigned(r, key, st.tok)
      case None => None
      case Some(r') =>
        assert Usable(st);
        Some((Next(inp, st), r'))
    else
      var (after, ok) := SkipValue(inp, st);
      if ok then Some((after, r)) else None
  }

  function OneMember(inp: string, st: State, r: Request): (v: Option<(State, Request)>)
    requires st.pos <= |inp|
    ensures v.Some? ==> v.value.0.pos <= |inp| && Measure(inp, v.value.0) < Measure(inp, st)
  {
    if !st.tok.Str? then None
    else
      var colon := Next(inp, st);
      if colon.tok != Colon then None
      else
        match OneValue(inp, Copied(st.tok.text, KEY_MAX), Next(inp, colon), r)
        case None => None
        case Some((after, r')) => Some((PastComma(inp, after), r'))
  }

  function Members(inp: string, st: State, r: Request): Option<Request>
    requires st.pos <= |inp|
    decreases Measure(inp, st)
  {
    if st.tok == RBrace || st.tok == Eof then Some(r)
    else
      match OneMember(inp, st, r)
      case None => None
      case Some((st', r')) => Members(inp, st', r')
  }

  /** parse_completion_request: the filled request, or None for -1. */
  function Parsed(body: string): Option<Request> {
    var first := Lex(body, 0);
    if first.tok != LBrace then None else Members(body, Next(body, first), DEFAULTS)
  }

  // ---------------------------------------------------------------- the meaning on objects

  /** What the token a value begins with tells about the value. */
  function FirstToken(v: Json): Token {
    match v
    case JString(s) => Str(Cut(Kept(s), STRING_MAX))
    case JInt(i) => Num(i as real)
    case JBool(b) => if b then True else False
    case JNull => Null
    case JArray(_) => LBracket
    case JObject(_) => LBrace
  }

  /** The left fold of an object's members: a later member overrides an earlier one, unknown members change
      nothing, and a known member of the wrong type makes the request malformed. */
  function Folded(members: seq<Member>, r: Request): Option<Request> {
    if members == [] then Some(r)
    else if !Known(members[0].key) then Folded(members[1..], r)
    else
      match Assigned(r, members[0].key, FirstToken(members[0].value))
      case None => None
      case Some(r') => Folded(members[1..], r')
  }

  /** Keys are C strings. */
  predicate PlainMembers(members: seq<Member>) {
    forall i :: 0 <= i < |members| ==> CString(members[i].key)
  }

  lemma FirstIs(v: Json)
    ensures Tokens(v) != [] && Tokens(v)[0] == FirstToken(v)
  {
  }

  lemma KnownShort(key: string)
    requires Known(key)
    ensures 0 < |key| <= 17 && CString(key)
  {
    assert CString("prompt") && CString("model") && CString("max_tokens") && CString("temperature");
    assert CString("top_p") && CString("top_k") && CString("frequency_penalty") && CString("presence_penalty");
    assert CString("stream") && CString("seed") && CString("echo") && CString("n");
  }

  lemma {:induction false} UpToNulWhole(s: string)
    requires CString(s)
    ensures UpToNul(s) == s
  {
    if s != [] { UpToNulWhole(s[1..]); }
  }

  /** A key names a field after being cut twice exactly when it did before. */
  lemma CutKey(key: string)
    requires CString(key)
    ensures var c := Copied(Cut(key, STRING_MAX), KEY_MAX);
            Known(c) == Known(key) && (Known(key) ==> c == key)
  {
    var c := Cut(Cut(key, STRING_MAX), KEY_MAX);
    assert forall i :: 0 <= i < |c| ==> c[i] == key[i];
    UpToNulWhole(c);
    if Known(key) { KnownShort(key); }
    if Known(c) { KnownShort(c); }
  }

  lemma FirstOfValue(inp: string, p: nat, v: Json, q: nat)
    requires p <= q <= |inp| && ReadsAs(inp, p, Tokens(v), q)
    ensures Lex(inp, p).tok == FirstToken(v)
  {
    hide Lex, Tokens, FirstToken;
    FirstIs(v);
    assert LexAll(inp, p)[0] == Tokens(v)[0];
  }

  /** Known members are single tokens, so using one up is the same as skipping it. */
  lemma MemberValue(inp: string, p: nat, q: nat, key: string, v: Json, r: Request)
    requires Skips(inp, p, q) && Lex(inp, p).tok == FirstToken(v)
    ensures OneValue(inp, key, Lex(inp, p), r) ==
            if !Known(key) then Some((Lex(inp, q), r))
            else match Assigned(r, key, FirstToken(v)) case None => None case Some(r') => Some((Lex(inp, q), r'))
  {
    hide Lex, Known, Assigned;
    if Known(key) { AssignedType(r, key, FirstToken(v)); }
  }

  lemma AssignedType(r: Request, key: string, t: Token)
    ensures Assigned(r, key, t).Some? ==> t.Str? || t.Num? || t == True || t == False
  {
  }

  lemma MembersTail(members: seq<Member>)
    requires WellKeyedMembers(members) && PlainMembers(members) && members != []
    ensures CleanKey(members[0].key) && WellKeyed(members[0].value) && CString(members[0].key)
    ensures WellKeyedMembers(members[1..]) && PlainMembers(members[1..])
  {
  }

  lemma {:induction false} MembersFold(inp: string, p: nat, members: seq<Member>, r: Request)
    requires Holds(inp, p, MembersText(members) + "}") && WellKeyedMembers(members)
    requires PlainMembers(members)
    ensures Members(inp, Lex(inp, p), r) == Folded(members, r)
    decreases |members|
  {
    hide Lex, Holds, Known, OneMember, Assigned, MemberText, MembersText, Mark, PastComma, Delimited, Measure;
    hide WellKeyedMembers, PlainMembers, CleanKey, WellKeyed, CString;
    Within(inp, p, MembersText(members) + "}");
    if members == [] {
      NoMembers();
      MarkNames();
      ReadsMark(inp, p, '}');
    } else {
      var m, q, c := members[0], MemberEnd(p, members), MemberMark(members);
      MembersTail(members);
      MembersParts(inp, p, members);
      OneMemberReads(inp, p, m, r);
      MemberStarts(inp, p, m);
      var r' := if Known(m.key) then Assigned(r, m.key, FirstToken(m.value)) else Some(r);
      if r'.Some? {
        AfterMember(inp, q, c);
        if |members| == 1 {
          assert members[1..] == [];
        } else {
          MembersFold(inp, q + 1, members[1..], r'.value);
        }
      }
    }
  }

  lemma AfterMember(inp: string, q: nat, c: char)
    requires Holds(inp, q, [c]) && q + 1 <= |inp| && (c == '}' || c == ',')
    ensures PastComma(inp, Lex(inp, q)) == if c == '}' then State(RBrace, q + 1) else Lex(inp, q + 1)
  {
    hide Lex;
    ReadsMark(inp, q, c);
  }

  lemma MemberStarts(inp: string, p: nat, m: Member)
    requires Holds(inp, p, MemberText(m)) && Delimited(inp, p + |MemberText(m)|)
    requires CleanKey(m.key) && WellKeyed(m.value)
    ensures p <= |inp| && Lex(inp, p).tok.Str?
  {
    hide Lex, Text;
    Within(inp, p, MemberText(m));
    MemberReadsBack(inp, p, m);
  }

  /** A serialised member is read as itself. */
  lemma OneMemberReads(inp: string, p: nat, m: Member, r: Request)
    requires Holds(inp, p, MemberText(m)) && Delimited(inp, p + |MemberText(m)|)
    requires CleanKey(m.key) && WellKeyed(m.value) && CString(m.key)
    ensures var q := p + |MemberText(m)|;
            && q <= |inp|
            && OneMember(inp, Lex(inp, p), r) ==
               if !Known(m.key) then Some((PastComma(inp, Lex(inp, q)), r))
               else match Assigned(r, m.key, FirstToken(m.value))
                    case None => None
                    case Some(r') => Some((PastComma(inp, Lex(inp, q)), r'))
  {
    hide Lex, Holds, Known, OneValue, Assigned, Text, Tokens, Skips, ReadsAs, Cut, PastComma;
    var k, q, key := p + |Quoted(m.key)|, p + |MemberText(m)|, Copied(Cut(m.key, STRING_MAX), KEY_MAX);
    Within(inp, p, MemberText(m));
    MemberReadsBack(inp, p, m);
    CutKey(m.key);
    ValueReads(inp, p, m);
    MemberValue(inp, k + 1, q, key, m.value, r);
    if Known(m.key) { assert key == m.key; }
  }

  lemma ValueReads(inp: string, p: nat, m: Member)
    requires Holds(inp, p, MemberText(m)) && Delimited(inp, p + |MemberText(m)|) && WellKeyed(m.value)
    ensures var k, q := p + |Quoted(m.key)|, p + |MemberText(m)|;
            && k + 1 <= q <= |inp| && Skips(inp, k + 1, q) && Lex(inp, k + 1).tok == FirstToken(m.value)
  {
    hide Lex, Holds, Text, Tokens, Skips, ReadsAs, FirstToken;
    var k, t := p + |Quoted(m.key)|, Text(m.value);
    assert MemberText(m) == Quoted(m.key) + (":" + t);
    HoldsParts(inp, p, Quoted(m.key), ":" + t);
    HoldsParts(inp, k, ":", t);
    Within(inp, k + 1, t);
    TreeReadsBack(inp, k + 1, m.value);
    FirstOfValue(inp, k + 1, m.value, k + 1 + |t|);
  }

  /** Parsing the serialisation of any object gives exactly the fold of its members. */
  lemma CompletionReadsBack(members: seq<Member>)
    requires WellKeyedMembers(members) && PlainMembers(members)
    ensures Parsed(Text(JObject(members))) == Folded(members, DEFAULTS)
  {
    hide Parsed, Folded, Text, Holds, PlainMembers, WellKeyedMembers;
    ObjectText(members);
    Itself(Text(JObject(members)));
    ParsedObject(Text(JObject(members)), members);
  }

  lemma ParsedObject(inp: string, members: seq<Member>)
    requires Holds(inp, 0, "{" + (MembersText(members) + "}"))
    requires WellKeyedMembers(members) && PlainMembers(members)
    ensures Parsed(inp) == Folded(members, DEFAULTS)
  {
    hide Lex, Members, Folded, WellKeyedMembers, Holds, PlainMembers;
    var body := MembersText(members) + "}";
    HoldsParts(inp, 0, "{", body);
    Within(inp, 1, body);
    MarkReadsBack(inp, 0, '{');
    MembersFold(inp, 1, members, DEFAULTS);
  }

  lemma ObjectText(members: seq<Member>)
    ensures Text(JObject(members)) == "{" + (MembersText(members) + "}")
  {
  }

  // ---------------------------------------------------------------- the parser as it runs

  class CompletionRequest {
    var prompt: string
    var model: string
    var maxTokens: int
    var temperature: real
    var topP: real
    var topK: int
    var frequencyPenalty: real
    var presencePenalty: real
    var stream: bool
    var seed: int
    var echo: bool
    var n: int

    ghost function Fields(): Request
      reads this
    {
      Request(prompt, model, maxTokens, temperature, topP, topK, frequencyPenalty, presencePenalty,
              stream, seed, echo, n)
    }

    constructor ()
      ensures Fields() == DEFAULTS
    {
      prompt, model, maxTokens, temperature, topP, topK := "", "", 64, 0.8, 0.95, 40;
      frequencyPenalty, presencePenalty, stream, seed, echo, n := 0.0, 0.0, false, -1, false, 1;
    }

    /** The fields that are texts. */
    method AssignText(p: Parser, key: string) returns (ok: bool)
      requires p.Valid() && (key == "prompt" || key == "model")
      modifies this, p, p.stringBuf
      ensures p.Valid()
      ensures ok == Assigned(old(Fields()), key, old(p.Current())).Some?
      ensures ok ==> Fields() == Assigned(old(Fields()), key, old(p.Current())).value
      ensures ok ==> p.At() == Next(p.input, old(p.At()))
    {
      hide Lex, Copied, Truncated;
      var text;
      if key == "prompt" {
        ok, text := p.ParseString(PROMPT_MAX);
        prompt := text;
      } else {
        ok, text := p.ParseString(MODEL_MAX);
        model := text;
      }
    }

    /** The fields that are integers. */
    method AssignInt(p: Parser, key: string) returns (ok: bool)
      requires p.Valid() && key in ["max_tokens", "top_k", "seed", "n"]
      modifies this, p, p.stringBuf
      ensures p.Valid()
      ensures ok == Assigned(old(Fields()), key, old(p.Current())).Some?
      ensures ok ==> Fields() == Assigned(old(Fields()), key, old(p.Current())).value
      ensures ok ==> p.At() == Next(p.input, old(p.At()))
    {
      hide Lex, Copied, Truncated;
      var number;
      ok, number := p.ParseInt();
      if key == "max_tokens" {
        maxTokens := number;
        if maxTokens < 0 || maxTokens > MAX_GENERATION_TOKENS {
          maxTokens := MAX_GENERATION_TOKENS;
        }
      } else if key == "top_k" {
        topK := number;
      } else if key == "seed" {
        seed := number;
      } else {
        n := number;
      }
    }

    /** The fields that are floats. */
    method AssignReal(p: Parser, key: string) returns (ok: bool)
      requires p.Valid() && key in ["temperature", "top_p", "frequency_penalty", "presence_penalty"]
      modifies this, p, p.stringBuf
      ensures p.Valid()
      ensures ok == Assigned(old(Fields()), key, old(p.Current())).Some?
      ensures ok ==> Fields() == Assigned(old(Fields()), key, old(p.Current())).value
      ensures ok ==> p.At() == Next(p.input, old(p.At()))
    {
      hide Lex, Copied, Truncated;
      var number;
      ok, number := p.ParseNumber();
      if key == "temperature" {
        temperature := number;
      } else if key == "top_p" {
        topP := number;
      } else if key == "frequency_penalty" {
        frequencyPenalty := number;
      } else {
        presencePenalty := number;
      }
    }

    /** The fields that are flags. */
    method AssignBool(p: Parser, key: string) returns (ok: bool)
      requires p.Valid() && (key == "stream" || key == "echo")
      modifies this, p, p.stringBuf
      ensures p.Valid()
      ensures ok == Assigned(old(Fields()), key, old(p.Current())).Some?
      ensures ok ==> Fields() == Assigned(old(Fields()), key, old(p.Current())).value
      ensures ok ==> p.At() == Next(p.input, old(p.At()))
    {
      hide Lex, Copied, Truncated;
      var flag;
      ok, flag := p.ParseBool();
      if key == "stream" {
        stream := flag;
      } else {
        echo := flag;
      }
    }

    /** The strcmp chain of parse_completion_request for a known key. */
    method Assign(p: Parser, key: string) returns (ok: bool)
      requires p.Valid() && Known(key)
      modifies this, p, p.stringBuf
      ensures p.Valid()
      ensures ok == Assigned(old(Fields()), key, old(p.Current())).Some?
      ensures ok ==> Fields() == Assigned(old(Fields()), key, old(p.Current())).value
      ensures ok ==> p.At() == Next(p.input, old(p.At()))
    {
      hide Assigned, Lex;
      if key == "prompt" || key == "model" {
        ok := AssignText(p, key);
      } else if key in ["max_tokens", "top_k", "seed", "n"] {
        ok := AssignInt(p, key);
      } else if key == "stream" || key == "echo" {
        ok := AssignBool(p, key);
      } else {
        ok := AssignReal(p, key);
      }
    }

    /** One round of the member loop. */
    method ParseMember(p: Parser) returns (ok: bool)
      requires p.Valid()
      modifies this, p, p.stringBuf
      ensures p.Valid()
      ensures ok == OneMember(p.input, old(p.At()), old(Fields())).Some?
      ensures ok ==> OneMember(p.input, old(p.At()), old(Fields())).value == (p.At(), Fields())
    {
      hide Lex, Copied, Known, Assigned, Measure, JsonLexer.SkipValue, Parser.Current;
      var key;
      ok, key := p.ParseString(KEY_MAX);
      if !ok { return; }
      p.KindIs();
      if p.kind != TokColon { return false; }
      p.NextToken();
      if Known(key) {
        ok := Assign(p, key);
        if !ok { return; }
      } else {
        var r := p.SkipValue();
        ok := r == 0;
        if !ok { return; }
      }
      p.KindIs();
      if p.kind == TokComma { p.NextToken(); }
    }
  }

  /** 0 with the request filled in, or -1; whatever the text, the loop ends. */
  method ParseCompletionRequest(body: string) returns (r: int, req: CompletionRequest)
    ensures r == if Parsed(body).Some? then 0 else -1
    ensures r == 0 ==> Parsed(body) == Some(req.Fields())
    ensures fresh(req)
  {
    hide Lex, OneMember, Measure;
    req := new CompletionRequest();
    var p := new Parser(body);
    p.NextToken();
    if p.kind != TokLBrace {
      return -1, req;
    }
    p.NextToken();
    while p.kind != TokRBrace && p.kind != TokEof
      invariant p.Valid() && p.input == body && fresh(p) && fresh(p.stringBuf) && fresh(req)
      invariant Members(body, p.At(), req.Fields()) == Parsed(body)
      decreases Measure(body, p.At())
    {
      var ok := req.ParseMember(p);
      if !ok {
        return -1, req;
      }
    }
    r := 0;
  }
}
