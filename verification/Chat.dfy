/** parse_chat_request of src/api_v1.c, on any text and on serialised objects. */
module Chat {
  import opened Completion
  import opened Format
  import opened JsonLexer
  import opened JsonParser
  import opened JsonWriter
  import opened JsonRoundTrip
  import opened Options
  import D = Detokenize

  const MAX_CHAT_MESSAGES: nat := 32
  const MESSAGE_KEY_MAX: nat := 31  // char mkey[32]
  const ROLE_MAX: nat := 15         // char role[16]

  datatype Message = Message(role: string, content: string)

  datatype Request = Request(
    messages: seq<Message>, model: string, maxTokens: int, temperature: real, topP: real, stream: bool)

  const CHAT_DEFAULTS := Request.Request([], "", 64, 0.8, 0.95, false)
  const NO_MESSAGE := Message("", "")

  // ---------------------------------------------------------------- one message

  function MessageField(m: Message, key: string, t: Token): Option<Message> {
    if !t.Str? then None
    else if key == "role" then Some(m.(role := Copied(t.text, ROLE_MAX)))
    else Some(m.(content := Copied(t.text, PROMPT_MAX)))
  }

  predicate InMessage(key: string) { key == "role" || key == "content" }

  function MessageValue(inp: string, key: string, st: State, m: Message): (v: Option<(State, Message)>)
    requires st.pos <= |inp|
    ensures v.Some? ==> v.value.0.pos <= |inp| && Measure(inp, v.value.0) < Measure(inp, st)
  {
    if InMessage(key) then
      match MessageField(m, key, st.tok)
      case None => None
      case Some(m') => Some((Next(inp, st), m'))
    else
      var (after, ok) := SkipValue(inp, st);
      if ok then Some((after, m)) else None
  }

  function MessageRound(inp: string, st: State, m: Message): (v: Option<(State, Message)>)
    requires st.pos <= |inp|
    ensures v.Some? ==> v.value.0.pos <= |inp| && Measure(inp, v.value.0) < Measure(inp, st)
  {
    if !st.tok.Str? then None
    else
      var colon := Next(inp, st);
      if colon.tok != Colon then None
      else
        match MessageValue(inp, Copied(st.tok.text, MESSAGE_KEY_MAX), Next(inp, colon), m)
        case None => None
        case Some((after, m')) => Some((PastComma(inp, after), m'))
  }

  /** The loop over the members of a message, up to its closing brace or the end of the text. */
  function MessageRounds(inp: string, st: State, m: Message): (v: Option<(State, Message)>)
    requires st.pos <= |inp|
    ensures v.Some? ==> v.value.0.pos <= |inp| && Measure(inp, v.value.0) <= Measure(inp, st)
    decreases Measure(inp, st)
  {
    if st.tok == RBrace || st.tok == Eof then Some((st, m))
    else
      match MessageRound(inp, st, m)
      case None => None
      case Some((st', m')) => MessageRounds(inp, st', m')
  }

  // ---------------------------------------------------------------- the messages

  /** One round of the loop over the messages: a message without a closing brace does not count. */
  function ListRound(inp: string, st: State, ms: seq<Message>): (v: Option<(State, seq<Message>)>)
    requires st.pos <= |inp| && |ms| < MAX_CHAT_MESSAGES
    ensures v.Some? ==> v.value.0.pos <= |inp| && Measure(inp, v.value.0) < Measure(inp, st)
    ensures v.Some? ==> |v.value.1| <= MAX_CHAT_MESSAGES
  {
    if st.tok != LBrace then None
    else
      match MessageRounds(inp, Next(inp, st), NO_MESSAGE)
      case None => None
      case Some((after, m)) =>
        if after.tok == RBrace then Some((PastComma(inp, Next(inp, after)), ms + [m]))
        else Some((PastComma(inp, after), ms))
  }

  function MessageList(inp: string, st: State, ms: seq<Message>): (v: Option<(State, seq<Message>)>)
    requires st.pos <= |inp| && |ms| <= MAX_CHAT_MESSAGES
    ensures v.Some? ==> v.value.0.pos <= |inp| && Measure(inp, v.value.0) <= Measure(inp, st)
    ensures v.Some? ==> |v.value.1| <= MAX_CHAT_MESSAGES
    decreases Measure(inp, st)
  {
    if st.tok == RBracket || st.tok == Eof || |ms| == MAX_CHAT_MESSAGES then Some((st, ms))
    else
      match ListRound(inp, st, ms)
      case None => None
      case Some((st', ms')) => MessageList(inp, st', ms')
  }

  function MessagesValue(inp: string, st: State, ms: seq<Message>): (v: Option<(State, seq<Message>)>)
    requires st.pos <= |inp| && |ms| <= MAX_CHAT_MESSAGES
    ensures v.Some? ==> v.value.0.pos <= |inp| && Measure(inp, v.value.0) < Measure(inp, st)
    ensures v.Some? ==> |v.value.1| <= MAX_CHAT_MESSAGES
  {
    if st.tok != LBracket then None
    else
      match MessageList(inp, Next(inp, st), ms)
      case None => None
      case Some((after, more)) => Some((if after.tok == RBracket then Next(inp, after) else after, more))
  }

  // ---------------------------------------------------------------- the request

  const SCALARS: seq<string> := ["model", "max_tokens", "temperature", "top_p", "stream"]

  function ScalarField(c: Request, key: string, t: Token): Option<Request> {
    if key == "model" then (if t.Str? then Some(c.(model := Copied(t.text, MODEL_MAX))) else None)
    else if key == "max_tokens" then (if t.Num? then Some(c.(maxTokens := Clamped(Truncated(t.value)))) else None)
    else if key == "temperature" then (if t.Num? then Some(c.(temperature := t.value)) else None)
    else if key == "top_p" then (if t.Num? then Some(c.(topP := t.value)) else None)
    else if key == "stream" then (if t == True || t == False then Some(c.(stream := t == True)) else None)
    else None
  }

  function ChatValue(inp: string, key: string, st: State, c: Request): (v: Option<(State, Request)>)
    requires st.pos <= |inp| && |c.messages| <= MAX_CHAT_MESSAGES
    ensures v.Some? ==> v.value.0.pos <= |inp| && Measure(inp, v.value.0) < Measure(inp, st)
    ensures v.Some? ==> |v.value.1.messages| <= MAX_CHAT_MESSAGES
  {
    if key == "messages" then
      match MessagesValue(inp, st, c.messages)
      case None => None
      case Some((after, ms)) => Some((after, c.(messages := ms)))
    else if key in SCALARS then
      match ScalarField(c, key, st.tok)
      case None => None
      case Some(c') => Some((Next(inp, st), c'))
    else
      var (after, ok) := SkipValue(inp, st);
      if ok then Some((after, c)) else None
  }

  function ChatRound(inp: string, st: State, c: Request): (v: Option<(State, Request)>)
    requires st.pos <= |inp| && |c.messages| <= MAX_CHAT_MESSAGES
    ensures v.Some? ==> v.value.0.pos <= |inp| && Measure(inp, v.value.0) < Measure(inp, st)
    ensures v.Some? ==> |v.value.1.messages| <= MAX_CHAT_MESSAGES
  {
    if !st.tok.Str? then None
    else
      var colon := Next(inp, st);
      if colon.tok != Colon then None
      else
        match ChatValue(inp, Copied(st.tok.text, KEY_MAX), Next(inp, colon), c)
        case None => None
        case Some((after, c')) => Some((PastComma(inp, after), c'))
  }

  function ChatRounds(inp: string, st: State, c: Request): (v: Option<Request>)
    requires st.pos <= |inp| && |c.messages| <= MAX_CHAT_MESSAGES
    ensures v.Some? ==> |v.value.messages| <= MAX_CHAT_MESSAGES
    decreases Measure(inp, st)
  {
    if st.tok == RBrace || st.tok == Eof then Some(c)
    else
      match ChatRound(inp, st, c)
      case None => None
      case Some((st', c')) => ChatRounds(inp, st', c')
  }

  /** parse_chat_request: the filled request, or None for -1. */
  function ParsedChat(body: string): (v: Option<Request>)
    ensures v.Some? ==> |v.value.messages| <= MAX_CHAT_MESSAGES
  {
    var first := Lex(body, 0);
    if first.tok != LBrace then None else ChatRounds(body, Next(body, first), CHAT_DEFAULTS)
  }

  // ---------------------------------------------------------------- the meaning on objects

  /** One message: its last role and last content; anything but a string there is malformed. */
  function MessageOf(members: seq<Member>, m: Message): Option<Message> {
    if members == [] then Some(m)
    else if !InMessage(members[0].key) then MessageOf(members[1..], m)
    else
      match MessageField(m, members[0].key, FirstToken(members[0].value))
      case None => None
      case Some(m') => MessageOf(members[1..], m')
  }

  function MessagesOf(items: seq<Json>): (v: Option<seq<Message>>)
    ensures v.Some? ==> |v.value| == |items|
  {
    if items == [] then Some([])
    else if !items[0].JObject? then None
    else
      match MessageOf(items[0].members, NO_MESSAGE)
      case None => None
      case Some(m) =>
        match MessagesOf(items[1..])
        case None => None
        case Some(rest) => Some([m] + rest)
  }

  /** The messages of all arrays called messages one after the other, at most 32 in all, and for each scalar
      field its last value. */
  function ChatFolded(members: seq<Member>, c: Request): Option<Request> {
    if members == [] then Some(c)
    else
      match MemberFolded(members[0], c)
      case None => None
      case Some(c') => ChatFolded(members[1..], c')
  }

  function MemberFolded(m: Member, c: Request): Option<Request> {
    if m.key == "messages" then
      if !m.value.JArray? then None
      else
        match MessagesOf(m.value.items)
        case None => None
        case Some(ms) =>
          if |c.messages| + |ms| <= MAX_CHAT_MESSAGES then Some(c.(messages := c.messages + ms)) else None
    else if m.key in SCALARS then ScalarField(c, m.key, FirstToken(m.value))
    else Some(c)
  }

  /** Keys are C strings, down to the members of the messages. */
  predicate PlainItems(items: seq<Json>) {
    forall j :: 0 <= j < |items| && items[j].JObject? ==> PlainMembers(items[j].members)
  }

  predicate PlainKeys(members: seq<Member>) {
    && PlainMembers(members)
    && forall i :: 0 <= i < |members| && members[i].value.JArray? ==> PlainItems(members[i].value.items)
  }

  // ---------------------------------------------------------------- reading members back

  const CHAT_NAMES: seq<string> := ["messages"] + SCALARS
  const MESSAGE_NAMES: seq<string> := ["role", "content"]

  lemma CutNames(key: string, names: seq<string>, max: nat)
    requires CString(key) && max <= STRING_MAX && forall i :: 0 <= i < |names| ==> |names[i]| < max
    ensures var c := Copied(Cut(key, STRING_MAX), max); if key in names then c == key else c !in names
  {
    hide Copied, Cut, CString;
    forall i | 0 <= i < |names| ensures Copied(Cut(key, STRING_MAX), max) == names[i] <==> key == names[i] {
      D.CutName(key, names[i], max);
    }
  }

  /** Where a serialised member's colon, value and end are. */
  lemma MemberParts(inp: string, p: nat, m: Member)
    requires Holds(inp, p, MemberText(m)) && Delimited(inp, p + |MemberText(m)|)
    requires CleanKey(m.key) && WellKeyed(m.value)
    ensures var k, q := p + |Quoted(m.key)|, p + |MemberText(m)|;
      && p < k + 1 <= q <= |inp|
      && Lex(inp, p).tok == Str(Cut(m.key, STRING_MAX)) && Next(inp, Lex(inp, p)) == State(Colon, k + 1)
      && Lex(inp, k + 1).tok == FirstToken(m.value)
      && SkipValue(inp, Lex(inp, k + 1)) == (Lex(inp, q), true)
      && Holds(inp, k + 1, Text(m.value)) && q == k + 1 + |Text(m.value)|
  {
    hide Lex, Holds, Text, Tokens, ReadsAs, Cut, CleanKey, WellKeyed, FirstToken;
    var k, q, t := p + |Quoted(m.key)|, p + |MemberText(m)|, Text(m.value);
    Within(inp, p, MemberText(m));
    assert MemberText(m) == Quoted(m.key) + (":" + t);
    HoldsParts(inp, p, Quoted(m.key), ":" + t);
    HoldsParts(inp, k, ":", t);
    MemberReadsBack(inp, p, m);
    ValueReads(inp, p, m);
    D.SkipsIs(inp, k + 1, q);
  }

  /** Using up a string, number or truth value is the same as skipping it. */
  lemma UsedUp(inp: string, st: State, q: nat)
    requires st.pos <= |inp| && q <= |inp| && SkipValue(inp, st) == (Lex(inp, q), true)
    ensures st.tok.Str? || st.tok.Num? || st.tok == True || st.tok == False ==> Next(inp, st) == Lex(inp, q)
  {
    hide Lex;
  }

  lemma MessageRoundReads(inp: string, p: nat, m: Member, x: Message)
    requires Holds(inp, p, MemberText(m)) && Delimited(inp, p + |MemberText(m)|)
    requires CleanKey(m.key) && WellKeyed(m.value) && CString(m.key)
    ensures var q := p + |MemberText(m)|;
      && p < q <= |inp| && Lex(inp, p).tok.Str?
      && MessageRound(inp, Lex(inp, p), x) ==
         if !InMessage(m.key) then Some((PastComma(inp, Lex(inp, q)), x))
         else match MessageField(x, m.key, FirstToken(m.value))
              case None => None
              case Some(x') => Some((PastComma(inp, Lex(inp, q)), x'))
  {
    hide Lex, Holds, Text, Cut, CString, CleanKey, WellKeyed, FirstToken, MemberText, PastComma, Copied, Measure;
    hide SkipValue, Quoted;
    var k, q := p + |Quoted(m.key)|, p + |MemberText(m)|;
    MemberParts(inp, p, m);
    CutNames(m.key, MESSAGE_NAMES, MESSAGE_KEY_MAX);
    InNames(m.key);
    InNames(Copied(Cut(m.key, STRING_MAX), MESSAGE_KEY_MAX));
    UsedUp(inp, Lex(inp, k + 1), q);
  }

  lemma InNames(key: string)
    ensures InMessage(key) <==> key in MESSAGE_NAMES
  {
  }

  lemma {:induction false} MessageReads(inp: string, p: nat, members: seq<Member>, x: Message)
    requires Holds(inp, p, MembersText(members) + "}") && WellKeyedMembers(members) && PlainMembers(members)
    ensures var e := p + |MembersText(members)| + 1;
      && p < e <= |inp|
      && MessageRounds(inp, Lex(inp, p), x) ==
         match MessageOf(members, x) case None => None case Some(x') => Some((State(RBrace, e), x'))
    decreases |members|
  {
    hide Lex, Holds, MessageRound, MemberText, MembersText, Mark, PastComma, MessageField, Measure, FirstToken;
    hide InMessage, Delimited;
    hide WellKeyedMembers, PlainMembers, CleanKey, WellKeyed, CString;
    Within(inp, p, MembersText(members) + "}");
    if members == [] {
      NoMembers();
      MarkNames();
      ReadsMark(inp, p, '}');
    } else {
      var m, q, c := members[0], MemberEnd(p, members), MemberMark(members);
      MembersTail(members);
      MembersParts(inp, p, members);
      MessageRoundReads(inp, p, m, x);
      var x' := if InMessage(m.key) then MessageField(x, m.key, FirstToken(m.value)) else Some(x);
      if x'.Some? {
        AfterMember(inp, q, c);
        if |members| == 1 {
          assert members[1..] == [];
          BraceEnds(inp, q + 1, x'.value);
        } else {
          MessageReads(inp, q + 1, members[1..], x'.value);
        }
      }
    }
  }

  lemma BraceEnds(inp: string, e: nat, x: Message)
    requires e <= |inp|
    ensures MessageRounds(inp, State(RBrace, e), x) == Some((State(RBrace, e), x))
  {
  }

  /** One serialised message. */
  lemma ListRoundReads(inp: string, p: nat, v: Json, ms: seq<Message>, c: char)
    requires Holds(inp, p, Text(v)) && WellKeyed(v) && (v.JObject? ==> PlainMembers(v.members))
    requires Delimited(inp, p + |Text(v)|) && Holds(inp, p + |Text(v)|, [c]) && (c == ',' || c == ']')
    requires |ms| < MAX_CHAT_MESSAGES
    ensures var q := p + |Text(v)|;
      && q + 1 <= |inp| && p <= q
      && ListRound(inp, Lex(inp, p), ms) ==
         if !v.JObject? then None
         else match MessageOf(v.members, NO_MESSAGE)
              case None => None
              case Some(m) => Some((if c == ']' then State(RBracket, q + 1) else Lex(inp, q + 1), ms + [m]))
  {
    hide Lex, Holds, Text, Tokens, Skips, ReadsAs, WellKeyed, MessageRounds, MessageOf, PastComma, Mark, Delimited;
    hide Measure, MembersText;
    var q := p + |Text(v)|;
    Within(inp, q, [c]);
    D.ElementStops(inp, p, v, c);
    TreeReadsBack(inp, p, v);
    FirstOfValue(inp, p, v, q);
    if v.JObject? {
      var body := MembersText(v.members) + "}";
      ObjectText(v.members);
      HoldsParts(inp, p, "{", body);
      OpenBrace();
      MarkReadsBack(inp, p, '{');
      MembersKeyed(v.members);
      MessageReads(inp, p + 1, v.members, NO_MESSAGE);
      D.AfterElement(inp, q, c);
    }
  }

  lemma OpenBrace()
    ensures Mark('{') == LBrace
  {
  }

  lemma MembersKeyed(members: seq<Member>)
    requires WellKeyed(JObject(members))
    ensures WellKeyedMembers(members)
  {
  }

  predicate Readable(items: seq<Json>, n: nat) {
    MessagesOf(items).Some? && n + |items| <= MAX_CHAT_MESSAGES
  }

  /** What the elements of an array of messages need. */
  predicate MessageItems(items: seq<Json>) {
    forall j :: 0 <= j < |items| ==> WellKeyed(items[j]) && (items[j].JObject? ==> PlainMembers(items[j].members))
  }

  lemma ItemsTail(items: seq<Json>)
    requires MessageItems(items) && items != []
    ensures WellKeyed(items[0]) && (items[0].JObject? ==> PlainMembers(items[0].members)) && MessageItems(items[1..])
  {
  }

  lemma Snoc<T>(a: seq<T>, x: T, b: seq<T>)
    ensures a + ([x] + b) == a + [x] + b && a + [x] + [] == a + [x]
  {
  }

  lemma {:induction false} MessageListReads(inp: string, p: nat, items: seq<Json>, ms: seq<Message>)
    requires Holds(inp, p, ElementsText(items) + "]") && MessageItems(items) && |ms| <= MAX_CHAT_MESSAGES
    ensures var e := p + |ElementsText(items)| + 1;
      && p <= e <= |inp|
      && var v := MessageList(inp, Lex(inp, p), ms);
      if Readable(items, |ms|) then v == Some((State(RBracket, e), ms + MessagesOf(items).value))
      else v.None? || D.StuckAt(inp, v.value.0)
    decreases |items|
  {
    hide Lex, Holds, D.StuckAt, PastComma, Mark, Text, WellKeyed, Measure, ListRound, MessageOf, PlainMembers;
    hide Delimited;
    hide ElementsText, MessagesOf, MessageItems;
    NoMessages();
    Within(inp, p, ElementsText(items) + "]");
    MarkNames();
    if items == [] {
      NoElements();
      ReadsMark(inp, p, ']');
      assert ms + [] == ms;
    } else {
      var q, c := ElementEnd(p, items), ElementMark(items);
      ItemsTail(items);
      ElementsParts(inp, p, items);
      D.ElementStops(inp, p, items[0], c);
      D.StuckFails(inp, Lex(inp, p), []);
      MessagesOfDef(items);
      if |ms| < MAX_CHAT_MESSAGES {
        ListRoundReads(inp, p, items[0], ms, c);
        if items[0].JObject? && MessageOf(items[0].members, NO_MESSAGE).Some? {
          var m := MessageOf(items[0].members, NO_MESSAGE).value;
          if |items| == 1 {
            assert items[1..] == [];
            Snoc(ms, m, []);
            ListEnds(inp, State(RBracket, q + 1), ms + [m]);
          } else {
            MessageListReads(inp, q + 1, items[1..], ms + [m]);
            if MessagesOf(items).Some? { Snoc(ms, m, MessagesOf(items[1..]).value); }
          }
        }
      } else {
        ListEnds(inp, Lex(inp, p), ms);
      }
    }
  }

  lemma NoMessages()
    ensures MessagesOf([]) == Some([])
  {
  }

  lemma MessagesOfDef(items: seq<Json>)
    requires items != []
    ensures MessagesOf(items).Some? <==>
            items[0].JObject? && MessageOf(items[0].members, NO_MESSAGE).Some? && MessagesOf(items[1..]).Some?
    ensures MessagesOf(items).Some? ==>
            MessagesOf(items).value == [MessageOf(items[0].members, NO_MESSAGE).value] + MessagesOf(items[1..]).value
  {
    hide MessageOf;
  }

  lemma ListEnds(inp: string, st: State, ms: seq<Message>)
    requires st.pos <= |inp| && |ms| <= MAX_CHAT_MESSAGES
    requires st.tok == RBracket || st.tok == Eof || |ms| == MAX_CHAT_MESSAGES
    ensures MessageList(inp, st, ms) == Some((st, ms))
  {
  }

  lemma ItemsReady(items: seq<Json>)
    requires WellKeyed(JArray(items)) && PlainItems(items)
    ensures MessageItems(items)
  {
  }

  lemma MessagesRead(inp: string, p: nat, v: Json, ms: seq<Message>)
    requires Holds(inp, p, Text(v)) && Delimited(inp, p + |Text(v)|) && WellKeyed(v) && |ms| <= MAX_CHAT_MESSAGES
    requires v.JArray? ==> PlainItems(v.items)
    ensures var e := p + |Text(v)|;
      && p <= e <= |inp|
      && var r := MessagesValue(inp, Lex(inp, p), ms);
      if v.JArray? && Readable(v.items, |ms|) then r == Some((Lex(inp, e), ms + MessagesOf(v.items).value))
      else r.None? || D.StuckAt(inp, r.value.0)
  {
    hide Lex, Holds, D.StuckAt, Delimited, MessageList, WellKeyed, Tokens, Skips, ReadsAs, Text, ElementsText;
    hide Measure, Readable, PlainItems;
    Within(inp, p, Text(v));
    TreeReadsBack(inp, p, v);
    FirstOfValue(inp, p, v, p + |Text(v)|);
    if v.JArray? {
      var body := ElementsText(v.items) + "]";
      D.ArrayText(v.items);
      HoldsParts(inp, p, "[", body);
      MarkReadsBack(inp, p, '[');
      ItemsReady(v.items);
      MessageListReads(inp, p + 1, v.items, ms);
      var r := MessageList(inp, Lex(inp, p + 1), ms);
      if !Readable(v.items, |ms|) && r.Some? { D.StuckFails(inp, r.value.0, []); }
    }
  }

  /** A serialised member of the request is read as itself, or else the loop cannot go on. */
  lemma ChatRoundReads(inp: string, p: nat, m: Member, c: Request)
    requires Holds(inp, p, MemberText(m)) && Delimited(inp, p + |MemberText(m)|) && |c.messages| <= MAX_CHAT_MESSAGES
    requires CleanKey(m.key) && WellKeyed(m.value) && CString(m.key) && (m.value.JArray? ==> PlainItems(m.value.items))
    ensures var q := p + |MemberText(m)|;
      && p < q <= |inp| && Lex(inp, p).tok.Str?
      && var r := ChatRound(inp, Lex(inp, p), c);
      match MemberFolded(m, c)
      case Some(c') => r == Some((PastComma(inp, Lex(inp, q)), c'))
      case None => r.None? || D.StuckAt(inp, r.value.0)
  {
    hide Lex, Holds, Text, Cut, CString, CleanKey, WellKeyed, FirstToken, MemberText, PastComma, Copied, Measure;
    hide SkipValue, Quoted;
    hide D.StuckAt, MessagesValue, PlainItems, MessagesOf, ScalarField;
    var k, q := p + |Quoted(m.key)|, p + |MemberText(m)|;
    MemberParts(inp, p, m);
    Names();
    CutNames(m.key, CHAT_NAMES, KEY_MAX);
    UsedUp(inp, Lex(inp, k + 1), q);
    if m.key == "messages" {
      MessagesRead(inp, k + 1, m.value, c.messages);
      var r := MessagesValue(inp, Lex(inp, k + 1), c.messages);
      if r.Some? && MemberFolded(m, c).None? { D.StuckFails(inp, r.value.0, []); }
    } else if m.key in SCALARS {
      ScalarType(c, m.key, FirstToken(m.value));
    }
  }

  lemma Names()
    ensures "messages" !in SCALARS
    ensures forall k :: k in CHAT_NAMES <==> k == "messages" || k in SCALARS
    ensures forall i :: 0 <= i < |CHAT_NAMES| ==> |CHAT_NAMES[i]| < KEY_MAX
  {
  }

  lemma ScalarType(c: Request, key: string, t: Token)
    ensures ScalarField(c, key, t).Some? ==> t.Str? || t.Num? || t == True || t == False
    ensures ScalarField(c, key, t).Some? ==> ScalarField(c, key, t).value.messages == c.messages
  {
  }

  lemma StuckChat(inp: string, st: State, c: Request)
    requires D.StuckAt(inp, st) && |c.messages| <= MAX_CHAT_MESSAGES
    ensures ChatRounds(inp, st, c) == None
  {
    hide Lex;
  }

  lemma FoldedSize(m: Member, c: Request)
    requires |c.messages| <= MAX_CHAT_MESSAGES
    ensures MemberFolded(m, c).Some? ==> |MemberFolded(m, c).value.messages| <= MAX_CHAT_MESSAGES
  {
    hide ScalarField;
    ScalarType(c, m.key, FirstToken(m.value));
  }

  lemma KeysTail(members: seq<Member>)
    requires PlainKeys(members) && members != []
    ensures PlainMembers(members) && PlainKeys(members[1..])
    ensures members[0].value.JArray? ==> PlainItems(members[0].value.items)
  {
    hide PlainItems;
  }

  lemma {:induction false} ChatRoundsFold(inp: string, p: nat, members: seq<Member>, c: Request)
    requires Holds(inp, p, MembersText(members) + "}") && WellKeyedMembers(members) && PlainKeys(members)
    requires |c.messages| <= MAX_CHAT_MESSAGES
    ensures p <= |inp| && ChatRounds(inp, Lex(inp, p), c) == ChatFolded(members, c)
    decreases |members|
  {
    hide Lex, Holds, ChatRound, MemberText, MembersText, Mark, PastComma, D.StuckAt, MemberFolded, Measure;
    hide PlainItems, Delimited;
    hide WellKeyedMembers, PlainMembers, PlainKeys, CleanKey, WellKeyed, CString;
    Within(inp, p, MembersText(members) + "}");
    if members == [] {
      NoMembers();
      MarkNames();
      ReadsMark(inp, p, '}');
    } else {
      var m, q, d := members[0], MemberEnd(p, members), MemberMark(members);
      KeysTail(members);
      MembersTail(members);
      MembersParts(inp, p, members);
      ChatRoundReads(inp, p, m, c);
      FoldedSize(m, c);
      match MemberFolded(m, c) {
        case Some(c') =>
          AfterMember(inp, q, d);
          if |members| == 1 {
            assert members[1..] == [];
          } else {
            ChatRoundsFold(inp, q + 1, members[1..], c');
          }
        case None =>
          var r := ChatRound(inp, Lex(inp, p), c);
          if r.Some? { StuckChat(inp, r.value.0, r.value.1); }
      }
    }
  }

  /** Parsing the serialisation of any object gives exactly the fold of its members; it fails exactly if a
      known field has a value of the wrong type or there are more than 32 messages in all. */
  lemma ChatReadsBack(members: seq<Member>)
    requires WellKeyedMembers(members) && PlainKeys(members)
    ensures ParsedChat(Text(JObject(members))) == ChatFolded(members, CHAT_DEFAULTS)
  {
    hide ParsedChat, ChatFolded, Text, Holds;
    ObjectText(members);
    Itself(Text(JObject(members)));
    FoldedFrom(Text(JObject(members)), members);
  }

  lemma FoldedFrom(inp: string, members: seq<Member>)
    requires Holds(inp, 0, "{" + (MembersText(members) + "}")) && WellKeyedMembers(members) && PlainKeys(members)
    ensures ParsedChat(inp) == ChatFolded(members, CHAT_DEFAULTS)
  {
    hide Lex, ParsedChat, ChatRounds, ChatFolded, WellKeyedMembers, Holds, PlainKeys;
    HoldsParts(inp, 0, "{", MembersText(members) + "}");
    MarkReadsBack(inp, 0, '{');
    ChatRoundsFold(inp, 1, members, CHAT_DEFAULTS);
    AfterBrace(inp);
  }

  lemma AfterBrace(inp: string)
    requires 1 <= |inp| && Lex(inp, 0) == State(Mark('{'), 1)
    ensures ParsedChat(inp) == ChatRounds(inp, Lex(inp, 1), CHAT_DEFAULTS)
  {
    hide Lex, ChatRounds;
  }

  // ---------------------------------------------------------------- the parser as it runs

  class ChatRequest {
    const roles: array<string>
    const contents: array<string>
    var messageCount: nat
    var model: string
    var maxTokens: int
    var temperature: real
    var topP: real
    var stream: bool

    ghost predicate Valid()
      reads this
    {
      roles.Length == contents.Length == MAX_CHAT_MESSAGES && roles != contents && messageCount <= MAX_CHAT_MESSAGES
    }

    ghost function Messages(n: nat): (ms: seq<Message>)
      requires roles.Length == contents.Length && n <= roles.Length
      reads roles, contents
      ensures |ms| == n
    {
      seq(n, i requires 0 <= i < n <= roles.Length && roles.Length == contents.Length reads roles, contents =>
        Message(roles[i], contents[i]))
    }

    ghost function Fields(): (c: Request)
      requires Valid()
      reads this, roles, contents
      ensures |c.messages| <= MAX_CHAT_MESSAGES
    {
      Request.Request(Messages(messageCount), model, maxTokens, temperature, topP, stream)
    }

    constructor ()
      ensures Valid() && Fields() == CHAT_DEFAULTS && fresh(roles) && fresh(contents)
    {
      roles := new string[MAX_CHAT_MESSAGES](_ => "");
      contents := new string[MAX_CHAT_MESSAGES](_ => "");
      messageCount := 0;
      model, maxTokens, temperature, topP, stream := "", 64, 0.8, 0.95, false;
    }

    /** Another buffer than those of the messages. */
    ghost predicate Apart(p: Parser) {
      roles as object != p.stringBuf && contents as object != p.stringBuf
    }

    /** The message being read. */
    ghost function Current(): Message
      requires Valid() && messageCount < MAX_CHAT_MESSAGES
      reads this, roles, contents
    {
      Message(roles[messageCount], contents[messageCount])
    }

    /** The role or the content of the message. */
    method ParseField(p: Parser, key: string) returns (ok: bool)
      requires p.Valid() && Valid() && Apart(p) && messageCount < MAX_CHAT_MESSAGES && InMessage(key)
      modifies roles, contents, p, p.stringBuf
      ensures p.Valid() && Messages(messageCount) == old(Messages(messageCount))
      ensures ok == MessageField(old(Current()), key, old(p.Current())).Some?
      ensures ok ==> Current() == MessageField(old(Current()), key, old(p.Current())).value
      ensures ok ==> p.At() == Next(p.input, old(p.At()))
    {
      hide Lex, Copied, Parser.Current;
      var text;
      if key == "role" {
        ok, text := p.ParseString(ROLE_MAX);
        if !ok { return; }
        roles[messageCount] := text;
      } else {
        ok, text := p.ParseString(PROMPT_MAX);
        if !ok { return; }
        contents[messageCount] := text;
      }
    }

    /** One round of the loop over the members of a message. */
    method ParseMessageMember(p: Parser) returns (ok: bool)
      requires p.Valid() && Valid() && Apart(p) && messageCount < MAX_CHAT_MESSAGES
      modifies roles, contents, p, p.stringBuf
      ensures p.Valid() && Messages(messageCount) == old(Messages(messageCount))
      ensures ok == MessageRound(p.input, old(p.At()), old(Current())).Some?
      ensures ok ==> MessageRound(p.input, old(p.At()), old(Current())).value == (p.At(), Current())
    {
      hide Lex, Copied, Measure, JsonLexer.SkipValue, Parser.Current, MessageField, InMessage, Messages;
      var key;
      ok, key := p.ParseString(MESSAGE_KEY_MAX);
      if !ok { return; }
      p.KindIs();
      if p.kind != TokColon { return false; }
      p.NextToken();
      if InMessage(key) {
        ok := ParseField(p, key);
        if !ok { return; }
      } else {
        var r := p.SkipValue();
        ok := r == 0;
        if !ok { return; }
      }
      p.KindIs();
      if p.kind == TokComma { p.NextToken(); }
    }

    /** The members of a message, up to its closing brace or the end of the text. */
    method ParseMessage(p: Parser) returns (ok: bool)
      requires p.Valid() && Valid() && Apart(p) && messageCount < MAX_CHAT_MESSAGES
      modifies roles, contents, p, p.stringBuf
      ensures p.Valid() && Messages(messageCount) == old(Messages(messageCount))
      ensures ok == MessageRounds(p.input, old(p.At()), NO_MESSAGE).Some?
      ensures ok ==> MessageRounds(p.input, old(p.At()), NO_MESSAGE).value == (p.At(), Current())
    {
      hide Lex, Measure, MessageRound;
      ghost var before, start := Messages(messageCount), MessageRounds(p.input, p.At(), NO_MESSAGE);
      roles[messageCount] := "";
      contents[messageCount] := "";
      while p.kind != TokRBrace && p.kind != TokEof
        invariant p.Valid() && Messages(messageCount) == before
        invariant start == MessageRounds(p.input, p.At(), Current())
        decreases Measure(p.input, p.At())
      {
        ok := ParseMessageMember(p);
        if !ok { return; }
      }
      ok := true;
    }

    /** One round of the loop over the messages. */
    method ParseListRound(p: Parser) returns (ok: bool)
      requires p.Valid() && Valid() && Apart(p) && messageCount < MAX_CHAT_MESSAGES
      modifies `messageCount, roles, contents, p, p.stringBuf
      ensures p.Valid() && Valid()
      ensures ok == ListRound(p.input, old(p.At()), old(Messages(messageCount))).Some?
      ensures var v := ListRound(p.input, old(p.At()), old(Messages(messageCount)));
        ok ==> v.value == (p.At(), Messages(messageCount))
    {
      hide Lex, Measure, MessageRounds;
      if p.kind != TokLBrace { return false; }
      p.NextToken();
      ghost var before := Messages(messageCount);
      ok := ParseMessage(p);
      if !ok { return; }
      if p.kind == TokRBrace {
        p.NextToken();
        messageCount := messageCount + 1;
        assert Messages(messageCount) == before + [Message(roles[messageCount - 1], contents[messageCount - 1])];
      }
      p.KindIs();
      if p.kind == TokComma { p.NextToken(); }
    }

    /** The array of messages. */
    method ParseMessages(p: Parser) returns (ok: bool)
      requires p.Valid() && Valid() && Apart(p)
      modifies `messageCount, roles, contents, p, p.stringBuf
      ensures p.Valid() && Valid()
      ensures ok == MessagesValue(p.input, old(p.At()), old(Messages(messageCount))).Some?
      ensures var v := MessagesValue(p.input, old(p.At()), old(Messages(messageCount)));
        ok ==> v.value == (p.At(), Messages(messageCount))
    {
      hide Lex, Measure, ListRound;
      if p.kind != TokLBracket { return false; }
      p.NextToken();
      ghost var start := MessageList(p.input, p.At(), Messages(messageCount));
      while p.kind != TokRBracket && p.kind != TokEof
        invariant p.Valid() && Valid()
        invariant start == MessageList(p.input, p.At(), Messages(messageCount))
        decreases Measure(p.input, p.At())
      {
        if messageCount >= MAX_CHAT_MESSAGES { break; }
        ok := ParseListRound(p);
        if !ok { return; }
      }
      ListEnds(p.input, p.At(), Messages(messageCount));
      if p.kind == TokRBracket { p.NextToken(); }
      ok := true;
    }

    /** The scalar fields. */
    method ParseScalar(p: Parser, key: string) returns (ok: bool)
      requires p.Valid() && Valid() && Apart(p) && key in SCALARS
      modifies `model, `maxTokens, `temperature, `topP, `stream, p, p.stringBuf
      ensures p.Valid()
      ensures ok == ScalarField(old(Fields()), key, old(p.Current())).Some?
      ensures ok ==> Fields() == ScalarField(old(Fields()), key, old(p.Current())).value
      ensures ok ==> p.At() == Next(p.input, old(p.At()))
    {
      hide Lex, Copied, Truncated, Messages;
      var text, number, whole, flag;
      if key == "model" {
        ok, text := p.ParseString(MODEL_MAX);
        model := text;
      } else if key == "max_tokens" {
        ok, whole := p.ParseInt();
        maxTokens := whole;
        if maxTokens < 0 || maxTokens > MAX_GENERATION_TOKENS {
          maxTokens := MAX_GENERATION_TOKENS;
        }
      } else if key == "temperature" {
        ok, number := p.ParseNumber();
        temperature := number;
      } else if key == "top_p" {
        ok, number := p.ParseNumber();
        topP := number;
      } else {
        ok, flag := p.ParseBool();
        stream := flag;
      }
    }

    /** One round of the outer loop. */
    method ParseMember(p: Parser) returns (ok: bool)
      requires p.Valid() && Valid() && Apart(p)
      modifies this, roles, contents, p, p.stringBuf
      ensures p.Valid() && Valid()
      ensures ok == ChatRound(p.input, old(p.At()), old(Fields())).Some?
      ensures ok ==> ChatRound(p.input, old(p.At()), old(Fields())).value == (p.At(), Fields())
    {
      hide Lex, Copied, Measure, MessagesValue, ScalarField, Messages, JsonLexer.SkipValue, Parser.Current;
      var key;
      ok, key := p.ParseString(KEY_MAX);
      if !ok { return; }
      p.KindIs();
      if p.kind != TokColon { return false; }
      p.NextToken();
      if key == "messages" {
        ok := ParseMessages(p);
        if !ok { return; }
      } else if key in SCALARS {
        ok := ParseScalar(p, key);
        if !ok { return; }
      } else {
        var r := p.SkipValue();
        ok := r == 0;
        if !ok { return; }
      }
      p.KindIs();
      if p.kind == TokComma { p.NextToken(); }
    }
  }

  /** 0 with the request filled in, never more messages than its array holds, or -1; whatever the text, the
      loops end. */
  method ParseChatRequest(body: string) returns (r: int, req: ChatRequest)
    ensures r == if ParsedChat(body).Some? then 0 else -1
    ensures req.Valid() && fresh(req)
    ensures r == 0 ==> ParsedChat(body) == Some(req.Fields())
  {
    hide Lex, ChatRound, Measure;
    req := new ChatRequest();
    var p := new Parser(body);
    p.NextToken();
    if p.kind != TokLBrace {
      return -1, req;
    }
    p.NextToken();
    while p.kind != TokRBrace && p.kind != TokEof
      invariant p.Valid() && p.input == body && fresh(p) && fresh(p.stringBuf)
      invariant req.Valid() && fresh(req) && fresh(req.roles) && fresh(req.contents) && req.Apart(p)
      invariant ChatRounds(body, p.At(), req.Fields()) == ParsedChat(body)
      decreases Measure(body, p.At())
    {
      var ok := req.ParseMember(p);
      if !ok {
        return -1, req;
      }
    }
    r := 0;
  }
}
