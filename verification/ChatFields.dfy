/** Which field of a request each name fills, on every JSON text: chat requests and their messages. */
module ChatFields {
  import opened Chat
  import C = Completion
  import D = Detokenize
  import opened Format
  import opened JsonLexer
  import opened JsonLiterals
  import JsonRoundTrip
  import opened JsonSpaces
  import opened JsonValues
  import opened Options
  import opened RequestFields

  // ---------------------------------------------------------------- one message

  predicate BadField(f: Field) { NotString(f, "role") || NotString(f, "content") }

  /** An object in which no role and no content is anything but a string. */
  predicate GoodMessage(v: Value) {
    v.VObject? && forall f :: f in v.fields ==> !BadField(f)
  }

  function MessageFilled(fields: seq<Field>, m: Message): Message {
    Message(TextNamed(fields, "role", 15, m.role), TextNamed(fields, "content", 4095, m.content))
  }

  /** The last role and the last content of an object. */
  function MessageMeant(v: Value): Message {
    if v.VObject? then MessageFilled(v.fields, Message("", "")) else Message("", "")
  }

  lemma MessageKey(f: Field)
    ensures Copied(f.name, MESSAGE_KEY_MAX) == "role" <==> Named(f, "role")
    ensures Copied(f.name, MESSAGE_KEY_MAX) == "content" <==> Named(f, "content")
  {
    hide Copied, Named;
    assert CString("role") && CString("content");
    NamedIs(f, "role", MESSAGE_KEY_MAX);
    NamedIs(f, "content", MESSAGE_KEY_MAX);
  }

  lemma MessageFieldReads(s: string, st: State, fields: seq<Field>, closed: bool, rest: seq<Token>, m: Message)
    requires fields != [] && Comes(s, st, FieldTokens(fields, closed), rest) && st.pos <= |s|
    requires FieldsShaped(fields, !closed) && (!closed ==> rest == [Eof])
    ensures var v := MessageRound(s, st, m);
      if BadField(fields[0]) then v == None
      else v.Some? && v.value.1 == MessageFilled([fields[0]], m)
           && Comes(s, v.value.0, FieldTokens(fields[1..], closed), rest)
  {
    hide Lex, Ahead, Comes, Named, FieldTokens, ValueTokens, FieldsBehind, Copied, SkipValue, LastNamed;
    hide Shaped, FieldsShaped;
    var f, behind := fields[0], FieldsBehind(fields, closed) + rest;
    var key := Copied(f.name, MESSAGE_KEY_MAX);
    var at := Next(s, Next(s, st));
    FieldComes(s, st, fields, closed, rest);
    FieldShaped(fields, closed, rest);
    MessageKey(f);
    LastNamedOne(f, "role");
    LastNamedOne(f, "content");
    Start(s, at, f.value, behind);
    FirstTokenIs(f.value);
    if !InMessage(key) {
      SkipsValue(s, at, f.value, behind);
      FieldPassed(s, SkipValue(s, at).0, fields, closed, rest);
    } else if f.value.VString? {
      SingleComes(s, at, f.value, behind);
      FieldPassed(s, Next(s, at), fields, closed, rest);
    }
  }

  lemma MessageFirst(fields: seq<Field>, m: Message)
    requires fields != [] && forall f :: f in fields ==> !BadField(f)
    ensures MessageFilled(fields, m) == MessageFilled(fields[1..], MessageFilled([fields[0]], m))
  {
    hide TextNamed, NotString;
    TextFirst(fields, "role", 15, m.role);
    TextFirst(fields, "content", 4095, m.content);
  }

  /** The loop stops at the closing brace or at the end. */
  lemma {:induction false} MessageFills(s: string, st: State, fields: seq<Field>, closed: bool, rest: seq<Token>,
                                        m: Message)
    requires Comes(s, st, FieldTokens(fields, closed), rest) && st.pos <= |s|
    requires FieldsShaped(fields, !closed) && (!closed ==> rest == [Eof])
    ensures var v := MessageRounds(s, st, m);
      if forall f :: f in fields ==> !BadField(f) then
        v.Some? && v.value.1 == MessageFilled(fields, m) && v.value.0.tok == (if closed then RBrace else Eof)
        && Comes(s, if closed then Next(s, v.value.0) else v.value.0, [], rest)
      else v == None
    decreases |fields|
  {
    hide Lex, Ahead, Comes, BadField, MessageFilled, FieldTokens, MessageRound, FieldsShaped;
    if fields == [] {
      FieldsEnd(s, st, closed, rest);
      NoMessageFields(m);
    } else {
      FieldComes(s, st, fields, closed, rest);
      FieldShaped(fields, closed, rest);
      MessageFieldReads(s, st, fields, closed, rest, m);
      assert fields == [fields[0]] + fields[1..];
      if !BadField(fields[0]) {
        MessageFills(s, MessageRound(s, st, m).value.0, fields[1..], closed, rest, MessageFilled([fields[0]], m));
        if forall f :: f in fields[1..] ==> !BadField(f) { MessageFirst(fields, m); }
      }
    }
  }

  lemma NoMessageFields(m: Message)
    ensures MessageFilled([], m) == m
  {
  }

  // ---------------------------------------------------------------- arrays of messages

  /** A message that the text breaks off does not count. */
  function ItemMessages(v: Value): seq<Message> {
    if v.VObject? && !v.closed then [] else [MessageMeant(v)]
  }

  function MessagesMeant(items: seq<Item>): seq<Message> {
    if items == [] then [] else ItemMessages(items[0].value) + MessagesMeant(items[1..])
  }

  predicate GoodMessages(items: seq<Item>) {
    forall x :: x in items ==> GoodMessage(x.value)
  }

  lemma ItemReads(s: string, st: State, items: seq<Item>, closed: bool, rest: seq<Token>, ms: seq<Message>)
    requires items != [] && Comes(s, st, ItemTokens(items, closed), rest) && st.pos <= |s|
    requires ItemsShaped(items, !closed) && (!closed ==> rest == [Eof]) && |ms| < MAX_CHAT_MESSAGES
    ensures var v := ListRound(s, st, ms);
      if GoodMessage(items[0].value) then
        v.Some? && v.value.1 == ms + ItemMessages(items[0].value)
        && Comes(s, v.value.0, ItemTokens(items[1..], closed), rest)
      else v == None
  {
    hide Lex, Ahead, Comes, BadField, MessageFilled, ItemTokens, FieldTokens, ItemsBehind, MessageRounds, FieldsShaped;
    hide ItemsShaped;
    var v, behind := items[0].value, ItemsBehind(items, closed) + rest;
    ItemComes(s, st, items, closed, rest);
    ItemShaped(items, closed, rest);
    FirstIsBrace(v);
    if v.VObject? {
      ObjectComes(s, st, v.fields, v.closed, behind);
      MessageFills(s, Next(s, st), v.fields, v.closed, behind, NO_MESSAGE);
      var r := MessageRounds(s, Next(s, st), NO_MESSAGE);
      if r.Some? { ItemPassed(s, if v.closed then Next(s, r.value.0) else r.value.0, items, closed, rest); }
      assert ms + [] == ms;
    }
  }

  lemma FirstIsBrace(v: Value)
    ensures ValueTokens(v) != [] && (ValueTokens(v)[0] == LBrace <==> v.VObject?)
    ensures ValueTokens(v)[0] == LBracket <==> v.VArray?
  {
  }

  /** At an item the loop over the fields of the request cannot go on. */
  lemma ItemStuck(s: string, st: State, items: seq<Item>, closed: bool, rest: seq<Token>)
    requires items != [] && Comes(s, st, ItemTokens(items, closed), rest) && (!closed ==> rest == [Eof])
    ensures D.StuckAt(s, st)
  {
    hide Lex, Ahead, Comes, ItemTokens;
    var v, behind := items[0].value, ItemsBehind(items, closed) + rest;
    ItemComes(s, st, items, closed, rest);
    StartsAny(v);
    if v.VString? {
      SingleComes(s, st, v, behind);
      BehindNow(s, Next(s, st), items, closed, rest);
    }
  }

  lemma StartsAny(v: Value)
    ensures ValueTokens(v) != [] && JsonRoundTrip.StartsValue(ValueTokens(v)[0])
    ensures ValueTokens(v)[0].Str? <==> v.VString?
  {
  }

  lemma BehindNow(s: string, st: State, items: seq<Item>, closed: bool, rest: seq<Token>)
    requires items != [] && Comes(s, st, [], ItemsBehind(items, closed) + rest) && rest != []
    requires !closed ==> rest == [Eof]
    ensures st.tok != Colon
  {
    hide Ahead, ItemTokens;
    Now(s, st, [], ItemsBehind(items, closed) + rest);
    ItemsBegin(items[1..], closed, rest);
    if !items[0].comma { assert ItemsBehind(items, closed) + rest == ItemTokens(items[1..], closed) + rest; }
  }

  lemma {:induction false} ItemsFill(s: string, st: State, items: seq<Item>, closed: bool, rest: seq<Token>,
                                     ms: seq<Message>)
    requires Comes(s, st, ItemTokens(items, closed), rest) && st.pos <= |s| && |ms| <= MAX_CHAT_MESSAGES
    requires ItemsShaped(items, !closed) && (!closed ==> rest == [Eof])
    ensures var v := MessageList(s, st, ms);
      if GoodMessages(items) && |ms| + |items| <= 32 then
        v.Some? && v.value.1 == ms + MessagesMeant(items) && v.value.0.tok == (if closed then RBracket else Eof)
        && Comes(s, if closed then Next(s, v.value.0) else v.value.0, [], rest)
      else v == None || D.StuckAt(s, v.value.0)
    decreases |items|
  {
    hide Lex, Ahead, Comes, GoodMessage, ItemMessages, ItemTokens, ListRound, D.StuckAt, ItemsShaped;
    if items == [] {
      ItemsEnd(s, st, closed, rest);
      assert ms + [] == ms;
    } else {
      ItemComes(s, st, items, closed, rest);
      if |ms| == MAX_CHAT_MESSAGES {
        ItemStuck(s, st, items, closed, rest);
      } else {
        ItemReads(s, st, items, closed, rest, ms);
        ItemShaped(items, closed, rest);
        OneOrNone(items, closed);
        assert items == [items[0]] + items[1..];
        if GoodMessage(items[0].value) {
          ItemsFill(s, ListRound(s, st, ms).value.0, items[1..], closed, rest, ms + ItemMessages(items[0].value));
          assert ms + MessagesMeant(items) == ms + ItemMessages(items[0].value) + MessagesMeant(items[1..]);
        }
      }
    }
  }

  /** Only the last item can be broken off. */
  lemma OneOrNone(items: seq<Item>, closed: bool)
    requires items != [] && ItemsShaped(items, !closed)
    ensures |ItemMessages(items[0].value)| <= 1
    ensures |items| > 1 ==> |ItemMessages(items[0].value)| == 1
  {
    hide MessageMeant;
  }

  /** The value of a field called messages. */
  lemma ArrayFills(s: string, st: State, v: Value, rest: seq<Token>, ms: seq<Message>)
    requires Comes(s, st, ValueTokens(v), rest) && st.pos <= |s| && |ms| <= MAX_CHAT_MESSAGES
    requires Shaped(v, rest == [Eof])
    ensures var r := MessagesValue(s, st, ms);
      if v.VArray? && GoodMessages(v.items) && |ms| + |v.items| <= 32 then
        r.Some? && r.value.1 == ms + MessagesMeant(v.items) && Comes(s, r.value.0, [], rest)
      else r == None || D.StuckAt(s, r.value.0)
  {
    hide Lex, Ahead, Comes, GoodMessages, MessagesMeant, ItemTokens, MessageList, D.StuckAt, ItemsShaped;
    Start(s, st, v, rest);
    FirstIsBrace(v);
    if v.VArray? {
      ArrayComes(s, st, v.items, v.closed, rest);
      ItemsFill(s, Next(s, st), v.items, v.closed, rest, ms);
      var r := MessageList(s, Next(s, st), ms);
      if r.Some? && D.StuckAt(s, r.value.0) { D.StuckFails(s, r.value.0, []); }
    }
  }

  // ---------------------------------------------------------------- chat requests

  /** The field has one of the names and a value of another type. */
  predicate ChatMalformed(f: Field) {
    || NotString(f, "model") || NotNumber(f, "max_tokens") || NotNumber(f, "temperature") || NotNumber(f, "top_p")
    || NotBool(f, "stream") || (Named(f, "messages") && !(f.value.VArray? && GoodMessages(f.value.items)))
  }

  predicate NoneChatMalformed(fields: seq<Field>) {
    forall f :: f in fields ==> !ChatMalformed(f)
  }

  function FieldMessages(f: Field): seq<Message> {
    if Named(f, "messages") && f.value.VArray? then MessagesMeant(f.value.items) else []
  }

  /** The messages of all fields called messages, one after the other. */
  function AllMessages(fields: seq<Field>): seq<Message> {
    if fields == [] then [] else FieldMessages(fields[0]) + AllMessages(fields[1..])
  }

  function FieldItems(f: Field): nat {
    if Named(f, "messages") && f.value.VArray? then |f.value.items| else 0
  }

  /** How many messages there are in them, one that is broken off included. */
  function CountItems(fields: seq<Field>): nat {
    if fields == [] then 0 else FieldItems(fields[0]) + CountItems(fields[1..])
  }

  lemma {:induction false} NoMoreMessages(items: seq<Item>)
    ensures |MessagesMeant(items)| <= |items|
  {
    if items != [] { NoMoreMessages(items[1..]); }
  }

  /** Where something is broken off, nothing follows. */
  lemma {:induction false} MessagesCounted(items: seq<Item>)
    requires ItemsShaped(items, false)
    ensures |MessagesMeant(items)| == |items|
  {
    if items != [] { MessagesCounted(items[1..]); }
  }

  function ChatFilled(fields: seq<Field>, c: Request): Request {
    Request(c.messages + AllMessages(fields), TextNamed(fields, "model", 63, c.model),
            LimitNamed(fields, "max_tokens", c.maxTokens), NumberNamed(fields, "temperature", c.temperature),
            NumberNamed(fields, "top_p", c.topP), BoolNamed(fields, "stream", c.stream))
  }

  lemma ChatFirst(fields: seq<Field>, c: Request)
    requires fields != [] && NoneChatMalformed(fields)
    ensures ChatFilled(fields, c) == ChatFilled(fields[1..], ChatFilled([fields[0]], c))
  {
    hide LastNamed, TextNamed, NumberNamed, BoolNamed, LimitNamed, NotString, NotNumber, NotBool;
    hide FieldMessages, GoodMessages;
    TextFirst(fields, "model", 63, c.model);
    NumberFirst(fields, "max_tokens", 0.0, c.maxTokens);
    NumberFirst(fields, "temperature", c.temperature, 0);
    NumberFirst(fields, "top_p", c.topP, 0);
    BoolFirst(fields, "stream", c.stream);
    OneField(fields[0]);
    assert c.messages + AllMessages(fields)
        == c.messages + FieldMessages(fields[0]) + AllMessages(fields[1..]);
  }

  lemma OneField(f: Field)
    ensures AllMessages([f]) == FieldMessages(f)
  {
    assert [f][1..] == [];
  }

  /** The same for a single field with its key as the parser compares it. */
  function ChatFilledOne(f: Field, c: Request): Request {
    var x := if f.value.VNumber? then f.value.x else 0.0;
    var i := Truncated(x);
    var s, n, b := f.value.VString?, f.value.VNumber?, f.value.VBool?;
    var text, yes := if s then f.value.text else "", b && f.value.b;
    Request(
      c.messages + FieldMessages(f),
      if s && Named(f, "model") then Copied(text, 63) else c.model,
      if n && Named(f, "max_tokens") then if 0 <= i <= 512 then i else 512 else c.maxTokens,
      if n && Named(f, "temperature") then x else c.temperature,
      if n && Named(f, "top_p") then x else c.topP,
      if b && Named(f, "stream") then yes else c.stream)
  }

  lemma ChatFilledIs(f: Field, c: Request)
    ensures ChatFilled([f], c) == ChatFilledOne(f, c)
  {
    hide Named, LastNamed, Copied, Truncated, FieldMessages, TextNamed, NumberNamed, BoolNamed, LimitNamed;
    TextOne(f, "model", 63, c.model);
    NumberOne(f, "max_tokens", 0.0, c.maxTokens);
    NumberOne(f, "temperature", c.temperature, 0);
    NumberOne(f, "top_p", c.topP, 0);
    BoolOne(f, "stream", c.stream);
    OneField(f);
  }

  predicate ChatNamesAre(f: Field, key: string) {
    && (Named(f, "messages") <==> key == "messages") && (Named(f, "model") <==> key == "model")
    && (Named(f, "max_tokens") <==> key == "max_tokens") && (Named(f, "temperature") <==> key == "temperature")
    && (Named(f, "top_p") <==> key == "top_p") && (Named(f, "stream") <==> key == "stream")
  }

  lemma ChatKeyNamed(f: Field)
    ensures ChatNamesAre(f, Copied(f.name, C.KEY_MAX))
  {
    hide Copied, Named;
    assert CString("messages");
    NamedIs(f, "messages", C.KEY_MAX);
    KeyNames(f, "model"); KeyNames(f, "max_tokens"); KeyNames(f, "temperature");
    KeyNames(f, "top_p"); KeyNames(f, "stream");
  }

  /** A field that fills no list of messages. */
  lemma ScalarMeans(f: Field, c: Request, key: string)
    requires ChatNamesAre(f, key) && key != "messages" && ValueTokens(f.value) != []
    ensures key in SCALARS ==>
              ScalarField(c, key, ValueTokens(f.value)[0]) ==
              if ChatMalformed(f) then None else Some(ChatFilledOne(f, c))
    ensures key !in SCALARS ==> !ChatMalformed(f) && ChatFilledOne(f, c) == c
  {
    hide Copied, Named, Truncated, MessagesMeant, GoodMessages;
    FirstTokenIs(f.value);
    assert c.messages + [] == c.messages;
  }

  lemma MessagesMean(f: Field, c: Request, key: string)
    requires ChatNamesAre(f, key) && key == "messages"
    ensures ChatMalformed(f) <==> !(f.value.VArray? && GoodMessages(f.value.items))
    ensures ChatFilledOne(f, c) ==
            c.(messages := c.messages + if f.value.VArray? then MessagesMeant(f.value.items) else [])
  {
    hide Copied, Named, Truncated, MessagesMeant, GoodMessages;
  }

  predicate Fits(f: Field, c: Request) {
    |c.messages| + FieldItems(f) <= 32
  }

  lemma ChatFieldReads(s: string, st: State, fields: seq<Field>, closed: bool, rest: seq<Token>, c: Request)
    requires fields != [] && Comes(s, st, FieldTokens(fields, closed), rest) && st.pos <= |s|
    requires FieldsShaped(fields, !closed) && (!closed ==> rest == [Eof]) && |c.messages| <= MAX_CHAT_MESSAGES
    ensures var v := ChatRound(s, st, c);
      if !ChatMalformed(fields[0]) && Fits(fields[0], c) then
        v.Some? && v.value.1 == ChatFilled([fields[0]], c)
        && Comes(s, v.value.0, FieldTokens(fields[1..], closed), rest)
      else v == None || D.StuckAt(s, v.value.0)
  {
    hide Lex, Ahead, Comes, ChatMalformed, ChatFilled, FieldTokens, ValueTokens, FieldsBehind, Copied, SkipValue;
    hide D.StuckAt, Shaped, FieldsShaped;
    hide ChatNamesAre, ChatFilledOne, ScalarField, MessagesValue, Fits, GoodMessages, MessagesMeant, SCALARS;
    var f, behind := fields[0], FieldsBehind(fields, closed) + rest;
    var key := Copied(f.name, C.KEY_MAX);
    var at := Next(s, Next(s, st));
    FieldComes(s, st, fields, closed, rest);
    FieldShaped(fields, closed, rest);
    ChatKeyNamed(f);
    ChatFilledIs(f, c);
    Start(s, at, f.value, behind);
    FitsIs(f, c, key);
    if key == "messages" {
      MessagesMean(f, c, key);
      ArrayFills(s, at, f.value, behind, c.messages);
      var r := MessagesValue(s, at, c.messages);
      if !ChatMalformed(f) && Fits(f, c) {
        FieldPassed(s, r.value.0, fields, closed, rest);
      } else if r.Some? {
        D.StuckFails(s, r.value.0, []);
      }
    } else {
      ScalarMeans(f, c, key);
      if key !in SCALARS {
        SkipsValue(s, at, f.value, behind);
        FieldPassed(s, SkipValue(s, at).0, fields, closed, rest);
      } else if !ChatMalformed(f) {
        ScalarType(c, key, ValueTokens(f.value)[0]);
        SingleComes(s, at, f.value, behind);
        FieldPassed(s, Next(s, at), fields, closed, rest);
      }
    }
  }

  lemma FitsIs(f: Field, c: Request, key: string)
    requires ChatNamesAre(f, key) && |c.messages| <= MAX_CHAT_MESSAGES
    ensures key != "messages" ==> Fits(f, c)
    ensures key == "messages" && f.value.VArray? ==> (Fits(f, c) <==> |c.messages| + |f.value.items| <= 32)
  {
    hide Named;
  }

  lemma {:induction false} ChatFieldsFill(s: string, st: State, fields: seq<Field>, closed: bool, rest: seq<Token>,
                                          c: Request)
    requires Comes(s, st, FieldTokens(fields, closed), rest) && st.pos <= |s| && |c.messages| <= MAX_CHAT_MESSAGES
    requires FieldsShaped(fields, !closed) && (!closed ==> rest == [Eof])
    ensures ChatRounds(s, st, c) ==
            if NoneChatMalformed(fields) && |c.messages| + CountItems(fields) <= 32 then Some(ChatFilled(fields, c))
            else None
    decreases |fields|
  {
    hide Lex, Ahead, Comes, ChatMalformed, ChatFilled, FieldTokens, ChatRound, D.StuckAt, FieldMessages, FieldItems;
    hide FieldsShaped;
    if fields == [] {
      FieldsEnd(s, st, closed, rest);
      NoChatFields(c);
    } else {
      FieldComes(s, st, fields, closed, rest);
      FieldShaped(fields, closed, rest);
      ChatFieldReads(s, st, fields, closed, rest, c);
      assert fields == [fields[0]] + fields[1..];
      var v := ChatRound(s, st, c);
      if !ChatMalformed(fields[0]) && Fits(fields[0], c) {
        FilledMessages(fields, closed, c);
        ChatFieldsFill(s, v.value.0, fields[1..], closed, rest, v.value.1);
        if NoneChatMalformed(fields[1..]) { ChatFirst(fields, c); }
      } else if v.Some? {
        StuckChat(s, v.value.0, v.value.1);
      }
    }
  }

  /** As many messages as items, unless the last one is broken off and nothing follows. */
  lemma FilledMessages(fields: seq<Field>, closed: bool, c: Request)
    requires fields != [] && FieldsShaped(fields, !closed) && Fits(fields[0], c)
    ensures var ms := ChatFilled([fields[0]], c).messages;
      && |ms| <= 32
      && (|ms| + CountItems(fields[1..]) <= 32 <==> |c.messages| + CountItems(fields) <= 32)
  {
    hide Named, Shaped, MessagesMeant;
    var f := fields[0];
    OneField(f);
    if f.value.VArray? {
      NoMoreMessages(f.value.items);
      if |fields| > 1 { NotBroken(fields, closed); } else { assert fields[1..] == []; }
    }
  }

  lemma NotBroken(fields: seq<Field>, closed: bool)
    requires |fields| > 1 && FieldsShaped(fields, !closed) && fields[0].value.VArray?
    ensures |MessagesMeant(fields[0].value.items)| == |fields[0].value.items|
  {
    hide MessagesMeant;
    MessagesCounted(fields[0].value.items);
  }

  lemma NoChatFields(c: Request)
    ensures ChatFilled([], c) == c && NoneChatMalformed([])
  {
    assert c.messages + [] == c.messages;
  }

  /** A chat request in any JSON text, whatever stands behind it: it is rejected exactly if some field with one of the
      names has a value of the wrong type or there are more than 32 messages in all; otherwise the messages are those of
      all its arrays, in order, and each other field is the last value given for it, or its default. */
  lemma ChatFieldsMeant(s: string, fields: seq<Field>, closed: bool, rest: seq<Token>)
    requires HasObject(s, fields, closed, rest)
    ensures ParsedChat(s) == None <==> (exists f :: f in fields && ChatMalformed(f)) || CountItems(fields) > 32
    ensures ParsedChat(s).Some? ==>
              var c := ParsedChat(s).value;
              && c.messages == AllMessages(fields) && c.model == TextNamed(fields, "model", 63, "")
              && c.maxTokens == LimitNamed(fields, "max_tokens", 64)
              && c.temperature == NumberNamed(fields, "temperature", 0.8)
              && c.topP == NumberNamed(fields, "top_p", 0.95) && c.stream == BoolNamed(fields, "stream", false)
  {
    hide Lex, Ahead, Comes, ChatRounds, FieldTokens, FieldsShaped, HasObject, ChatMalformed, AllMessages, CountItems;
    hide TextNamed, NumberNamed, BoolNamed, LimitNamed;
    ObjectOpens(s, fields, closed, rest);
    ChatFieldsFill(s, Next(s, Lex(s, 0)), fields, closed, rest, CHAT_DEFAULTS);
    assert [] + AllMessages(fields) == AllMessages(fields);
  }
}
