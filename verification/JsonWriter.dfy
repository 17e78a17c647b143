/** json_writer_t with its one needs_comma flag, and the recursive serialisation it amounts to. */
module JsonWriter {
  import opened Format
  import opened JsonLexer

  datatype Json =
    | JString(s: string)
    | JInt(i: sint)
    | JBool(b: bool)
    | JNull
    | JArray(items: seq<Json>)
    | JObject(members: seq<Member>)

  datatype Member = Member(key: string, value: Json)

  // ---------------------------------------------------------------- the recursive serialisation

  function EscapedChar(c: char): string {
    match c
    case '"' => "\\\""
    case '\\' => "\\\\"
    case '\n' => "\\n"
    case '\r' => "\\r"
    case '\t' => "\\t"
    case _ => if c == BACKSPACE then "\\b" else if c == FORMFEED then "\\f" else if c < ' ' then "" else [c]
  }

  function Escaped(s: string): string {
    if s == [] then [] else EscapedChar(s[0]) + Escaped(s[1..])
  }

  function Quoted(s: string): string {
    "\"" + s + "\""
  }

  function Text(v: Json): string
    decreases v, 0
  {
    match v
    case JString(s) => Quoted(Escaped(s))
    case JInt(i) => SignedText(i)
    case JBool(b) => if b then "true" else "false"
    case JNull => "null"
    case JArray(items) => "[" + ElementsText(items) + "]"
    case JObject(members) => "{" + MembersText(members) + "}"
  }

  function ElementsText(items: seq<Json>): string
    decreases items, 1
  {
    if items == [] then []
    else Text(items[0]) + if |items| == 1 then [] else "," + ElementsText(items[1..])
  }

  function MembersText(members: seq<Member>): string
    decreases members, 1
  {
    if members == [] then []
    else MemberText(members[0]) + if |members| == 1 then [] else "," + MembersText(members[1..])
  }

  function MemberText(m: Member): string
    decreases m, 1
  {
    Quoted(m.key) + ":" + Text(m.value)
  }

  // ---------------------------------------------------------------- calls of the writer

  datatype Call =
    | ObjectStart | ObjectEnd | ArrayStart | ArrayEnd
    | Key(key: string) | StringValue(s: string) | IntValue(i: sint) | BoolValue(b: bool) | NullValue

  function CommaText(needsComma: bool): string { if needsComma then "," else "" }

  /** What a call puts after the comma it may need. */
  function Body(c: Call): string {
    match c
    case ObjectStart => "{"
    case ObjectEnd => "}"
    case ArrayStart => "["
    case ArrayEnd => "]"
    case Key(k) => Quoted(k) + ":"
    case StringValue(s) => Quoted(Escaped(s))
    case IntValue(i) => SignedText(i)
    case BoolValue(b) => if b then "true" else "false"
    case NullValue => "null"
  }

  predicate Closes(c: Call) { c.ObjectEnd? || c.ArrayEnd? }

  function Emitted(needsComma: bool, c: Call): string {
    (if Closes(c) then "" else CommaText(needsComma)) + Body(c)
  }

  predicate CommaAfter(c: Call) { !c.ObjectStart? && !c.ArrayStart? && !c.Key? }

  /** The text a sequence of calls writes and the flag it leaves. */
  function Output(needsComma: bool, calls: seq<Call>): (string, bool)
    decreases |calls|
  {
    if calls == [] then ([], needsComma)
    else
      var (rest, flag) := Output(CommaAfter(calls[0]), calls[1..]);
      (Emitted(needsComma, calls[0]) + rest, flag)
  }

  /** The calls that write a tree. */
  function Calls(v: Json): seq<Call>
    decreases v, 0
  {
    match v
    case JString(s) => [StringValue(s)]
    case JInt(i) => [IntValue(i)]
    case JBool(b) => [BoolValue(b)]
    case JNull => [NullValue]
    case JArray(items) => [ArrayStart] + ElementCalls(items) + [ArrayEnd]
    case JObject(members) => [ObjectStart] + MemberCalls(members) + [ObjectEnd]
  }

  function ElementCalls(items: seq<Json>): seq<Call>
    decreases items, 1
  {
    if items == [] then [] else Calls(items[0]) + ElementCalls(items[1..])
  }

  function MemberCalls(members: seq<Member>): seq<Call>
    decreases members, 1
  {
    if members == [] then []
    else var m := members[0]; [Key(m.key)] + Calls(m.value) + MemberCalls(members[1..])
  }

  /** The strings passed to the writer are C strings. */
  predicate PlainCall(c: Call) {
    (c.Key? ==> CString(c.key)) && (c.StringValue? ==> CString(c.s))
  }

  predicate PlainTree(v: Json)
    decreases v
  {
    match v
    case JString(s) => CString(s)
    case JArray(items) => forall i :: 0 <= i < |items| ==> PlainTree(items[i])
    case JObject(members) => forall i :: 0 <= i < |members| ==> CString(members[i].key) && PlainTree(members[i].value)
    case _ => true
  }

  lemma {:induction false} CallsPlain(v: Json)
    requires PlainTree(v)
    ensures forall c :: c in Calls(v) ==> PlainCall(c)
    decreases v, 0
  {
    hide PlainCall;
    match v
    case JArray(items) => ElementCallsPlain(items); Ends();
    case JObject(members) => MemberCallsPlain(members); Ends();
    case _ => LeafPlain(v);
  }

  lemma Ends()
    ensures PlainCall(ArrayStart) && PlainCall(ArrayEnd) && PlainCall(ObjectStart) && PlainCall(ObjectEnd)
  {
  }

  lemma LeafPlain(v: Json)
    requires PlainTree(v) && !v.JArray? && !v.JObject?
    ensures forall c :: c in Calls(v) ==> PlainCall(c)
  {
  }

  lemma {:induction false} ElementCallsPlain(items: seq<Json>)
    requires forall i :: 0 <= i < |items| ==> PlainTree(items[i])
    ensures forall c :: c in ElementCalls(items) ==> PlainCall(c)
    decreases items, 1
  {
    hide PlainCall, PlainTree;
    if items != [] {
      CallsPlain(items[0]);
      ElementCallsPlain(items[1..]);
    }
  }

  lemma {:induction false} MemberCallsPlain(members: seq<Member>)
    requires forall i :: 0 <= i < |members| ==> CString(members[i].key) && PlainTree(members[i].value)
    ensures forall c :: c in MemberCalls(members) ==> PlainCall(c)
    decreases members, 1
  {
    hide PlainTree;
    if members != [] {
      assert members[0].value < members[0] && members[0] in members;
      CallsPlain(members[0].value);
      MemberCallsPlain(members[1..]);
    }
  }

  lemma {:induction false} OutputConcat(needsComma: bool, a: seq<Call>, b: seq<Call>)
    ensures var (x, f) := Output(needsComma, a);
            var (y, g) := Output(f, b);
            Output(needsComma, a + b) == (x + y, g)
    decreases |a|
  {
    hide Emitted, CommaAfter;
    var (y, g) := Output(Output(needsComma, a).1, b);
    if a == [] {
      assert a + b == b && [] + y == y;
    } else {
      assert (a + b)[1..] == a[1..] + b && (a + b)[0] == a[0];
      OutputConcat(CommaAfter(a[0]), a[1..], b);
      var e, x := Emitted(needsComma, a[0]), Output(CommaAfter(a[0]), a[1..]).0;
      assert e + (x + y) == (e + x) + y;
    }
  }

  lemma OutputOne(needsComma: bool, c: Call)
    ensures Output(needsComma, [c]) == (Emitted(needsComma, c), CommaAfter(c))
  {
    assert [c][1..] == [];
    assert Emitted(needsComma, c) + [] == Emitted(needsComma, c);
  }

  /** One flag is enough: the calls for any tree write exactly its serialisation, preceded by a comma
      if one was pending, and leave a comma pending. */
  lemma {:induction false} WritesText(v: Json, needsComma: bool)
    ensures Output(needsComma, Calls(v)) == (CommaText(needsComma) + Text(v), true)
    decreases v, 0
  {
    hide Output, Quoted, SignedText;
    match v
    case JArray(items) =>
      WritesElements(items, false);
      assert "" + ElementsText(items) == ElementsText(items);
      Wrapped(needsComma, ArrayStart, ElementCalls(items), ArrayEnd);
    case JObject(members) =>
      WritesMembers(members, false);
      assert "" + MembersText(members) == MembersText(members);
      Wrapped(needsComma, ObjectStart, MemberCalls(members), ObjectEnd);
    case _ => WritesLeaf(v, needsComma);
  }

  lemma WritesLeaf(v: Json, needsComma: bool)
    requires !v.JArray? && !v.JObject?
    ensures Output(needsComma, Calls(v)) == (CommaText(needsComma) + Text(v), true)
  {
    hide SignedText, Escaped, Quoted, Output;
    OutputOne(needsComma, Calls(v)[0]);
  }

  lemma Wrapped(needsComma: bool, open: Call, inner: seq<Call>, close: Call)
    requires open.ArrayStart? || open.ObjectStart?
    requires Closes(close)
    ensures Output(needsComma, [open] + inner + [close]) ==
            (CommaText(needsComma) + (Body(open) + Output(false, inner).0 + Body(close)), true)
  {
    hide Output, Body;
    OutputConcat(needsComma, [open] + inner, [close]);
    OutputConcat(needsComma, [open], inner);
    OutputOne(needsComma, open);
    OutputOne(Output(false, inner).1, close);
    Regroup(CommaText(needsComma), Body(open), Output(false, inner).0, Body(close));
    assert "" + Body(close) == Body(close);
  }

  lemma Regroup(a: string, b: string, c: string, d: string)
    ensures a + b + c + d == a + (b + c + d)
  {
  }

  lemma {:induction false} WritesElements(items: seq<Json>, needsComma: bool)
    ensures Output(needsComma, ElementCalls(items)) ==
            if items == [] then ([], needsComma) else (CommaText(needsComma) + ElementsText(items), true)
    decreases items, 1
  {
    hide Output, Text, Calls;
    if items == [] {
      OutputNone(needsComma);
    } else {
      WritesText(items[0], needsComma);
      WritesElements(items[1..], true);
      OutputConcat(needsComma, Calls(items[0]), ElementCalls(items[1..]));
      var rest := if |items| == 1 then [] else "," + ElementsText(items[1..]);
      assert Output(true, ElementCalls(items[1..])) == (rest, true);
      assert CommaText(needsComma) + Text(items[0]) + rest == CommaText(needsComma) + (Text(items[0]) + rest);
    }
  }

  lemma OutputNone(needsComma: bool)
    ensures Output(needsComma, []) == ([], needsComma)
  {
  }

  lemma {:induction false} WritesMembers(members: seq<Member>, needsComma: bool)
    ensures Output(needsComma, MemberCalls(members)) ==
            if members == [] then ([], needsComma) else (CommaText(needsComma) + MembersText(members), true)
    decreases members, 1
  {
    hide Output, Text, Calls, Quoted;
    if members == [] {
      OutputNone(needsComma);
    } else {
      var m := members[0];
      WritesMember(m, needsComma);
      WritesMembers(members[1..], true);
      OutputConcat(needsComma, [Key(m.key)] + Calls(m.value), MemberCalls(members[1..]));
      var rest := if |members| == 1 then [] else "," + MembersText(members[1..]);
      assert Output(true, MemberCalls(members[1..])) == (rest, true);
      assert CommaText(needsComma) + MemberText(m) + rest == CommaText(needsComma) + (MemberText(m) + rest);
    }
  }

  lemma {:induction false} WritesMember(m: Member, needsComma: bool)
    ensures Output(needsComma, [Key(m.key)] + Calls(m.value)) == (CommaText(needsComma) + MemberText(m), true)
    decreases m, 1
  {
    hide Output, Text, Calls, Quoted;
    WritesText(m.value, false);
    OutputConcat(needsComma, [Key(m.key)], Calls(m.value));
    OutputOne(needsComma, Key(m.key));
    var k, t := Quoted(m.key) + ":", Text(m.value);
    assert "" + t == t;
    assert CommaText(needsComma) + k + t == CommaText(needsComma) + (k + t);
  }

  // ---------------------------------------------------------------- the writer itself

  class Writer {
    const buf: array<char>
    const size: nat
    var offset: nat
    var needsComma: bool
    var depth: int

    ghost predicate Valid()
      reads this, buf
    {
      size <= buf.Length && if size == 0 then offset == 0 else offset < size && buf[offset] == NUL
    }

    ghost function Written(): string
      requires Valid()
      reads this, buf
    {
      buf[..offset]
    }

    constructor (buf: array<char>, size: nat)
      requires size <= buf.Length
      modifies buf
      ensures Valid() && this.buf == buf && this.size == size && Written() == [] && !needsComma
    {
      this.buf, this.size := buf, size;
      offset, needsComma, depth := 0, false, 0;
      new;
      if size > 0 {
        buf[0] := NUL;
      }
    }

    /** write_raw: all of the text and a NUL, or nothing. */
    method WriteRaw(text: string) returns (ok: bool)
      requires Valid()
      modifies this`offset, buf
      ensures Valid()
      ensures ok <==> old(offset) + |text| < size
      ensures Written() == old(Written()) + if ok then text else []
    {
      if offset + |text| >= size {
        return false;
      }
      for i := 0 to |text|
        invariant offset == old(offset)
        invariant buf[..offset] == old(Written())
        invariant buf[offset..offset + i] == text[..i]
      {
        buf[offset + i] := text[i];
      }
      assert buf[..offset + |text|] == buf[..offset] + buf[offset..offset + |text|];
      offset := offset + |text|;
      buf[offset] := NUL;
      return true;
    }

    /** Either the whole text was appended, or it does not fit and some prefix of it was. */
    ghost predicate Appended(ok: bool, before: string, text: string)
      requires Valid()
      reads this, buf
    {
      && (ok <==> text == [] || |before| + |text| < size)
      && (if ok then Written() == before + text else before <= Written() <= before + text)
    }

    /** write_raw of one more piece, unless an earlier piece has failed. */
    method Piece(ok: bool, piece: string, ghost before: string, ghost text: string) returns (ok': bool)
      requires Valid() && Appended(ok, before, text) && (piece != [] || text != [])
      modifies this`offset, buf
      ensures Valid() && Appended(ok', before, text + piece)
    {
      ok' := ok;
      if ok {
        ok' := WriteRaw(piece);
        assert before + text + piece == before + (text + piece);
      }
    }

    method MaybeComma(ghost before: string) returns (ok: bool)
      requires Valid() && before == Written()
      modifies this`offset, buf
      ensures Valid() && Appended(ok, before, CommaText(needsComma))
    {
      ok := true;
      if needsComma {
        ok := WriteRaw(",");
      }
    }

    method WriteKey(key: string) returns (ok: bool)
      requires Valid() && CString(key)
      modifies this`offset, this`needsComma, buf
      ensures Valid() && Appended(ok, old(Written()), Emitted(old(needsComma), Key(key)))
      ensures needsComma == if ok then false else old(needsComma)
    {
      hide Emitted;
      ghost var before, text := Written(), CommaText(needsComma);
      ok := MaybeComma(before);
      ok := Piece(ok, "\"", before, text);
      ok := Piece(ok, key, before, text + "\"");
      ok := Piece(ok, "\":", before, text + "\"" + key);
      EmittedKey(needsComma, key);
      if ok { needsComma := false; }
    }

    /** Calls that write a fixed piece after the comma they may need. */
    method WriteToken(c: Call) returns (ok: bool)
      requires Valid() && !c.Key? && !c.StringValue? && !Closes(c)
      modifies this`offset, this`needsComma, this`depth, buf
      ensures Valid() && Appended(ok, old(Written()), Emitted(old(needsComma), c))
      ensures needsComma == if ok then CommaAfter(c) else old(needsComma)
    {
      ghost var before, text := Written(), CommaText(needsComma);
      ok := MaybeComma(before);
      BodyNonempty(c);
      ok := Piece(ok, Body(c), before, text);
      if ok {
        needsComma := CommaAfter(c);
        if c.ObjectStart? || c.ArrayStart? { depth := depth + 1; }
      }
    }

    method WriteEnd(c: Call) returns (ok: bool)
      requires Valid() && Closes(c)
      modifies this`offset, this`needsComma, this`depth, buf
      ensures Valid() && Appended(ok, old(Written()), Emitted(old(needsComma), c))
      ensures needsComma == if ok then CommaAfter(c) else old(needsComma)
    {
      ok := WriteRaw(Body(c));
      if ok {
        needsComma := true;
        depth := depth - 1;
      }
    }

    method WriteString(value: string) returns (ok: bool)
      requires Valid() && CString(value)
      modifies this`offset, this`needsComma, buf
      ensures Valid() && Appended(ok, old(Written()), Emitted(old(needsComma), StringValue(value)))
      ensures needsComma == if ok then true else old(needsComma)
    {
      hide Escaped, Emitted;
      ghost var before, open := Written(), CommaText(needsComma) + "\"";
      ok := MaybeComma(before);
      ok := Piece(ok, "\"", before, CommaText(needsComma));
      ok := WriteEscaped(ok, value, before, open);
      ok := Piece(ok, "\"", before, open + Escaped(value));
      EmittedString(needsComma, value);
      if ok { needsComma := true; }
    }

    /** The escaping loop, which stops at the first piece that does not fit. */
    method WriteEscaped(ok: bool, value: string, ghost before: string, ghost open: string) returns (ok': bool)
      requires Valid() && Appended(ok, before, open) && open != []
      modifies this`offset, buf
      ensures Valid() && Appended(ok', before, open + Escaped(value))
    {
      hide EscapedChar;
      ok' := ok;
      var i := 0;
      assert open + Escaped(value[..0]) == open;
      while ok' && i < |value|
        invariant i <= |value| && Valid()
        invariant Appended(ok', before, open + Escaped(value[..i]))
      {
        var piece := EscapedChar(value[i]);
        ghost var text := open + Escaped(value[..i]);
        EscapedStep(value, i);
        assert text + piece == open + Escaped(value[..i + 1]);
        ok' := Piece(ok', piece, before, text);
        i := i + 1;
      }
      assert value[..|value|] == value;
      if !ok' { StaysShort(before, open, value, i); }
    }

    /** A text that has not fitted does not fit with more behind it. */
    lemma StaysShort(before: string, open: string, value: string, i: nat)
      requires Valid() && open != [] && i <= |value| && Appended(false, before, open + Escaped(value[..i]))
      ensures Appended(false, before, open + Escaped(value))
    {
      hide Escaped, Appended;
      var x, y := Escaped(value[..i]), Escaped(value[i..]);
      assert Escaped(value) == x + y by {
        assert value == value[..i] + value[i..];
        EscapedConcat(value[..i], value[i..]);
      }
      StillAppended(before, open + x, y);
      assert open + x + y == open + (x + y);
    }

    lemma StillAppended(before: string, text: string, more: string)
      requires Valid() && text != [] && Appended(false, before, text)
      ensures Appended(false, before, text + more)
    {
      assert before + (text + more) == (before + text) + more;
    }

    method Write(c: Call) returns (ok: bool)
      requires Valid() && PlainCall(c)
      modifies this`offset, this`needsComma, this`depth, buf
      ensures Valid() && Appended(ok, old(Written()), Emitted(old(needsComma), c))
      ensures needsComma == if ok then CommaAfter(c) else old(needsComma)
    {
      match c {
        case Key(k) => ok := WriteKey(k);
        case StringValue(s) => ok := WriteString(s);
        case ObjectEnd => ok := WriteEnd(c);
        case ArrayEnd => ok := WriteEnd(c);
        case _ => ok := WriteToken(c);
      }
    }

    /** The calls for a whole tree on a fresh writer: they all succeed exactly when the serialisation and
        a NUL fit the buffer, and then they have written exactly that. */
    method WriteTree(v: Json) returns (ok: bool)
      requires Valid() && Written() == [] && !needsComma && PlainTree(v)
      modifies this`offset, this`needsComma, this`depth, buf
      ensures Valid()
      ensures ok <==> |Text(v)| < size
      ensures ok ==> Written() == Text(v) && buf[|Text(v)|] == NUL
    {
      hide Text, Calls, Emitted, Body, PlainTree, PlainCall;
      var calls := Calls(v);
      CallsPlain(v);
      WritesText(v, false);
      TextNonempty(v);
      ok := true;
      ghost var done := [];
      ghost var whole := Output(false, calls).0;
      assert CommaText(false) + Text(v) == Text(v);
      var i := 0;
      while ok && i < |calls|
        invariant i <= |calls| && Valid()
        invariant ok ==> Written() == done && whole == done + Output(needsComma, calls[i..]).0
        invariant !ok ==> |whole| >= size
      {
        ghost var rest := Output(CommaAfter(calls[i]), calls[i + 1..]).0;
        ghost var piece := Emitted(needsComma, calls[i]);
        OutputStep(needsComma, calls, i);
        EmittedNonempty(needsComma, calls[i]);
        assert whole == (done + piece) + rest;
        ok := Write(calls[i]);
        done := done + piece;
        i := i + 1;
      }
      if ok {
        assert calls[i..] == [];
        OutputNone(needsComma);
        assert whole == done;
      }
    }
  }

  lemma EmittedString(needsComma: bool, s: string)
    ensures Emitted(needsComma, StringValue(s)) == CommaText(needsComma) + "\"" + Escaped(s) + "\""
  {
  }

  lemma EmittedKey(needsComma: bool, k: string)
    ensures Emitted(needsComma, Key(k)) == CommaText(needsComma) + "\"" + k + "\":"
  {
  }

  lemma BodyNonempty(c: Call)
    ensures Body(c) != []
  {
  }

  lemma EmittedNonempty(needsComma: bool, c: Call)
    ensures Emitted(needsComma, c) != []
  {
    BodyNonempty(c);
  }

  lemma TextNonempty(v: Json)
    ensures Text(v) != []
  {
  }

  lemma OutputStep(needsComma: bool, calls: seq<Call>, i: nat)
    requires i < |calls|
    ensures Output(needsComma, calls[i..]).0 ==
            Emitted(needsComma, calls[i]) + Output(CommaAfter(calls[i]), calls[i + 1..]).0
  {
    assert calls[i..][1..] == calls[i + 1..];
  }

  lemma EscapedStep(s: string, i: nat)
    requires i < |s|
    ensures Escaped(s[..i + 1]) == Escaped(s[..i]) + EscapedChar(s[i])
  {
    assert s[..i + 1] == s[..i] + [s[i]];
    EscapedConcat(s[..i], [s[i]]);
    assert [s[i]][1..] == [] && Escaped([s[i]]) == EscapedChar(s[i]) + [];
  }

  lemma {:induction false} EscapedConcat(a: string, b: string)
    ensures Escaped(a + b) == Escaped(a) + Escaped(b)
  {
    if a == [] {
      assert a + b == b;
    } else {
      assert (a + b)[1..] == a[1..] + b;
      EscapedConcat(a[1..], b);
    }
  }
}
