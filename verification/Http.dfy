/** src/http.c: response generation, and reading the Content-Length it wrote. */
module Http {
  import opened Format
  import opened Framing
  import opened Options

  const CRLF := "\r\n"

  /** body is the response's buffer cut at body_length, NULs included. */
  datatype Response = Response(status: int, headers: string, body: string)

  // ---------------------------------------------------------------- the message

  function Reason(code: int): string {
    match code
    case 400 => "400 Bad Request"
    case 404 => "404 Not Found"
    case 405 => "405 Method Not Allowed"
    case 422 => "422 Unprocessable Entity"
    case 500 => "500 Internal Server Error"
    case 503 => "503 Service Unavailable"
    case _ => "200 OK"
  }

  function StatusLine(code: int): string {
    "HTTP/1.1 " + Reason(code) + CRLF
  }

  const LENGTH_NAME := "Content-Length:"

  function LengthLine(n: nat): string {
    LENGTH_NAME + " " + Digits(n, 10, false) + CRLF
  }

  /** strncpy: the characters before the first NUL, then NULs. */
  function NulPadded(s: string): (r: string)
    ensures |r| == |s|
  {
    if s == [] then [] else if s[0] == NUL then seq(|s|, _ => NUL) else [s[0]] + NulPadded(s[1..])
  }

  /** strncpy keeps a body exactly if nothing but NULs follows its first NUL. */
  lemma {:induction false} PaddedExact(s: string)
    ensures NulPadded(s) == s <==> NulsAfter(s)
    ensures NulsAfter(s) <==> forall i, j :: 0 <= i < j < |s| && s[i] == NUL ==> s[j] == NUL
  {
    hide NulsAfter;
    if s != [] {
      PaddedTail(s);
      NulsTail(s);
      if s[0] != NUL { PaddedExact(s[1..]); }
    }
    NulsAre(s);
  }

  predicate NulsAfter(s: string) {
    forall i, j :: 0 <= i < j < |s| && s[i] == NUL ==> s[j] == NUL
  }

  lemma NulsAre(s: string)
    ensures NulsAfter(s) <==> forall i, j :: 0 <= i < j < |s| && s[i] == NUL ==> s[j] == NUL
    ensures NulsAfter([])
  {
  }

  lemma PaddedTail(s: string)
    requires s != []
    ensures s[0] == NUL ==> (NulPadded(s) == s <==> forall j :: 0 <= j < |s| ==> s[j] == NUL)
    ensures s[0] != NUL ==> (NulPadded(s) == s <==> NulPadded(s[1..]) == s[1..])
  {
    assert s[0] != NUL ==> NulPadded(s)[1..] == NulPadded(s[1..]);
  }

  lemma NulsTail(s: string)
    requires s != []
    ensures s[0] == NUL ==> (NulsAfter(s) <==> forall j :: 0 <= j < |s| ==> s[j] == NUL)
    ensures s[0] != NUL ==> (NulsAfter(s) <==> NulsAfter(s[1..]))
  {
    if s[0] != NUL && NulsAfter(s[1..]) {
      forall i, j | 0 <= i < j < |s| && s[i] == NUL ensures s[j] == NUL {
        assert s[1..][i - 1] == NUL && s[1..][j - 1] == s[j];
      }
    }
    if s[0] != NUL && NulsAfter(s) {
      forall i, j | 0 <= i < j < |s| - 1 && s[1..][i] == NUL ensures s[1..][j] == NUL {
        assert s[i + 1] == NUL;
      }
    }
  }

  function Head(r: Response): string {
    StatusLine(r.status) + r.headers + LengthLine(|r.body|)
  }

  function Message(r: Response): string {
    Head(r) + CRLF + NulPadded(r.body)
  }

  // ---------------------------------------------------------------- formats that print themselves

  predicate NoPercent(f: string, i: nat, k: nat) {
    i <= k <= |f| && forall j :: i <= j < k ==> f[j] != '%'
  }

  lemma PlainOne(f: string, i: nat, args: seq<Arg>)
    requires i < |f| && f[i] != '%'
    ensures Supplied(f, i, args) <==> Supplied(f, i + 1, args)
    ensures Supplied(f, i, args) ==> Ideal(f, i, args) == [f[i]] + Ideal(f, i + 1, args)
  {
    assert DirectiveAt(f, i) == (LiteralChar, 1);
  }

  lemma {:induction false} PlainPart(f: string, i: nat, k: nat, args: seq<Arg>)
    requires NoPercent(f, i, k)
    ensures Supplied(f, i, args) <==> Supplied(f, k, args)
    ensures Supplied(f, k, args) ==> Ideal(f, i, args) == f[i..k] + Ideal(f, k, args)
    decreases k - i
  {
    hide Ideal, Supplied;
    if i < k {
      PlainOne(f, i, args);
      PlainPart(f, i + 1, k, args);
      assert f[i..k] == [f[i]] + f[i + 1..k];
    } else {
      assert f[i..k] == [];
    }
  }

  const LENGTH_FORMAT := "Content-Length: %zu\r\n"

  lemma LengthPlain()
    ensures CString(LENGTH_FORMAT)
  {
    assert CString("Content-Length: ") && CString("%zu\r\n");
  }

  lemma LengthFormat(n: uint)
    ensures Supplied(LENGTH_FORMAT, 0, [UintArg(n)])
    ensures Ideal(LENGTH_FORMAT, 0, [UintArg(n)]) == LengthLine(n)
  {
    hide Digits, Supplied, Ideal;
    var f, args := LENGTH_FORMAT, [UintArg(n)];
    assert |f| == 21 && f[16] == '%' && f[19] == '\r' && f[20] == '\n';
    LengthDirective(n);
    PlainPart(f, 0, 16, args);
    assert f[0..16] == LENGTH_NAME + " ";
  }

  /** The directive and what follows it. */
  lemma LengthDirective(n: uint)
    ensures Supplied(LENGTH_FORMAT, 16, [UintArg(n)])
    ensures Ideal(LENGTH_FORMAT, 16, [UintArg(n)]) == Digits(n, 10, false) + CRLF
  {
    hide Digits;
    var f, args := LENGTH_FORMAT, [UintArg(n)];
    assert |f| == 21 && f[16] == '%' && f[17] == 'z' && f[18] == 'u' && f[19] == '\r' && f[20] == '\n';
    assert args[1..] == [];
    LengthPlain();
    SuppliedEnd(f);
    PlainPart(f, 19, 21, []);
    assert f[19..21] == CRLF;
    assert DirectiveAt(f, 16) == (UintDir(10, false), 3);
  }

  /** Neither format directives nor line ends nor NULs. */
  predicate Clean(s: string) {
    forall i :: 0 <= i < |s| ==> s[i] != '%' && s[i] != '\r' && s[i] != '\n' && s[i] != NUL
  }

  lemma ReasonClean(code: int)
    ensures Clean(Reason(code)) && |Reason(code)| < 32
  {
    match code
    case 400 => assert Clean("400 Bad Request");
    case 404 => assert Clean("404 Not Found");
    case 405 => assert Clean("405 Method Not Allowed");
    case 422 => assert Clean("422 Unprocessable Entity");
    case 500 => assert Clean("500 Internal Server Error");
    case 503 => assert Clean("503 Service Unavailable");
    case _ => assert Clean("200 OK");
  }

  lemma StatusFormat(code: int)
    ensures Supplied(StatusLine(code), 0, []) && Ideal(StatusLine(code), 0, []) == StatusLine(code)
    ensures |StatusLine(code)| < 64
  {
    hide Reason, Ideal, Supplied;
    ReasonClean(code);
    var f := StatusLine(code);
    assert Clean("HTTP/1.1 ");
    PlainPart(f, 0, |f|, []);
    SuppliedEnd(f);
    assert f[0..|f|] == f;
  }

  lemma SuppliedEnd(f: string)
    requires CString(f)
    ensures Supplied(f, |f|, []) && Ideal(f, |f|, []) == []
  {
  }

  // ---------------------------------------------------------------- generation

  /** buffer[..offset] is the text so far. */
  ghost predicate Wrote(buffer: seq<char>, text: string) {
    |text| <= |buffer| && buffer[..|text|] == text
  }

  method CopyText(buffer: array<char>, offset: nat, text: string, ghost done: string) returns (offset': nat)
    requires Wrote(buffer[..], done) && offset == |done| && offset + |text| <= buffer.Length
    modifies buffer
    ensures Wrote(buffer[..], done + NulPadded(text)) && offset' == |done + text|
    ensures forall k :: offset + |text| <= k < buffer.Length ==> buffer[k] == old(buffer[k])
  {
    var i := 0;
    while i < |text| && text[i] != NUL
      invariant 0 <= i <= |text| && NUL !in text[..i]
      invariant forall k :: 0 <= k < buffer.Length ==>
                  buffer[k] == if offset <= k < offset + i then text[k - offset] else old(buffer[k])
    {
      buffer[offset + i] := text[i];
      i := i + 1;
    }
    ghost var stop := i;
    while i < |text|
      invariant stop <= i <= |text|
      invariant forall k :: 0 <= k < buffer.Length ==>
                  buffer[k] == if offset <= k < offset + stop then text[k - offset]
                               else if offset + stop <= k < offset + i then NUL else old(buffer[k])
    {
      buffer[offset + i] := NUL;
      i := i + 1;
    }
    PaddedAt(text, stop);
    assert buffer[..offset + |text|] == done + NulPadded(text);
    offset' := offset + |text|;
  }

  lemma {:induction false} PaddedAt(s: string, stop: nat)
    requires stop <= |s| && (forall k :: 0 <= k < stop ==> s[k] != NUL) && (stop < |s| ==> s[stop] == NUL)
    ensures forall k :: 0 <= k < |s| ==> NulPadded(s)[k] == if k < stop then s[k] else NUL
    decreases s
  {
    if stop > 0 {
      PaddedAt(s[1..], stop - 1);
    }
  }

  lemma {:induction false} PaddedCString(s: string)
    requires CString(s)
    ensures NulPadded(s) == s
  {
    PaddedExact(s);
  }

  /** snprintf into a 64-byte local, as the two generated lines are made. */
  method Format64(format: string, args: seq<Arg>) returns (line: string)
    requires Supplied(format, 0, args) && |Ideal(format, 0, args)| < 64
    ensures line == Ideal(format, 0, args)
  {
    hide Ideal, Supplied;
    var buf := new char[64];
    var n := Vsnprintf(buf, 64, format, args);
    line := buf[..n];
    assert Ideal(format, 0, args)[..n] == Ideal(format, 0, args);
  }

  /** The response is written exactly when it is shorter than the capacity given. */
  method GenerateResponse(r: Response, buffer: array<char>, capacity: nat) returns (ok: bool, length: nat)
    requires CString(r.headers) && |r.body| < UINT_LIMIT
    requires capacity <= buffer.Length && |StatusLine(r.status)| <= buffer.Length
    modifies buffer
    ensures ok <==> |Message(r)| < capacity
    ensures ok ==> length == |Message(r)| && buffer[..length] == Message(r)
    ensures |StatusLine(r.status)| <= capacity ==>
              forall k :: capacity <= k < buffer.Length ==> buffer[k] == old(buffer[k])
  {
    hide StatusLine, LengthLine, Ideal, Supplied, CString, NulPadded;
    ok, length := false, 0;
    var offset := 0;
    StatusFormat(r.status);
    LengthFormat(|r.body|);
    LengthLineShort(|r.body|);
    assert MessageIs(r) by { MessageParts(r); }
    var status := Format64(StatusLine(r.status), []);
    CleanCopies(r);
    offset := CopyText(buffer, 0, status, []);
    ghost var done := StatusLine(r.status);
    if |r.headers| > 0 {
      if offset + |r.headers| >= capacity { return; }
      offset := CopyText(buffer, offset, r.headers, done);
    }
    done := done + r.headers;
    var line := Format64(LENGTH_FORMAT, [UintArg(|r.body|)]);
    if offset + |line| >= capacity { return; }
    offset := CopyText(buffer, offset, line, done);
    done := done + line;
    if offset + 2 >= capacity { return; }
    buffer[offset], buffer[offset + 1] := '\r', '\n';
    offset, done := offset + 2, done + CRLF;
    assert Wrote(buffer[..], done);
    if |r.body| > 0 {
      if offset + |r.body| >= capacity { return; }
      offset := CopyText(buffer, offset, r.body, done);
    }
    return true, offset;
  }

  predicate MessageIs(r: Response) {
    && Message(r) == StatusLine(r.status) + r.headers + LengthLine(|r.body|) + CRLF + NulPadded(r.body)
    && |Message(r)| == |StatusLine(r.status)| + |r.headers| + |LengthLine(|r.body|)| + 2 + |r.body|
  }

  lemma MessageParts(r: Response)
    ensures MessageIs(r)
  {
  }

  lemma LengthLineShort(n: uint)
    ensures |LengthLine(n)| < 64
  {
    Digits32(n, 10, false);
  }

  lemma CleanCopies(r: Response)
    requires CString(r.headers)
    ensures NulPadded(StatusLine(r.status)) == StatusLine(r.status)
    ensures NulPadded(r.headers) == r.headers
    ensures NulPadded(LengthLine(|r.body|)) == LengthLine(|r.body|)
  {
    hide Reason, Digits, NulPadded;
    ReasonNoNul(r.status);
    PaddedCString(StatusLine(r.status));
    PaddedCString(r.headers);
    DigitsClean(|r.body|);
    PaddedCString(LengthLine(|r.body|));
  }

  lemma ReasonNoNul(code: int)
    ensures CString(StatusLine(code))
  {
    hide Reason;
    ReasonClean(code);
  }

  lemma DigitsClean(n: nat)
    ensures forall c :: c in Digits(n, 10, false) ==> '0' <= c <= '9'
  {
    DigitsShape(n, 10, false);
  }

  // ---------------------------------------------------------------- framing

  predicate Blank(s: string, i: int) { BlankAt(s, i, '\r', '\n') }

  ghost predicate NoBlankLine(s: string) { forall i :: !Blank(s, i) }

  /** The message around its header block. */
  lemma MessageChars(r: Response, i: int)
    ensures var m, a := Message(r), |StatusLine(r.status)|;
            var b := a + |r.headers|;
            var e := |Head(r)| + 2;
            && 2 <= a <= b && b + 16 < e - 4 && e <= |m|
            && (0 <= i < a - 2 ==> m[i] != '\r')
            && m[a - 2] == '\r' && m[a - 1] == '\n'
            && (a <= i < b ==> m[i] == r.headers[i - a])
            && (b <= i < e - 4 ==> m[i] != '\r') && m[b] == 'C'
            && m[e - 4] == '\r' && m[e - 3] == '\n' && m[e - 2] == '\r' && m[e - 1] == '\n'
            && m[e..] == NulPadded(r.body)
  {
    hide Reason, Digits, NulPadded, Message;
    var n := |r.body|;
    var a := |StatusLine(r.status)|;
    var s, d := StatusLine(r.status), Digits(n, 10, false);
    var line := LengthLine(n);
    assert Message(r) == s + r.headers + line + CRLF + NulPadded(r.body) by { MessageParts(r); }
    ReasonClean(r.status);
    assert Clean("HTTP/1.1 ") && Clean(LENGTH_NAME);
    DigitsClean(n);
    assert forall k :: 0 <= k < |s| - 2 ==> s[k] != '\r';
    assert |line| == 15 + 1 + |d| + 2;
    assert forall k :: 0 <= k < |line| - 2 ==> line[k] != '\r' by {
      assert forall k :: 0 <= k < |d| ==> d[k] in d;
    }
    assert Message(r)[|Head(r)| + 2..] == NulPadded(r.body);
  }

  /** The first blank line of the message is the generated one, and what follows it is the body, exactly
      when the response's own headers, read from the end of the status line on, hold no blank line. */
  lemma HeadSplits(r: Response)
    ensures var m, e := Message(r), |Head(r)| + 2;
            && (HeadEnd(m, 0, '\r', '\n') == Some(e) <==> NoBlankLine(CRLF + r.headers))
            && e <= |m| && m[e..] == NulPadded(r.body)
  {
    hide Message, Head, StatusLine, NulPadded, HeadEnd;
    var m, e, a, t := Message(r), |Head(r)| + 2, |StatusLine(r.status)|, CRLF + r.headers;
    MessageChars(r, 0);
    if NoBlankLine(t) {
      forall k | 0 <= k < e - 4
        ensures !BlankAt(m, k, '\r', '\n')
      {
        if Blank(m, k) { EarlierBlank(r, k); }
      }
      HeadEndIs(m, 0, e, '\r', '\n');
    } else {
      var i :| Blank(t, i);
      assert Blank(m, i + a - 2) by {
        HeadersAppear(r, i); HeadersAppear(r, i + 1); HeadersAppear(r, i + 2); HeadersAppear(r, i + 3);
      }
      NotLater(m, i + a - 2, e);
    }
  }

  /** Header lines, each ended by CRLF. */
  function Lines(lines: seq<string>): string {
    if lines == [] then [] else lines[0] + CRLF + Lines(lines[1..])
  }

  /** Headers made of non-empty lines meet the condition. */
  lemma {:induction false} LinesSplit(lines: seq<string>)
    requires forall i :: 0 <= i < |lines| ==> lines[i] != [] && '\r' !in lines[i] && '\n' !in lines[i]
    ensures NoBlankLine(CRLF + Lines(lines))
  {
    if lines != [] {
      var l, rest := lines[0], CRLF + Lines(lines[1..]);
      LinesSplit(lines[1..]);
      var s := CRLF + l + rest;
      assert CRLF + Lines(lines) == s;
      forall k: nat ensures !Blank(s, k) {
        if k >= 2 + |l| { assert Blank(s, k) ==> Blank(rest, k - 2 - |l|); }
      }
    }
  }

  lemma HeadersAppear(r: Response, i: nat)
    requires i < 2 + |r.headers|
    ensures var k := i + |StatusLine(r.status)| - 2; 0 <= k < |Message(r)| && Message(r)[k] == (CRLF + r.headers)[i]
  {
    hide Message, Head, StatusLine, NulPadded;
    MessageChars(r, i + |StatusLine(r.status)| - 2);
  }

  lemma NotLater(m: string, i: nat, e: nat)
    requires Blank(m, i) && i + 4 < e
    ensures HeadEnd(m, 0, '\r', '\n') != Some(e)
  {
  }

  /** A blank line of the message before the generated one is one of the headers' own. */
  lemma EarlierBlank(r: Response, k: nat)
    requires k < |Head(r)| - 2 && Blank(Message(r), k)
    ensures Blank(CRLF + r.headers, k - (|StatusLine(r.status)| - 2))
  {
    hide Message, Head, StatusLine, NulPadded;
    var m, a := Message(r), |StatusLine(r.status)|;
    var b := a + |r.headers|;
    MessageChars(r, k);
    assert a - 2 <= k < b && k != a - 1;
    assert k + 3 < b;
    HeadersAppear(r, k - (a - 2)); HeadersAppear(r, k + 1 - (a - 2));
    HeadersAppear(r, k + 2 - (a - 2)); HeadersAppear(r, k + 3 - (a - 2));
  }

  // ---------------------------------------------------------------- reading the length back

  function Lower(c: char): char {
    if 'A' <= c <= 'Z' then (c as int + 32) as char else c
  }

  /** str_starts_with_ci, reading past the end as a NUL. */
  predicate StartsWithCi(s: string, prefix: string) {
    |prefix| <= |s| && forall i :: 0 <= i < |prefix| ==> Lower(s[i]) == Lower(prefix[i])
  }

  function SpacesEnd(s: string, i: nat): (r: nat)
    requires i <= |s|
    ensures i <= r <= |s|
    decreases |s| - i
  {
    if i < |s| && s[i] == ' ' then SpacesEnd(s, i + 1) else i
  }

  /** The Content-Length branch of parse_header; size_t is 32 bits wide. */
  method ParseContentLength(header: string) returns (found: bool, length: nat)
    ensures found <==> StartsWithCi(header, LENGTH_NAME)
    ensures found ==> var i := SpacesEnd(header, |LENGTH_NAME|);
                      length == Value(header[i..DigitsEnd(header, i)], 10) % UINT_LIMIT
  {
    hide Value, DigitsEnd;
    length := 0;
    found := StartsWithCi(header, LENGTH_NAME);
    if !found { return; }
    var value := |LENGTH_NAME|;
    while value < |header| && header[value] == ' '
      invariant |LENGTH_NAME| <= value <= |header|
      invariant SpacesEnd(header, |LENGTH_NAME|) == SpacesEnd(header, value)
    {
      value := value + 1;
    }
    ghost var start := value;
    assert header[start..start] == [];
    ValueNone(10);
    while value < |header| && IsDigit(header[value])
      invariant start <= value <= |header|
      invariant DigitsEnd(header, start) == DigitsEnd(header, value)
      invariant length == Value(header[start..value], 10) % UINT_LIMIT
    {
      var d := header[value] as int - '0' as int;
      ReadDigit(header, start, value, d);
      length := (length * 10 + d) % UINT_LIMIT;
      value := value + 1;
    }
    DigitsEndIs(header, value, value);
  }

  lemma ReadDigit(s: string, i: nat, k: nat, d: nat)
    requires i <= k < |s| && IsDigit(s[k]) && d == s[k] as int - '0' as int
    ensures (Value(s[i..k], 10) % UINT_LIMIT * 10 + d) % UINT_LIMIT == Value(s[i..k + 1], 10) % UINT_LIMIT
    ensures DigitsEnd(s, k + 1) == DigitsEnd(s, k)
  {
    hide Value;
    assert s[i..k + 1] == s[i..k] + [s[k]];
    ValueAppend(s[i..k], s[k], 10);
    TimesTen(Value(s[i..k], 10), d);
  }

  lemma TimesTen(v: nat, d: nat)
    ensures (v % UINT_LIMIT * 10 + d) % UINT_LIMIT == (v * 10 + d) % UINT_LIMIT
  {
  }

  /** Reading the generated header line, at its place in the message, gives back the body's length. */
  lemma LengthReadsBack(r: Response)
    requires |r.body| < UINT_LIMIT
    ensures var at := |StatusLine(r.status)| + |r.headers|;
            && at <= |Message(r)|
            && var h := Message(r)[at..];
            && StartsWithCi(h, LENGTH_NAME)
            && var i := SpacesEnd(h, |LENGTH_NAME|);
            && Value(h[i..DigitsEnd(h, i)], 10) % UINT_LIMIT == |r.body|
  {
    hide Reason, Digits, NulPadded, Value, StartsWithCi, SpacesEnd, DigitsEnd;
    var d, rest := Digits(|r.body|, 10, false), CRLF + NulPadded(r.body);
    var h := Message(r)[|StatusLine(r.status)| + |r.headers|..];
    DigitsClean(|r.body|);
    assert h == LengthLine(|r.body|) + rest;
    assert LengthLine(|r.body|) == LENGTH_NAME + " " + d + CRLF;
    LineReads(h, d, CRLF + rest);
    DigitsDenote(|r.body|, 10, false);
  }

  lemma LineReads(h: string, d: string, rest: string)
    requires h == LENGTH_NAME + " " + d + rest && d != [] && rest != [] && !IsDigit(rest[0])
    requires forall c :: c in d ==> '0' <= c <= '9'
    ensures StartsWithCi(h, LENGTH_NAME) && SpacesEnd(h, |LENGTH_NAME|) == 16
    ensures DigitsEnd(h, 16) == 16 + |d| && h[16..16 + |d|] == d
  {
    assert h[15] == ' ' && h[16] == d[0] && d[0] in d;
    assert SpacesEnd(h, 15) == SpacesEnd(h, 16) == 16;
    forall k | 16 <= k < 16 + |d| ensures IsDigit(h[k]) { assert h[k] == d[k - 16] && h[k] in d; }
    DigitsEndIs(h, 16, 16 + |d|);
    Middle(LENGTH_NAME + " ", d, rest);
  }

  lemma Middle(a: string, b: string, c: string)
    ensures (a + b + c)[|a|..|a| + |b|] == b
  {
  }

  // ---------------------------------------------------------------- what a client sees

  /** The status line names the code and then its phrase, and every code without a phrase of its own counts as 200. */
  lemma StatusReads(code: int)
    ensures var c := if code in {400, 404, 405, 422, 500, 503} then code else 200;
            var s := StatusLine(code);
      && |s| > 15 && s[..9] == "HTTP/1.1 " && s[9..12] == Digits(c, 10, false) && s[12] == ' '
      && s[9..|s| - 2] == Named(c) && s[|s| - 2..] == "\r\n" && '\r' !in Named(c) && '\n' !in Named(c)
  {
    hide Digits, Reason, Named;
    Codes(code);
    ReasonClean(code);
    var r := Reason(code);
    var s := StatusLine(code);
    assert s == "HTTP/1.1 " + r + "\r\n" && s[9..|s| - 2] == r;
    assert s[9..12] == r[..3] && s[12] == r[3];
  }

  /** A code with its phrase in section 15 of RFC 9110, for 422 that of RFC 4918. */
  function Named(code: int): string {
    if code == 200 then "200 OK" else if code == 400 then "400 Bad Request" else if code == 404 then "404 Not Found"
    else if code == 405 then "405 Method Not Allowed" else if code == 422 then "422 Unprocessable Entity"
    else if code == 500 then "500 Internal Server Error" else "503 Service Unavailable"
  }

  lemma Codes(code: int)
    ensures var c, r := if code in {400, 404, 405, 422, 500, 503} then code else 200, Reason(code);
      r == Named(c) && |r| > 4 && r[..3] == Digits(c, 10, false) && r[3] == ' '
  {
    hide Digits, Decimal;
    match code
    case 400 => Front("400 Bad Request", 4, 0, 0);
    case 404 => Front("404 Not Found", 4, 0, 4);
    case 405 => Front("405 Method Not Allowed", 4, 0, 5);
    case 422 => Front("422 Unprocessable Entity", 4, 2, 2);
    case 500 => Front("500 Internal Server Error", 5, 0, 0);
    case 503 => Front("503 Service Unavailable", 5, 0, 3);
    case _ => Front("200 OK", 2, 0, 0);
  }

  function Decimal(d: nat): char
    requires d < 10
  {
    '0' + d as char
  }

  lemma Front(r: string, a: nat, b: nat, c: nat)
    requires 0 < a < 10 && b < 10 && c < 10 && |r| > 4
    ensures r[0] == '0' + a as char && r[1] == '0' + b as char && r[2] == '0' + c as char ==>
              r[..3] == Digits(100 * a + 10 * b + c, 10, false)
  {
    hide Digits;
    if r[0] == Decimal(a) && r[1] == Decimal(b) && r[2] == Decimal(c) { ThreeDigits(a, b, c, r[..3]); }
  }

  lemma ThreeDigits(a: nat, b: nat, c: nat, s: string)
    requires 0 < a < 10 && b < 10 && c < 10
    requires |s| == 3 && s[0] == Decimal(a) && s[1] == Decimal(b) && s[2] == Decimal(c)
    ensures Digits(100 * a + 10 * b + c, 10, false) == s
  {
    hide Digits, DigitChar, Decimal;
    var v := 100 * a + 10 * b + c;
    assert v / 10 == 10 * a + b && v / 10 / 10 == a && v % 10 == c && v / 10 % 10 == b;
    OneDigit(a);
    OneDigit(b);
    OneDigit(c);
    DigitsStep(v);
    DigitsStep(v / 10);
  }

  lemma DigitsStep(v: nat)
    requires v >= 10
    ensures Digits(v, 10, false) == Digits(v / 10, 10, false) + [DigitChar(v % 10, false)]
  {
  }

  lemma OneDigit(a: nat)
    requires a < 10
    ensures Digits(a, 10, false) == [Decimal(a)] && DigitChar(a, false) == Decimal(a)
  {
  }

  /** Behind the status line stand the caller's headers as they are, then the length line, a blank line and the body. */
  lemma PartsInPlace(r: Response)
    ensures var m, s := Message(r), |StatusLine(r.status)|;
            var l := s + |r.headers|;
            var b := l + |LengthLine(|r.body|)| + 2;
      && |m| == b + |r.body| && m[..s] == StatusLine(r.status) && m[s..l] == r.headers
      && m[l..b] == "Content-Length: " + Digits(|r.body|, 10, false) + "\r\n\r\n"
      && (CString(r.body) ==> m[b..] == r.body)
  {
    hide StatusLine, Digits, NulPadded;
    if CString(r.body) { PaddedCString(r.body); }
    PaddedSize(r.body);
    var s, h, l, p := StatusLine(r.status), r.headers, LengthLine(|r.body|), NulPadded(r.body);
    var m := Message(r);
    assert m == s + h + l + CRLF + p;
    assert m[|s|..|s| + |h|] == h;
    assert m[|s| + |h|..|s| + |h| + |l| + 2] == l + CRLF;
    assert m[|s| + |h| + |l| + 2..] == p;
  }

  lemma PaddedSize(s: string)
    ensures |NulPadded(s)| == |s|
  {
  }

  /** A name is found in front of a header in any mixture of small and capital letters. */
  lemma AnyCase(s: string, prefix: string)
    ensures StartsWithCi(s, prefix) <==>
            |prefix| <= |s| && forall i :: 0 <= i < |prefix| ==> SameLetter(s[i], prefix[i])
  {
  }

  predicate SameLetter(a: char, b: char) {
    || a == b
    || ('A' <= a <= 'Z' && b as int == a as int + 32)
    || ('A' <= b <= 'Z' && a as int == b as int + 32)
  }
}
