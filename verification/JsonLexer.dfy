/** The tokens of src/json.c and the values it skips, as functions of the input text and a position. */
module JsonLexer {
  import opened Format

  datatype Token =
    | LBrace | RBrace | LBracket | RBracket | Colon | Comma
    | Str(text: string) | Num(value: real) | True | False | Null | Eof | Error

  /** The current token and the position just after it. */
  datatype State = State(tok: Token, pos: nat)

  const STRING_MAX: nat := 1023   // sizeof(string_buf) - 1

  const BACKSPACE: char := '\U{8}'
  const FORMFEED: char := '\U{C}'

  predicate IsSpace(c: char) { c == ' ' || c == '\t' || c == '\n' || c == '\r' }

  function SpaceEnd(s: string, i: nat): (r: nat)
    requires i <= |s|
    ensures i <= r <= |s| && (r < |s| ==> !IsSpace(s[r]))
    decreases |s| - i
  {
    if i < |s| && IsSpace(s[i]) then SpaceEnd(s, i + 1) else i
  }

  // ---------------------------------------------------------------- strings

  datatype Scan = Scan(ok: bool, text: string, pos: nat)

  function Unescaped(c: char): char {
    match c
    case 'b' => BACKSPACE
    case 'f' => FORMFEED
    case 'n' => '\n'
    case 'r' => '\r'
    case 't' => '\t'
    case _ => c
  }

  /** Characters beyond the buffer are dropped. */
  function Append(text: string, c: char): (t: string)
    ensures |text| <= STRING_MAX ==> |t| <= STRING_MAX
  {
    if |text| < STRING_MAX then text + [c] else text
  }

  /** One character of a string literal: what it adds and where it ends; \u takes four more. */
  function ScanChar(s: string, i: nat): (r: (char, nat))
    requires i < |s|
    ensures r.1 > i && (BadUnicode(s, i) || r.1 <= |s|)
  {
    if s[i] == '\\' && i + 1 < |s| then
      if s[i + 1] == 'u' then ('?', i + 6) else (Unescaped(s[i + 1]), i + 2)
    else (s[i], i + 1)
  }

  predicate BadUnicode(s: string, i: nat)
    requires i < |s|
  {
    s[i] == '\\' && i + 1 < |s| && s[i + 1] == 'u' && i + 5 >= |s|
  }

  /** The literal after its opening quote. */
  function ScanString(s: string, i: nat, text: string): (r: Scan)
    requires i <= |s| && |text| <= STRING_MAX
    ensures i <= r.pos <= |s| && |r.text| <= STRING_MAX
    decreases |s| - i
  {
    if i == |s| then Scan(false, text, i)
    else if s[i] == '"' then Scan(true, text, i + 1)
    else if BadUnicode(s, i) then Scan(false, text, i + 1)
    else
      var (c, j) := ScanChar(s, i);
      ScanString(s, j, Append(text, c))
  }

  lemma ScanStep(s: string, i: nat, text: string)
    requires i < |s| && |text| <= STRING_MAX
    ensures s[i] == '"' ==> ScanString(s, i, text) == Scan(true, text, i + 1)
    ensures s[i] != '"' && BadUnicode(s, i) ==> ScanString(s, i, text) == Scan(false, text, i + 1)
    ensures s[i] != '"' && !BadUnicode(s, i) ==>
              ScanChar(s, i).1 <= |s|
              && ScanString(s, i, text) == ScanString(s, ScanChar(s, i).1, Append(text, ScanChar(s, i).0))
  {
  }

  lemma ScanEnd(s: string, text: string)
    requires |text| <= STRING_MAX
    ensures ScanString(s, |s|, text) == Scan(false, text, |s|)
  {
  }

  // ---------------------------------------------------------------- numbers

  /** A number literal by its parts; every part may be empty. */
  datatype Numeral = Numeral(negative: bool, whole: string, frac: string, expNegative: bool, exp: string)

  function IntStart(s: string, i: nat): (r: nat)
    requires i < |s|
    ensures i <= r <= |s|
  {
    if s[i] == '-' then i + 1 else i
  }

  function FracStart(s: string, i: nat): (r: nat)
    requires i <= |s|
    ensures i <= r <= |s|
  {
    if i < |s| && s[i] == '.' then i + 1 else i
  }

  function FracEnd(s: string, i: nat): (r: nat)
    requires i <= |s|
    ensures i <= r <= |s|
  {
    if i < |s| && s[i] == '.' then DigitsEnd(s, i + 1) else i
  }

  predicate HasExp(s: string, i: nat) { i < |s| && (s[i] == 'e' || s[i] == 'E') }

  predicate HasExpSign(s: string, i: nat) { i + 1 < |s| && (s[i + 1] == '+' || s[i + 1] == '-') }

  predicate ExpMinus(s: string, i: nat) { HasExp(s, i) && HasExpSign(s, i) && s[i + 1] == '-' }

  function ExpStart(s: string, i: nat): (r: nat)
    requires i <= |s|
    ensures i <= r <= |s|
  {
    if !HasExp(s, i) then i else if HasExpSign(s, i) then i + 2 else i + 1
  }

  function ExpEnd(s: string, i: nat): (r: nat)
    requires i <= |s|
    ensures ExpStart(s, i) <= r <= |s|
  {
    if HasExp(s, i) then DigitsEnd(s, ExpStart(s, i)) else i
  }

  /** The literal at i and its end. */
  function NumeralAt(s: string, i: nat): (r: (Numeral, nat))
    requires i < |s|
    ensures i <= r.1 <= |s|
    ensures s[i] == '-' || IsDigit(s[i]) ==> i < r.1
  {
    var a := IntStart(s, i);
    var b := DigitsEnd(s, a);
    var c := FracEnd(s, b);
    var d := ExpEnd(s, c);
    (Numeral(s[i] == '-', s[a..b], s[FracStart(s, b)..c], ExpMinus(s, c),
             s[ExpStart(s, c)..d]), d)
  }

  function Tens(k: nat): (r: real)
    ensures r >= 1.0
  {
    Pow10Positive(k);
    Pow(10, k) as real
  }

  lemma Pow10Positive(k: nat)
    ensures Pow(10, k) >= 1
  {
  }

  function Scaled(mantissa: real, e: nat, expNegative: bool): real {
    if expNegative || e == 0 then mantissa / Tens(e) else mantissa * Tens(e)
  }

  function WithSign(v: real, negative: bool): real {
    if negative then -v else v
  }

  function Mantissa(n: Numeral): real {
    Value(n.whole, 10) as real + Value(n.frac, 10) as real / Tens(|n.frac|)
  }

  /** What the literal denotes, in exact arithmetic. */
  function Denoted(n: Numeral): real {
    WithSign(Scaled(Mantissa(n), Value(n.exp, 10), n.expNegative), n.negative)
  }

  // ---------------------------------------------------------------- tokens

  predicate WordAt(s: string, i: nat, w: string) {
    i + |w| <= |s| && s[i..i + |w|] == w
  }

  /** The token at a position that is not at a space, and where it ends; an ERROR may consume nothing. */
  function TokenAt(s: string, i: nat): (r: State)
    requires i < |s|
    ensures i <= r.pos <= |s|
    ensures r.tok != Eof && (r.tok != Error ==> i < r.pos)
  {
    match s[i]
    case '{' => State(LBrace, i + 1)
    case '}' => State(RBrace, i + 1)
    case '[' => State(LBracket, i + 1)
    case ']' => State(RBracket, i + 1)
    case ':' => State(Colon, i + 1)
    case ',' => State(Comma, i + 1)
    case '"' =>
      var r := ScanString(s, i + 1, []);
      State(if r.ok then Str(r.text) else Error, r.pos)
    case 't' => if WordAt(s, i, "true") then State(True, i + 4) else State(Error, i)
    case 'f' => if WordAt(s, i, "false") then State(False, i + 5) else State(Error, i)
    case 'n' => if WordAt(s, i, "null") then State(Null, i + 4) else State(Error, i)
    case c =>
      if c == '-' || IsDigit(c) then
        var (n, e) := NumeralAt(s, i);
        State(Num(Denoted(n)), e)
      else State(Error, i)
  }

  /** json_next_token. */
  function Lex(s: string, pos: nat): (r: State)
    requires pos <= |s|
    ensures pos <= r.pos <= |s|
    ensures r.tok != Eof && r.tok != Error ==> pos < r.pos
  {
    var i := SpaceEnd(s, pos);
    if i == |s| then State(Eof, i) else TokenAt(s, i)
  }

  function Next(s: string, st: State): (r: State)
    requires st.pos <= |s|
    ensures st.pos <= r.pos <= |s|
    ensures Usable(st) ==> Measure(s, r) < Measure(s, st)
  {
    Lex(s, st.pos)
  }

  predicate Usable(st: State) { st.tok != Eof && st.tok != Error }

  /** Remaining input, counting a usable current token as half a character: falls with every token that
      is used up, also when the next one is an ERROR that consumes nothing. */
  function Measure(s: string, st: State): nat
    requires st.pos <= |s|
  {
    2 * (|s| - st.pos) + if Usable(st) then 1 else 0
  }

  // ---------------------------------------------------------------- taking values

  function Cut(s: string, n: nat): string { if |s| <= n then s else s[..n] }

  /** The C string at the start of a character buffer. */
  function UpToNul(s: string): string {
    if s == [] || s[0] == NUL then [] else [s[0]] + UpToNul(s[1..])
  }

  /** json_parse_string into a buffer of max + 1 characters. */
  function Copied(text: string, max: nat): string { UpToNul(Cut(text, max)) }

  /** C's conversion of a double in int's range to int. */
  function Truncated(v: real): int { if v >= 0.0 then v.Floor else -((-v).Floor) }

  // ---------------------------------------------------------------- skipping values

  /** json_skip_value: the state it leaves and whether it returned 0. */
  function SkipValue(s: string, st: State): (r: (State, bool))
    requires st.pos <= |s|
    ensures st.pos <= r.0.pos <= |s| && Measure(s, r.0) <= Measure(s, st)
    ensures r.1 ==> Measure(s, r.0) < Measure(s, st)
    decreases Measure(s, st), 0
  {
    match st.tok
    case LBrace => SkipMembers(s, Next(s, st))
    case LBracket => SkipElements(s, Next(s, st))
    case Str(_) => (Next(s, st), true)
    case Num(_) => (Next(s, st), true)
    case True => (Next(s, st), true)
    case False => (Next(s, st), true)
    case Null => (Next(s, st), true)
    case _ => (st, false)
  }

  function PastComma(s: string, st: State): (r: State)
    requires st.pos <= |s|
    ensures st.pos <= r.pos <= |s| && Measure(s, r) <= Measure(s, st)
  {
    if st.tok == Comma then Next(s, st) else st
  }

  function SkipMembers(s: string, st: State): (r: (State, bool))
    requires st.pos <= |s|
    ensures st.pos <= r.0.pos <= |s| && Measure(s, r.0) <= Measure(s, st)
    decreases Measure(s, st), 1
  {
    if st.tok == RBrace then (Next(s, st), true)
    else if st.tok == Eof then (st, true)
    else if !st.tok.Str? then (st, false)
    else
      var colon := Next(s, st);
      if colon.tok != Colon then (colon, false)
      else
        var (after, ok) := SkipValue(s, Next(s, colon));
        if !ok then (after, false) else SkipMembers(s, PastComma(s, after))
  }

  function SkipElements(s: string, st: State): (r: (State, bool))
    requires st.pos <= |s|
    ensures st.pos <= r.0.pos <= |s| && Measure(s, r.0) <= Measure(s, st)
    decreases Measure(s, st), 1
  {
    if st.tok == RBracket then (Next(s, st), true)
    else if st.tok == Eof then (st, true)
    else
      var (after, ok) := SkipValue(s, st);
      if !ok then (after, false) else SkipElements(s, PastComma(s, after))
  }
}
