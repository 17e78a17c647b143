/** json_parser_t: the fields src/json.c updates in place, each function against the token functions. */
module JsonParser {
  import opened Format
  import opened JsonLexer
  import opened JsonNumber

  datatype Kind =
    | TokLBrace | TokRBrace | TokLBracket | TokRBracket | TokColon | TokComma
    | TokString | TokNumber | TokTrue | TokFalse | TokNull | TokEof | TokError

  class Parser {
    const input: string
    const stringBuf: array<char>
    var pos: nat
    var kind: Kind
    var stringLen: nat
    var numberValue: real

    ghost predicate Valid()
      reads this, stringBuf
    {
      && pos <= |input|
      && stringBuf.Length == STRING_MAX + 1
      && stringLen <= STRING_MAX
      && (kind == TokString ==> stringBuf[stringLen] == NUL)
    }

    /** The current token with the contents of the buffers it refers to. */
    ghost function Current(): Token
      requires Valid()
      reads this, stringBuf
    {
      match kind
      case TokLBrace => LBrace
      case TokRBrace => RBrace
      case TokLBracket => LBracket
      case TokRBracket => RBracket
      case TokColon => Colon
      case TokComma => Comma
      case TokString => Str(stringBuf[..stringLen])
      case TokNumber => Num(numberValue)
      case TokTrue => True
      case TokFalse => False
      case TokNull => Null
      case TokEof => Eof
      case TokError => Error
    }

    /** What the token kind says about the current token. */
    lemma KindIs()
      requires Valid()
      ensures kind == TokLBrace <==> Current() == LBrace
      ensures kind == TokRBrace <==> Current() == RBrace
      ensures kind == TokLBracket <==> Current() == LBracket
      ensures kind == TokRBracket <==> Current() == RBracket
      ensures kind == TokColon <==> Current() == Colon
      ensures kind == TokComma <==> Current() == Comma
      ensures kind == TokString <==> Current().Str?
      ensures kind == TokNumber <==> Current().Num?
      ensures kind == TokEof <==> Current() == Eof
    {
    }

    ghost function At(): State
      requires Valid()
      reads this, stringBuf
    {
      State(Current(), pos)
    }

    constructor (input: string)
      ensures Valid() && this.input == input && At() == State(Eof, 0) && fresh(stringBuf)
    {
      this.input := input;
      stringBuf := new char[STRING_MAX + 1](_ => NUL);
      pos, kind, stringLen, numberValue := 0, TokEof, 0, 0.0;
    }

    method SkipWhitespace()
      requires pos <= |input|
      modifies this`pos
      ensures pos == SpaceEnd(input, old(pos))
    {
      while pos < |input| && IsSpace(input[pos])
        invariant pos <= |input|
        invariant SpaceEnd(input, old(pos)) == SpaceEnd(input, pos)
      {
        pos := pos + 1;
      }
    }

    /** parse_string: ok means TOK_STRING, otherwise TOK_ERROR. */
    method ScanStringLiteral() returns (ok: bool)
      requires pos < |input| && stringBuf.Length == STRING_MAX + 1
      modifies this`pos, this`stringLen, stringBuf
      ensures stringLen <= STRING_MAX
      ensures ScanString(input, old(pos) + 1, []) == Scan(ok, stringBuf[..stringLen], pos)
      ensures ok ==> stringBuf[stringLen] == NUL
    {
      hide ScanString, ScanChar, BadUnicode, Append;
      pos := pos + 1;
      stringLen := 0;
      ghost var scan := ScanString(input, pos, []);
      assert stringBuf[..0] == [];
      while pos < |input|
        invariant pos <= |input| && stringLen <= STRING_MAX
        invariant ScanString(input, pos, stringBuf[..stringLen]) == scan
        decreases |input| - pos
      {
        ScanStep(input, pos, stringBuf[..stringLen]);
        if input[pos] == '"' {
          pos := pos + 1;
          stringBuf[stringLen] := NUL;
          return true;
        }
        var bad, c := ReadChar();
        if bad {
          return false;
        }
        StoreChar(c);
      }
      ScanEnd(input, stringBuf[..stringLen]);
      return false;
    }

    /** One character or escape sequence; pos is left before it counts the last character read. */
    method ReadChar() returns (bad: bool, c: char)
      requires pos < |input|
      modifies this`pos
      ensures bad == BadUnicode(input, old(pos))
      ensures bad ==> pos == old(pos) + 1
      ensures !bad ==> (c, pos) == ScanChar(input, old(pos)) && old(pos) < pos <= |input|
    {
      c := input[pos];
      bad := false;
      if c == '\\' && pos + 1 < |input| {
        pos := pos + 1;
        c := input[pos];
        if c == 'u' {
          if pos + 4 >= |input| {
            return true, c;
          }
          pos := pos + 4;
          c := '?';
        } else {
          c := Unescaped(c);
        }
      }
      pos := pos + 1;
    }

    method StoreChar(c: char)
      requires stringBuf.Length == STRING_MAX + 1 && stringLen <= STRING_MAX
      modifies this`stringLen, stringBuf
      ensures stringLen <= STRING_MAX && stringBuf[..stringLen] == Append(old(stringBuf[..stringLen]), c)
    {
      if stringLen < STRING_MAX {
        stringBuf[stringLen] := c;
        stringLen := stringLen + 1;
      }
    }

    method SkipDigits()
      requires pos <= |input|
      modifies this`pos
      ensures pos == DigitsEnd(input, old(pos))
    {
      while pos < |input| && IsDigit(input[pos])
        invariant old(pos) <= pos <= |input|
        invariant DigitsEnd(input, old(pos)) == DigitsEnd(input, pos)
      {
        pos := pos + 1;
      }
    }

    /** parse_number: find the end of the literal, then accumulate its value in a second pass. */
    method ScanNumber()
      requires pos < |input| && (input[pos] == '-' || IsDigit(input[pos]))
      modifies this`pos, this`numberValue
      ensures NumeralAt(input, old(pos)).1 == pos
      ensures numberValue == Denoted(NumeralAt(input, old(pos)).0)
    {
      hide NumeralAt, Denoted, DigitsEnd, FracEnd, ExpEnd, Finished, Accumulated;
      var start := pos;
      var negative := false;
      if input[pos] == '-' {
        negative := true;
        pos := pos + 1;
      }
      SkipDigits();
      SkipFraction();
      SkipExponent();
      NumeralEnd(input, start);
      AccumulateNumber(start, negative);
      LiteralValue(input, start);
    }

    method SkipFraction()
      requires pos <= |input|
      modifies this`pos
      ensures pos == FracEnd(input, old(pos)) <= |input|
    {
      if pos < |input| && input[pos] == '.' {
        pos := pos + 1;
        SkipDigits();
      }
    }

    method SkipExponent()
      requires pos <= |input|
      modifies this`pos
      ensures pos == ExpEnd(input, old(pos)) <= |input|
    {
      if pos < |input| && (input[pos] == 'e' || input[pos] == 'E') {
        pos := pos + 1;
        if pos < |input| && (input[pos] == '+' || input[pos] == '-') {
          pos := pos + 1;
        }
        SkipDigits();
      }
    }

    method AccumulateNumber(start: nat, negative: bool)
      requires start < pos <= |input|
      modifies this`numberValue
      ensures numberValue == Finished(Accumulated(input, start, pos), negative)
    {
      hide Tens, Scaled;
      numberValue := 0.0;
      var fraction := 0.0;
      var divisor: positive := 10.0;
      var exponent: nat := 0;
      var expNegative, inDecimal, inExponent := false, false, false;
      for i := start to pos
        invariant pos == old(pos)
        invariant Accumulated(input, start, i) ==
                  Acc(numberValue, fraction, divisor, exponent, expNegative, inDecimal, inExponent)
      {
        var c := input[i];
        if c == '-' && i == start {
        } else if c == '.' {
          inDecimal := true;
        } else if c == 'e' || c == 'E' {
          inExponent := true;
        } else if c == '+' {
        } else if c == '-' && inExponent {
          expNegative := true;
        } else if IsDigit(c) {
          var d := c as int - '0' as int;
          if inExponent {
            exponent := exponent * 10 + d;
          } else if inDecimal {
            fraction := fraction + d as real / divisor;
            divisor := divisor * 10.0;
          } else {
            numberValue := numberValue * 10.0 + d as real;
          }
        }
      }
      numberValue := numberValue + fraction;
      if inExponent {
        numberValue := ApplyExponent(numberValue, exponent, expNegative);
      }
      if negative {
        numberValue := -numberValue;
      }
    }

    static method ApplyExponent(m: real, exponent: nat, expNegative: bool) returns (r: real)
      ensures r == Scaled(m, exponent, expNegative)
    {
      var mult: positive := 1.0;
      TensStep(0);
      for i := 0 to exponent
        invariant mult == Tens(i)
      {
        mult := mult * 10.0;
        TensStep(i);
      }
      if exponent > 0 && !expNegative {
        r := m * mult;
      } else {
        r := m / mult;
      }
    }

    method NextToken()
      requires Valid()
      modifies this, stringBuf
      ensures Valid()
      ensures At() == Next(input, old(At()))
    {
      SkipWhitespace();
      if pos >= |input| {
        kind := TokEof;
      } else {
        TokenHere();
      }
    }

    /** The switch of json_next_token. */
    method TokenHere()
      requires Valid() && pos < |input|
      modifies this, stringBuf
      ensures Valid()
      ensures At() == TokenAt(input, old(pos))
    {
      hide ScanString, NumeralAt, Denoted;
      var c := input[pos];
      match c {
        case '{' => pos, kind := pos + 1, TokLBrace;
        case '}' => pos, kind := pos + 1, TokRBrace;
        case '[' => pos, kind := pos + 1, TokLBracket;
        case ']' => pos, kind := pos + 1, TokRBracket;
        case ':' => pos, kind := pos + 1, TokColon;
        case ',' => pos, kind := pos + 1, TokComma;
        case '"' =>
          var ok := ScanStringLiteral();
          kind := if ok then TokString else TokError;
        case 't' => Word("true", TokTrue);
        case 'f' => Word("false", TokFalse);
        case 'n' => Word("null", TokNull);
        case _ =>
          if c == '-' || IsDigit(c) {
            ScanNumber();
            kind := TokNumber;
          } else {
            kind := TokError;
          }
      }
    }

    method Word(w: string, k: Kind)
      requires pos <= |input|
      modifies this`pos, this`kind
      ensures if WordAt(input, old(pos), w) then pos == old(pos) + |w| && kind == k
              else pos == old(pos) && kind == TokError
    {
      if WordAt(input, pos, w) {
        pos, kind := pos + |w|, k;
      } else {
        kind := TokError;
      }
    }

    /** json_skip_value: 0 on success, -1 otherwise. */
    method SkipValue() returns (r: int)
      requires Valid()
      modifies this, stringBuf
      ensures Valid()
      ensures (At(), r == 0) == JsonLexer.SkipValue(input, old(At()))
      ensures r == 0 || r == -1
      decreases Measure(input, At()), 0
    {
      match kind {
        case TokLBrace =>
          NextToken();
          r := SkipMembersLoop();
        case TokLBracket =>
          NextToken();
          r := SkipElementsLoop();
        case TokString => NextToken(); r := 0;
        case TokNumber => NextToken(); r := 0;
        case TokTrue => NextToken(); r := 0;
        case TokFalse => NextToken(); r := 0;
        case TokNull => NextToken(); r := 0;
        case _ => r := -1;
      }
    }

    method SkipMembersLoop() returns (r: int)
      requires Valid()
      modifies this, stringBuf
      ensures Valid()
      ensures (At(), r == 0) == SkipMembers(input, old(At()))
      ensures r == 0 || r == -1
      decreases Measure(input, At()), 2
    {
      hide Measure;
      ghost var start := At();
      while kind != TokRBrace && kind != TokEof
        invariant Valid() && SkipMembers(input, At()) == SkipMembers(input, start)
        invariant Measure(input, At()) <= Measure(input, start)
        decreases Measure(input, At())
      {
        var ok := SkipMember();
        if !ok { return -1; }
      }
      if kind == TokRBrace { NextToken(); }
      r := 0;
    }

    /** One round of the object loop: key, colon, value and perhaps a comma. */
    method SkipMember() returns (ok: bool)
      requires Valid() && kind != TokRBrace && kind != TokEof
      modifies this, stringBuf
      ensures Valid()
      ensures ok ==> SkipMembers(input, old(At())) == SkipMembers(input, At())
      ensures ok ==> Measure(input, At()) < Measure(input, old(At()))
      ensures !ok ==> SkipMembers(input, old(At())) == (At(), false)
      decreases Measure(input, At()), 1
    {
      hide Lex, JsonLexer.SkipValue, SkipMembers;
      MemberStep(input, At());
      if kind != TokString { return false; }
      NextToken();
      if kind != TokColon { return false; }
      NextToken();
      var r := SkipValue();
      if r != 0 { return false; }
      if kind == TokComma { NextToken(); }
      return true;
    }

    /** One step of SkipMembers, spelt out. */
    static lemma MemberStep(s: string, st: State)
      requires st.pos <= |s| && st.tok != RBrace && st.tok != Eof
      ensures var colon := Next(s, st);
        if !st.tok.Str? then SkipMembers(s, st) == (st, false)
        else && Measure(s, colon) < Measure(s, st)
             && if colon.tok != Colon then SkipMembers(s, st) == (colon, false)
                else var (after, ok) := JsonLexer.SkipValue(s, Next(s, colon));
                     && Measure(s, Next(s, colon)) < Measure(s, st)
                     && Measure(s, PastComma(s, after)) < Measure(s, st)
                     && SkipMembers(s, st) == if ok then SkipMembers(s, PastComma(s, after)) else (after, false)
    {
      hide Lex;
    }

    method SkipElementsLoop() returns (r: int)
      requires Valid()
      modifies this, stringBuf
      ensures Valid()
      ensures (At(), r == 0) == SkipElements(input, old(At()))
      ensures r == 0 || r == -1
      decreases Measure(input, At()), 2
    {
      hide Measure;
      ghost var start := At();
      while kind != TokRBracket && kind != TokEof
        invariant Valid() && SkipElements(input, At()) == SkipElements(input, start)
        invariant Measure(input, At()) <= Measure(input, start)
        decreases Measure(input, At())
      {
        var ok := SkipElement();
        if !ok { return -1; }
      }
      if kind == TokRBracket { NextToken(); }
      r := 0;
    }

    /** One round of the array loop. */
    method SkipElement() returns (ok: bool)
      requires Valid() && kind != TokRBracket && kind != TokEof
      modifies this, stringBuf
      ensures Valid()
      ensures ok ==> SkipElements(input, old(At())) == SkipElements(input, At())
      ensures ok ==> Measure(input, At()) < Measure(input, old(At()))
      ensures !ok ==> SkipElements(input, old(At())) == (At(), false)
      decreases Measure(input, At()), 1
    {
      hide Lex;
      var r := SkipValue();
      if r != 0 { return false; }
      if kind == TokComma { NextToken(); }
      return true;
    }

    // ---------------------------------------------------------------- taking the current token's value

    /** json_parse_string: the C string left in a buffer of max + 1 characters. */
    method ParseString(max: nat) returns (ok: bool, text: string)
      requires Valid()
      modifies this, stringBuf
      ensures Valid() && ok == old(Current()).Str?
      ensures ok ==> At() == Next(input, old(At())) && text == Copied(old(Current()).text, max)
      ensures !ok ==> At() == old(At())
    {
      hide Lex, UpToNul;
      text := [];
      ok := kind == TokString;
      if ok {
        var n := if stringLen < max then stringLen else max;
        assert stringBuf[..n] == Cut(stringBuf[..stringLen], max);
        text := CopyString(n);
        NextToken();
      }
    }

    /** strncpy of n characters. */
    method CopyString(n: nat) returns (text: string)
      requires n <= stringBuf.Length
      ensures text == UpToNul(stringBuf[..n])
    {
      text := [];
      ghost var cut := stringBuf[..n];
      var i := 0;
      while i < n && stringBuf[i] != NUL
        invariant 0 <= i <= n
        invariant UpToNul(cut) == text + UpToNul(cut[i..])
      {
        assert cut[i..][1..] == cut[i + 1..];
        text := text + [stringBuf[i]];
        i := i + 1;
      }
    }

    method ParseNumber() returns (ok: bool, value: real)
      requires Valid()
      modifies this, stringBuf
      ensures Valid() && ok == old(Current()).Num?
      ensures ok ==> At() == Next(input, old(At())) && value == old(Current()).value
      ensures !ok ==> At() == old(At())
    {
      hide Lex;
      value := 0.0;
      ok := kind == TokNumber;
      if ok {
        value := numberValue;
        NextToken();
      }
    }

    method ParseInt() returns (ok: bool, value: int)
      requires Valid()
      modifies this, stringBuf
      ensures Valid() && ok == old(Current()).Num?
      ensures ok ==> At() == Next(input, old(At())) && value == Truncated(old(Current()).value)
      ensures !ok ==> At() == old(At())
    {
      hide Lex;
      value := 0;
      ok := kind == TokNumber;
      if ok {
        value := Truncated(numberValue);
        NextToken();
      }
    }

    method ParseBool() returns (ok: bool, value: bool)
      requires Valid()
      modifies this, stringBuf
      ensures Valid() && ok == (old(Current()) == True || old(Current()) == False)
      ensures ok ==> At() == Next(input, old(At())) && value == (old(Current()) == True)
      ensures !ok ==> At() == old(At())
    {
      hide Lex;
      value := kind == TokTrue;
      ok := kind == TokTrue || kind == TokFalse;
      if ok {
        NextToken();
      }
    }
  }
}
