/** What string and number literals mean, in every form that the lexer takes, and that a token is read alike wherever it
    stands in a text. */
module JsonLiterals {
  import opened Format
  import opened JsonLexer
  import opened JsonRoundTrip
  import opened JsonSpaces

  // ---------------------------------------------------------------- string literals

  /** Between the quotes: a plain character, a backslash and a character, or \u and four characters. */
  datatype Part = Plain(c: char) | Escape(e: char) | Unicode(h: string)

  predicate ProperPart(x: Part) {
    match x
    case Plain(c) => c != '"' && c != '\\'
    case Escape(e) => e != 'u'
    case Unicode(h) => |h| == 4
  }

  function Source(x: Part): string {
    match x
    case Plain(c) => [c]
    case Escape(e) => ['\\', e]
    case Unicode(h) => ['\\', 'u'] + h
  }

  /** A tab for \t, and so on; any other character stands for itself behind a backslash; \u is not decoded. */
  function Meant(x: Part): char {
    match x
    case Plain(c) => c
    case Escape(e) =>
      if e == 'b' then 8 as char else if e == 't' then 9 as char else if e == 'n' then 10 as char
      else if e == 'f' then 12 as char else if e == 'r' then 13 as char else e
    case Unicode(_) => '?'
  }

  function Sources(xs: seq<Part>): string {
    if xs == [] then [] else Source(xs[0]) + Sources(xs[1..])
  }

  function Meanings(xs: seq<Part>): string {
    seq(|xs|, i requires 0 <= i < |xs| => Meant(xs[i]))
  }

  lemma PartReads(s: string, p: nat, x: Part, text: string)
    requires ProperPart(x) && Holds(s, p, Source(x)) && p + |Source(x)| < |s| && |text| <= STRING_MAX
    ensures ScanString(s, p, text) == ScanString(s, p + |Source(x)|, Append(text, Meant(x)))
  {
    hide ScanString;
    HoldsChar(s, p, Source(x), 0);
    if !x.Plain? { HoldsChar(s, p, Source(x), 1); }
    ScanStep(s, p, text);
  }

  lemma {:induction false} PartsRead(s: string, p: nat, xs: seq<Part>, text: string)
    requires (forall x :: x in xs ==> ProperPart(x)) && |text| <= STRING_MAX
    requires Holds(s, p, Sources(xs) + "\"")
    ensures ScanString(s, p, text) == Scan(true, Cut(text + Meanings(xs), STRING_MAX), p + |Sources(xs)| + 1)
    decreases |xs|
  {
    hide ScanString, Append, Cut, Holds, Source, Meant, ProperPart;
    Within(s, p, Sources(xs) + "\"");
    if xs == [] {
      ClosingQuote(s, p, text);
    } else {
      var x, rest := xs[0], Sources(xs[1..]) + "\"";
      assert Sources(xs) + "\"" == Source(x) + rest;
      HoldsParts(s, p, Source(x), rest);
      Within(s, p + |Source(x)|, rest);
      PartReads(s, p, x, text);
      AppendFits(text, Meant(x));
      PartsRead(s, p + |Source(x)|, xs[1..], Append(text, Meant(x)));
      AppendCut(text, Meant(x), Meanings(xs[1..]));
      assert Meanings(xs) == [Meant(x)] + Meanings(xs[1..]);
    }
  }

  lemma AppendFits(text: string, c: char)
    requires |text| <= STRING_MAX
    ensures |Append(text, c)| <= STRING_MAX
  {
  }

  lemma ClosingQuote(s: string, p: nat, text: string)
    requires Holds(s, p, Sources([]) + "\"") && |text| <= STRING_MAX
    ensures ScanString(s, p, text) == Scan(true, Cut(text + Meanings([]), STRING_MAX), p + |Sources([])| + 1)
  {
    HoldsChar(s, p, "\"", 0);
    assert text + Meanings([]) == text;
  }

  /** A string literal of any parts lexes to what they mean, cut to 1023 characters, and ends behind its quote. */
  lemma StringLiteral(s: string, p: nat, xs: seq<Part>)
    requires forall x :: x in xs ==> ProperPart(x)
    requires Holds(s, p, "\"" + (Sources(xs) + "\""))
    ensures var m := Meanings(xs);
      Lex(s, p) == State(Str(if |m| <= 1023 then m else m[..1023]), p + |Sources(xs)| + 2)
  {
    hide ScanString, Meant, Source;
    HoldsParts(s, p, "\"", Sources(xs) + "\"");
    HoldsChar(s, p, "\"", 0);
    PartsRead(s, p + 1, xs, []);
    assert [] + Meanings(xs) == Meanings(xs);
  }

  /** A literal that the text ends in, or that it ends in the middle of \u, is an ERROR. */
  lemma {:induction false} UnendedLiteral(s: string, p: nat, xs: seq<Part>, text: string)
    requires (forall x :: x in xs ==> ProperPart(x)) && |text| <= STRING_MAX
    requires p <= |s| && s[p..] == Sources(xs)
    ensures !ScanString(s, p, text).ok
    decreases |xs|
  {
    hide Append, Meant, ScanString, Holds, Source, ProperPart;
    if xs == [] {
      ScanEnd(s, text);
    } else {
      var x := xs[0];
      HoldsFront(s, p, Source(x), Sources(xs[1..]));
      AppendFits(text, Meant(x));
      if p + |Source(x)| < |s| {
        PartReads(s, p, x, text);
        UnendedLiteral(s, p + |Source(x)|, xs[1..], Append(text, Meant(x)));
      } else {
        LastPart(s, p, x, text);
      }
    }
  }

  lemma HoldsFront(s: string, p: nat, x: string, rest: string)
    requires p <= |s| && s[p..] == x + rest
    ensures Holds(s, p, x) && p + |x| <= |s| && s[p + |x|..] == rest
  {
    assert s[p..p + |x|] == s[p..][..|x|];
    assert s[p + |x|..] == s[p..][|x|..];
  }

  lemma LastPart(s: string, p: nat, x: Part, text: string)
    requires ProperPart(x) && Holds(s, p, Source(x)) && p + |Source(x)| == |s| && |text| <= STRING_MAX
    ensures !ScanString(s, p, text).ok
  {
    HoldsChar(s, p, Source(x), 0);
    if !x.Plain? { HoldsChar(s, p, Source(x), 1); }
    hide ScanString;
    ScanStep(s, p, text);
    if !BadUnicode(s, p) { ScanEnd(s, Append(text, ScanChar(s, p).0)); }
  }

  // ---------------------------------------------------------------- number literals

  predicate AllDigits(d: string) {
    forall i :: 0 <= i < |d| ==> '0' <= d[i] <= '9'
  }

  /** A number literal: an optional minus, digits, optionally a point and digits, optionally e or E, a sign and digits;
      without the minus there is at least one digit in front. */
  datatype Literal = Literal(minus: bool, whole: string, point: bool, frac: string, mark: string, sign: string,
                             exp: string)

  predicate ProperLiteral(n: Literal) {
    && AllDigits(n.whole) && AllDigits(n.frac) && AllDigits(n.exp)
    && (n.minus || n.whole != "") && (n.frac != "" ==> n.point)
    && n.mark in {"", "e", "E"} && n.sign in {"", "+", "-"}
    && (n.mark == "" ==> n.sign == "" && n.exp == "")
  }

  function Minus(n: Literal): string { if n.minus then "-" else "" }
  function Point(n: Literal): string { if n.point then "." else "" }

  function Written(n: Literal): string {
    Minus(n) + (n.whole + (Point(n) + (n.frac + (n.mark + (n.sign + n.exp)))))
  }

  /** Where the digits of its three parts begin and end. */
  datatype Layout = Layout(a: nat, b: nat, f: nat, c: nat, e: nat, d: nat)

  function LayoutAt(p: nat, n: Literal): Layout {
    var a := p + |Minus(n)|;
    var b := a + |n.whole|;
    var f := b + |Point(n)|;
    var c := f + |n.frac|;
    var e := c + |n.mark| + |n.sign|;
    Layout(a, b, f, c, e, e + |n.exp|)
  }

  predicate Run(s: string, i: nat, e: nat, d: string) {
    i <= e <= |s| && s[i..e] == d && forall k :: i <= k < e ==> IsDigit(s[k])
  }

  /** The characters between them, and what ends it. */
  predicate Between(s: string, p: nat, n: Literal, l: Layout) {
    && l.d <= |s| && (n.minus ==> l.a == p + 1 <= |s| && s[p] == '-') && (!n.minus ==> l.a == p)
    && (n.point ==> l.f == l.b + 1 <= |s| && s[l.b] == '.') && (!n.point ==> l.f == l.b == l.c)
    && (n.mark != "" ==> l.c < |s| && s[l.c] in {'e', 'E'})
    && (n.mark != "" && n.sign != "" ==> l.e == l.c + 2 <= |s| && s[l.c + 1] == n.sign[0] && n.sign[0] in {'+', '-'})
    && (n.mark != "" && n.sign == "" ==> l.e == l.c + 1)
    && (n.mark == "" ==> l.e == l.d == l.c)
    && (l.d < |s| ==> !IsDigit(s[l.d]) && s[l.d] !in {'.', 'e', 'E', '+', '-'})
  }

  lemma RunHeld(s: string, i: nat, d: string)
    requires Holds(s, i, d) && AllDigits(d)
    ensures Run(s, i, i + |d|, d)
  {
    HeldDigits(s, i, d);
  }

  lemma Runs(s: string, p: nat, n: Literal)
    requires ProperLiteral(n) && Holds(s, p, Written(n)) && Delimited(s, p + |Written(n)|)
    ensures var l := LayoutAt(p, n);
      && l.d == p + |Written(n)|
      && Run(s, l.a, l.b, n.whole) && Run(s, l.f, l.c, n.frac) && Run(s, l.e, l.d, n.exp) && Between(s, p, n, l)
  {
    hide Holds, Run, AllDigits, Delimited, Between;
    var l := LayoutAt(p, n);
    PartsHeld(s, p, Minus(n), n.whole, Point(n), n.frac, n.mark, n.sign, n.exp);
    RunHeld(s, l.a, n.whole);
    RunHeld(s, l.f, n.frac);
    RunHeld(s, l.e, n.exp);
    BetweenHeld(s, p, n, l);
  }

  lemma PartsHeld(s: string, p: nat, x1: string, x2: string, x3: string, x4: string, x5: string, x6: string, x7: string)
    requires Holds(s, p, x1 + (x2 + (x3 + (x4 + (x5 + (x6 + x7))))))
    ensures var p2 := p + |x1|;
            var p3 := p2 + |x2|;
            var p4 := p3 + |x3|;
            var p5 := p4 + |x4|;
            var p6 := p5 + |x5|;
      && Holds(s, p, x1) && Holds(s, p2, x2) && Holds(s, p3, x3) && Holds(s, p4, x4) && Holds(s, p5, x5)
      && Holds(s, p6, x6) && Holds(s, p6 + |x6|, x7)
  {
    hide Holds;
    var y6 := x6 + x7;
    var y5 := x5 + y6;
    var y4 := x4 + y5;
    var y3 := x3 + y4;
    var p2 := p + |x1|;
    var p3 := p2 + |x2|;
    var p4 := p3 + |x3|;
    var p5 := p4 + |x4|;
    HoldsParts(s, p, x1, x2 + y3);
    HoldsParts(s, p2, x2, y3);
    HoldsParts(s, p3, x3, y4);
    HoldsParts(s, p4, x4, y5);
    HoldsParts(s, p5, x5, y6);
    HoldsParts(s, p5 + |x5|, x6, x7);
  }

  lemma BetweenHeld(s: string, p: nat, n: Literal, l: Layout)
    requires ProperLiteral(n) && l == LayoutAt(p, n) && Holds(s, p, Minus(n)) && Holds(s, l.b, Point(n))
    requires Holds(s, l.c, n.mark) && Holds(s, l.c + |n.mark|, n.sign) && Holds(s, l.e, n.exp) && Delimited(s, l.d)
    ensures Between(s, p, n, l)
  {
    hide Holds, AllDigits;
    Within(s, p, Minus(n));
    Within(s, l.b, Point(n));
    Within(s, l.c, n.mark);
    Within(s, l.c + |n.mark|, n.sign);
    Within(s, l.e, n.exp);
    if n.minus { HoldsChar(s, p, "-", 0); }
    if n.point { HoldsChar(s, l.b, ".", 0); }
    if n.mark != "" { HoldsChar(s, l.c, n.mark, 0); }
    if n.sign != "" { HoldsChar(s, l.c + |n.mark|, n.sign, 0); }
  }

  lemma WholeRun(s: string, p: nat, n: Literal, l: Layout)
    requires Between(s, p, n, l) && Run(s, l.a, l.b, n.whole) && (n.minus || l.a < l.b)
    ensures p < |s| && (s[p] == '-' || IsDigit(s[p])) && (s[p] == '-' <==> n.minus)
    ensures IntStart(s, p) == l.a && DigitsEnd(s, l.a) == l.b
  {
    hide DigitsEnd;
    DigitsEndIs(s, l.a, l.b);
  }

  lemma FracRun(s: string, p: nat, n: Literal, l: Layout)
    requires Between(s, p, n, l) && Run(s, l.f, l.c, n.frac)
    ensures l.b <= |s| && FracStart(s, l.b) == l.f && FracEnd(s, l.b) == l.c
  {
    hide DigitsEnd;
    DigitsEndIs(s, l.f, l.c);
  }

  lemma ExpRun(s: string, p: nat, n: Literal, l: Layout)
    requires Between(s, p, n, l) && Run(s, l.e, l.d, n.exp)
    requires n.sign in {"", "+", "-"} && (n.mark == "" ==> n.sign == "")
    ensures l.c <= |s| && ExpStart(s, l.c) == l.e && ExpEnd(s, l.c) == l.d && ExpMinus(s, l.c) == (n.sign == "-")
  {
    hide DigitsEnd;
    DigitsEndIs(s, l.e, l.d);
    if n.mark != "" && n.sign == "" && l.e < |s| { assert l.e < l.d ==> IsDigit(s[l.e]); }
  }

  function Signed(negative: bool, d: int): int { if negative then -d else d }

  /** The number that a literal denotes, times the power of ten of its fraction, is the integer of all its digits, with
      its sign, shifted by its exponent. */
  lemma NumberLiteral(s: string, p: nat, n: Literal)
    requires ProperLiteral(n) && Holds(s, p, Written(n)) && Delimited(s, p + |Written(n)|)
    ensures var st := Lex(s, p);
            var digits, shift := Value(n.whole + n.frac, 10), Value(n.exp, 10);
            var signed := Signed(n.minus, digits);
      && st.tok.Num? && st.pos == p + |Written(n)|
      && if n.sign == "-" then
           st.tok.value * Pow(10, |n.frac|) as real * Pow(10, shift) as real == signed as real
         else
           st.tok.value * Pow(10, |n.frac|) as real == signed as real * Pow(10, shift) as real
  {
    hide Value, Denoted, Pow, Holds, Written, Delimited, Lex, NumeralAt;
    NumeralIs(s, p, n);
    LexNumber(s, p);
    DenotedScales(Numeral(n.minus, n.whole, n.frac, n.sign == "-", n.exp));
  }

  lemma NumeralIs(s: string, p: nat, n: Literal)
    requires ProperLiteral(n) && Holds(s, p, Written(n)) && Delimited(s, p + |Written(n)|)
    ensures p < |s| && (s[p] == '-' || IsDigit(s[p]))
    ensures NumeralAt(s, p) == (Numeral(n.minus, n.whole, n.frac, n.sign == "-", n.exp), p + |Written(n)|)
  {
    hide Holds, Written, Delimited, Run, Between, LayoutAt;
    var l := LayoutAt(p, n);
    Runs(s, p, n);
    LayoutGrows(p, n);
    WholeRun(s, p, n, l);
    FracRun(s, p, n, l);
    ExpRun(s, p, n, l);
    RunIs(s, l.a, l.b, n.whole);
    RunIs(s, l.f, l.c, n.frac);
    RunIs(s, l.e, l.d, n.exp);
    NumeralParts(s, p, n, l);
  }

  lemma NumeralParts(s: string, p: nat, n: Literal, l: Layout)
    requires p < |s| && (s[p] == '-' <==> n.minus) && IntStart(s, p) == l.a && DigitsEnd(s, l.a) == l.b
    requires FracStart(s, l.b) == l.f && FracEnd(s, l.b) == l.c
    requires ExpStart(s, l.c) == l.e && ExpEnd(s, l.c) == l.d && ExpMinus(s, l.c) == (n.sign == "-")
    requires s[l.a..l.b] == n.whole && l.f <= l.c && s[l.f..l.c] == n.frac && s[l.e..l.d] == n.exp
    ensures NumeralAt(s, p) == (Numeral(n.minus, n.whole, n.frac, n.sign == "-", n.exp), l.d)
  {
    hide IntStart, DigitsEnd, FracStart, FracEnd, ExpStart, ExpEnd, ExpMinus;
  }

  lemma LayoutGrows(p: nat, n: Literal)
    requires ProperLiteral(n)
    ensures var l := LayoutAt(p, n); n.minus || l.a < l.b
  {
  }

  lemma RunIs(s: string, i: nat, e: nat, d: string)
    requires Run(s, i, e, d)
    ensures i <= e <= |s| && s[i..e] == d
  {
  }

  lemma LexNumber(s: string, p: nat)
    requires p < |s| && (s[p] == '-' || IsDigit(s[p]))
    ensures Lex(s, p) == State(Num(Denoted(NumeralAt(s, p).0)), NumeralAt(s, p).1)
  {
    hide Denoted, NumeralAt;
  }

  lemma DenotedScales(n: Numeral)
    ensures var x, digits, shift := Denoted(n), Value(n.whole + n.frac, 10), Value(n.exp, 10);
            var signed := Signed(n.negative, digits);
      if n.expNegative then x * Pow(10, |n.frac|) as real * Pow(10, shift) as real == signed as real
      else x * Pow(10, |n.frac|) as real == signed as real * Pow(10, shift) as real
  {
    hide Value, Pow;
    var t, e := Tens(|n.frac|), Tens(Value(n.exp, 10));
    ValueJoined(n.whole, n.frac);
    MantissaScales(n);
    ScaledScales(Mantissa(n), Value(n.exp, 10), n.expNegative);
    Products(Mantissa(n), t, e, Value(n.whole + n.frac, 10) as real,
             Scaled(Mantissa(n), Value(n.exp, 10), n.expNegative), n.expNegative, n.negative);
    TensPow(|n.frac|);
    TensPow(Value(n.exp, 10));
  }

  lemma TensPow(k: nat)
    ensures Tens(k) == Pow(10, k) as real
  {
  }

  lemma {:induction false} ValueJoined(a: string, b: string)
    ensures Value(a + b, 10) == Value(a, 10) * Pow(10, |b|) + Value(b, 10)
    decreases |b|
  {
    hide DigitValue, Pow, Value;
    if b == [] {
      assert a + b == a;
      ValueNone(10);
      PowZero();
    } else {
      var n := |b| - 1;
      ValueJoined(a, b[..n]);
      assert a + b == (a + b[..n]) + [b[n]] && b == b[..n] + [b[n]];
      ValueAppend(a + b[..n], b[n], 10);
      ValueAppend(b[..n], b[n], 10);
      PowStep(n);
      Tenfold(Value(a, 10), Pow(10, n));
    }
  }

  lemma PowZero()
    ensures Pow(10, 0) == 1
  {
  }

  lemma PowStep(n: nat)
    ensures Pow(10, n + 1) == 10 * Pow(10, n)
  {
  }

  lemma Tenfold(x: nat, y: nat)
    ensures x * y * 10 == x * (10 * y)
  {
  }

  lemma MantissaScales(n: Numeral)
    ensures Mantissa(n) * Tens(|n.frac|) == (Value(n.whole, 10) * Pow(10, |n.frac|) + Value(n.frac, 10)) as real
  {
    hide Value, Pow, Tens;
    var w, f, t := Value(n.whole, 10), Value(n.frac, 10), Tens(|n.frac|);
    TensPow(|n.frac|);
    OverTimes(f as real, t);
    SumTimes(w as real, f as real / t, t);
    assert (w * Pow(10, |n.frac|)) as real == w as real * Pow(10, |n.frac|) as real;
  }

  lemma OverTimes(x: real, t: real)
    requires t >= 1.0
    ensures x / t * t == x
  {
  }

  lemma SumTimes(x: real, y: real, t: real)
    ensures (x + y) * t == x * t + y * t
  {
  }

  lemma ScaledScales(m: real, k: nat, down: bool)
    ensures if down then Scaled(m, k, down) * Tens(k) == m else Scaled(m, k, down) == m * Tens(k)
  {
    if down || k == 0 { OverTimes(m, Tens(k)); }
  }

  lemma Products(m: real, t: real, e: real, d: real, x: real, down: bool, negative: bool)
    requires m * t == d && (if down then x * e == m else x == m * e)
    ensures var y, z := WithSign(x, negative), WithSign(d, negative);
      if down then y * t * e == z else y * t == z * e
  {
    if down {
      assert x * t * e == x * e * t;
    } else {
      assert x * t == m * t * e;
    }
  }

  // ---------------------------------------------------------------- a token wherever it stands

  lemma ShiftSlice(w: string, s: string, i: nat, j: nat)
    requires i <= j <= |s|
    ensures (w + s)[|w| + i..|w| + j] == s[i..j]
  {
  }

  lemma {:induction false} ShiftSpaces(w: string, s: string, i: nat)
    requires i <= |s|
    ensures SpaceEnd(w + s, |w| + i) == |w| + SpaceEnd(s, i)
    decreases |s| - i
  {
    if i < |s| { ShiftSpaces(w, s, i + 1); }
  }

  lemma {:induction false} ShiftDigits(w: string, s: string, i: nat)
    requires i <= |s|
    ensures DigitsEnd(w + s, |w| + i) == |w| + DigitsEnd(s, i)
    decreases |s| - i
  {
    if i < |s| { ShiftDigits(w, s, i + 1); }
  }

  lemma {:induction false} ShiftScan(w: string, s: string, i: nat, text: string)
    requires i <= |s| && |text| <= STRING_MAX
    ensures var r := ScanString(s, i, text); ScanString(w + s, |w| + i, text) == Scan(r.ok, r.text, |w| + r.pos)
    decreases |s| - i
  {
    hide ScanString, Append;
    if i == |s| {
      ScanEnd(s, text);
      ScanEnd(w + s, text);
      assert |w| + i == |w + s|;
    } else {
      ScanStep(s, i, text);
      ScanStep(w + s, |w| + i, text);
      if s[i] != '"' && !BadUnicode(s, i) {
        var (c, j) := ScanChar(s, i);
        AppendFits(text, c);
        ShiftScan(w, s, j, Append(text, c));
      }
    }
  }

  lemma ShiftFrac(w: string, s: string, b: nat)
    requires b <= |s|
    ensures FracStart(w + s, |w| + b) == |w| + FracStart(s, b) && FracEnd(w + s, |w| + b) == |w| + FracEnd(s, b)
  {
    hide DigitsEnd;
    if b < |s| { ShiftDigits(w, s, b + 1); }
  }

  lemma ShiftExp(w: string, s: string, c: nat)
    requires c <= |s|
    ensures ExpStart(w + s, |w| + c) == |w| + ExpStart(s, c) && ExpEnd(w + s, |w| + c) == |w| + ExpEnd(s, c)
    ensures ExpMinus(w + s, |w| + c) == ExpMinus(s, c)
  {
    hide DigitsEnd;
    ShiftDigits(w, s, ExpStart(s, c));
  }

  lemma ShiftNumeral(w: string, s: string, i: nat)
    requires i < |s|
    ensures NumeralAt(w + s, |w| + i) == (NumeralAt(s, i).0, |w| + NumeralAt(s, i).1)
  {
    hide FracStart, FracEnd, ExpStart, ExpEnd, ExpMinus, DigitsEnd;
    var a := IntStart(s, i);
    var b := DigitsEnd(s, a);
    var c := FracEnd(s, b);
    ShiftDigits(w, s, a);
    ShiftFrac(w, s, b);
    ShiftExp(w, s, c);
    ShiftSlice(w, s, a, b);
    FracOrder(s, b);
    ShiftSlice(w, s, FracStart(s, b), c);
    ShiftSlice(w, s, ExpStart(s, c), ExpEnd(s, c));
  }

  lemma FracOrder(s: string, b: nat)
    requires b <= |s|
    ensures FracStart(s, b) <= FracEnd(s, b)
  {
  }

  lemma ShiftWord(w: string, s: string, i: nat, word: string)
    requires i <= |s|
    ensures WordAt(w + s, |w| + i, word) == WordAt(s, i, word)
  {
    if i + |word| <= |s| { ShiftSlice(w, s, i, i + |word|); }
  }

  /** What stands before a position makes no difference to the token there. */
  lemma LexShifted(w: string, s: string, p: nat)
    requires p <= |s|
    ensures Lex(w + s, |w| + p) == State(Lex(s, p).tok, |w| + Lex(s, p).pos)
  {
    hide SpaceEnd, TokenAt;
    ShiftSpaces(w, s, p);
    if SpaceEnd(s, p) < |s| { ShiftToken(w, s, SpaceEnd(s, p)); }
  }

  lemma ShiftToken(w: string, s: string, i: nat)
    requires i < |s|
    ensures TokenAt(w + s, |w| + i) == State(TokenAt(s, i).tok, |w| + TokenAt(s, i).pos)
  {
    hide ScanString, NumeralAt, Denoted, WordAt;
    assert (w + s)[|w| + i] == s[i];
    if s[i] == '"' {
      ShiftScan(w, s, i + 1, []);
    } else if s[i] == '-' || IsDigit(s[i]) {
      ShiftNumeral(w, s, i);
    } else {
      ShiftWord(w, s, i, "true");
      ShiftWord(w, s, i, "false");
      ShiftWord(w, s, i, "null");
    }
  }

  /** So the token at the start of blanks and a text is that of the text, as many characters later. */
  lemma BlanksBefore(w: string, s: string)
    requires AllBlank(w)
    ensures Lex(w + s, 0) == State(Lex(s, 0).tok, |w| + Lex(s, 0).pos)
  {
    hide Lex;
    assert (w + s)[0..|w|] == w;
    BlanksSkipped(w + s, 0, |w|);
    LexShifted(w, s, 0);
  }

  // ---------------------------------------------------------------- values taken from tokens

  /** The conversion to int drops what is behind the point. */
  lemma TruncatedIs(v: real)
    ensures var i := Truncated(v);
      && (v >= 0.0 ==> 0 <= i && i as real <= v < i as real + 1.0)
      && (v <= 0.0 ==> i <= 0 && i as real - 1.0 < v <= i as real)
  {
  }

  /** A C string in a buffer is all before the first NUL. */
  lemma CopiedIs(text: string, max: nat)
    ensures var c := Copied(text, max);
      && |c| <= |text| && |c| <= max && c == text[..|c|] && CString(c)
      && (|c| == |text| || |c| == max || text[|c|] == NUL)
  {
    UpToNulIs(Cut(text, max));
  }

  lemma {:induction false} UpToNulIs(s: string)
    ensures var c := UpToNul(s);
      |c| <= |s| && c == s[..|c|] && CString(c) && (|c| == |s| || s[|c|] == NUL)
  {
    if s != [] && s[0] != NUL { UpToNulIs(s[1..]); }
  }
}
