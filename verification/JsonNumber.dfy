/** The one-pass accumulation of a number literal in parse_number, and that it denotes what the literal's
    parts say.  Doubles are modelled by exact reals. */
module JsonNumber {
  import opened Format
  import opened JsonLexer

  type positive = r: real | r > 0.0 witness 1.0

  /** The local variables of the accumulation loop. */
  datatype Acc = Acc(number: real, fraction: real, divisor: positive, exponent: nat,
                     expNegative: bool, inDecimal: bool, inExponent: bool)

  const START := Acc(0.0, 0.0, 10.0, 0, false, false, false)

  /** One round of the loop at position i of a literal that starts at `start`. */
  function Step(acc: Acc, s: string, start: nat, i: nat): Acc
    requires start <= i < |s|
  {
    var c := s[i];
    if c == '-' && i == start then acc
    else if c == '.' then acc.(inDecimal := true)
    else if c == 'e' || c == 'E' then acc.(inExponent := true)
    else if c == '+' then acc
    else if c == '-' && acc.inExponent then acc.(expNegative := true)
    else if IsDigit(c) then
      var d := c as int - '0' as int;
      if acc.inExponent then acc.(exponent := acc.exponent * 10 + d)
      else if acc.inDecimal then acc.(fraction := acc.fraction + d as real / acc.divisor, divisor := acc.divisor * 10.0)
      else acc.(number := acc.number * 10.0 + d as real)
    else acc
  }

  function Accumulated(s: string, start: nat, i: nat): Acc
    requires start <= i <= |s|
  {
    if i == start then START else Step(Accumulated(s, start, i - 1), s, start, i - 1)
  }

  /** Sign and exponent applied to an accumulated literal. */
  function Finished(acc: Acc, negative: bool): real {
    var m := Sum(acc);
    WithSign(if acc.inExponent then Scaled(m, acc.exponent, acc.expNegative) else m, negative)
  }

  function Sum(acc: Acc): real { acc.number + acc.fraction }

  lemma NotScaled(m: real)
    ensures Scaled(m, 0, false) == m
  {
    TensStep(0);
  }

  lemma TensStep(k: nat)
    ensures Tens(k + 1) == Tens(k) * 10.0
    ensures Tens(0) == 1.0
  {
  }

  /** The digits of s[a..i] read so far as the whole part. */
  lemma {:induction false} WholePart(s: string, start: nat, a: nat, i: nat)
    requires start < |s| && a == IntStart(s, start) && a <= i <= |s| && forall k :: a <= k < i ==> IsDigit(s[k])
    ensures Accumulated(s, start, i) == START.(number := Value(s[a..i], 10) as real)
    decreases i
  {
    hide Accumulated, Step, Value, DigitValue;
    if i > a {
      WholePart(s, start, a, i - 1);
      assert s[a..i] == s[a..i - 1] + [s[i - 1]];
      ValueAppend(s[a..i - 1], s[i - 1], 10);
      AccumulatedStep(s, start, i);
      WholeDigit(Accumulated(s, start, i - 1), s, start, i - 1);
    } else {
      assert s[a..a] == [];
      ValueNone(10);
      SignSkipped(s, start);
    }
  }

  lemma SignSkipped(s: string, start: nat)
    requires start < |s|
    ensures Accumulated(s, start, IntStart(s, start)) == START
  {
    assert Accumulated(s, start, start) == START;
    if s[start] == '-' { AccumulatedStep(s, start, start + 1); }
  }

  lemma WholeDigit(acc: Acc, s: string, start: nat, i: nat)
    requires start <= i < |s| && IsDigit(s[i]) && !acc.inDecimal && !acc.inExponent
    ensures Step(acc, s, start, i) == acc.(number := acc.number * 10.0 + DigitValue(s[i]) as real)
  {
  }

  lemma {:induction false} FracPart(s: string, start: nat, b: nat, i: nat, acc: Acc)
    requires start < b < i <= |s| && s[b] == '.' && forall k :: b < k < i ==> IsDigit(s[k])
    requires acc == Accumulated(s, start, b) && acc.fraction == 0.0 && acc.divisor == 10.0 && !acc.inExponent
    ensures Accumulated(s, start, i) ==
            acc.(inDecimal := true, fraction := Value(s[b + 1..i], 10) as real / Tens(i - b - 1),
                 divisor := Tens(i - b))
    decreases i
  {
    hide Accumulated, Step, Tens, Value, DigitValue;
    AccumulatedStep(s, start, i);
    TensStep(i - b - 1);
    if i == b + 1 {
      PointStep(acc, s, start, b);
      assert s[b + 1..i] == [];
      ValueNone(10);
      TensStep(0);
      OverOne(0.0);
    } else {
      FracPart(s, start, b, i - 1, acc);
      assert s[b + 1..i] == s[b + 1..i - 1] + [s[i - 1]];
      ValueAppend(s[b + 1..i - 1], s[i - 1], 10);
      DecimalStep(Accumulated(s, start, i - 1), s, start, i - 1);
      TensStep(i - b - 2);
      NextDecimal(Value(s[b + 1..i - 1], 10), DigitValue(s[i - 1]), Tens(i - b - 2));
    }
  }

  lemma AccumulatedStep(s: string, start: nat, i: nat)
    requires start < i <= |s|
    ensures Accumulated(s, start, i) == Step(Accumulated(s, start, i - 1), s, start, i - 1)
  {
  }

  lemma PointStep(acc: Acc, s: string, start: nat, i: nat)
    requires start <= i < |s| && s[i] == '.'
    ensures Step(acc, s, start, i) == acc.(inDecimal := true)
  {
  }

  lemma DecimalStep(acc: Acc, s: string, start: nat, i: nat)
    requires start <= i < |s| && IsDigit(s[i]) && acc.inDecimal && !acc.inExponent
    ensures Step(acc, s, start, i) ==
            acc.(fraction := acc.fraction + DigitValue(s[i]) as real / acc.divisor, divisor := acc.divisor * 10.0)
  {
  }

  lemma OverOne(x: real)
    ensures x / 1.0 == x
  {
  }

  lemma Quotient(a: real, t: real, x: real)
    requires t > 0.0 && x * t == a
    ensures a / t == x
  {
  }

  lemma Distribute(x: real, y: real, z: real)
    ensures (x + y) * z == x * z + y * z
  {
  }

  lemma TimesTen(x: real, t: real)
    ensures x * (t * 10.0) == x * t * 10.0
  {
  }

  lemma NextDecimal(v: nat, d: nat, t: real)
    requires t >= 1.0
    ensures v as real / t + d as real / (t * 10.0) == (v * 10 + d) as real / (t * 10.0)
  {
    var x, y := v as real / t, d as real / (t * 10.0);
    Distribute(x, y, t * 10.0);
    TimesTen(x, t);
    Quotient((v * 10 + d) as real, t * 10.0, x + y);
  }

  lemma {:induction false} ExpPart(s: string, start: nat, c: nat, i: nat, acc: Acc)
    requires start < c <= |s| && HasExp(s, c) && ExpStart(s, c) <= i <= |s|
    requires forall k :: ExpStart(s, c) <= k < i ==> IsDigit(s[k])
    requires acc == Accumulated(s, start, c) && acc.exponent == 0 && !acc.expNegative
    ensures Accumulated(s, start, i) ==
            acc.(inExponent := true, exponent := Value(s[ExpStart(s, c)..i], 10),
                 expNegative := ExpMinus(s, c))
    decreases i
  {
    hide Accumulated, Step, Value, DigitValue;
    var e := ExpStart(s, c);
    if i == e {
      assert s[e..e] == [];
      ValueNone(10);
      ExpOpens(s, start, c, acc);
    } else {
      ExpPart(s, start, c, i - 1, acc);
      assert s[e..i] == s[e..i - 1] + [s[i - 1]];
      ValueAppend(s[e..i - 1], s[i - 1], 10);
      AccumulatedStep(s, start, i);
      ExpDigit(Accumulated(s, start, i - 1), s, start, i - 1);
    }
  }

  lemma ExpOpens(s: string, start: nat, c: nat, acc: Acc)
    requires start < c <= |s| && HasExp(s, c) && acc == Accumulated(s, start, c) && !acc.expNegative
    ensures Accumulated(s, start, ExpStart(s, c)) == acc.(inExponent := true, expNegative := ExpMinus(s, c))
  {
    hide Accumulated;
    AccumulatedStep(s, start, c + 1);
    if HasExpSign(s, c) { AccumulatedStep(s, start, c + 2); }
  }

  lemma ExpDigit(acc: Acc, s: string, start: nat, i: nat)
    requires start <= i < |s| && IsDigit(s[i]) && acc.inExponent
    ensures Step(acc, s, start, i) == acc.(exponent := acc.exponent * 10 + DigitValue(s[i]))
  {
  }

  /** After whole and fraction digits the two sums are the two parts. */
  lemma DigitsRead(s: string, start: nat, b: nat, c: nat)
    requires start < |s| && (s[start] == '-' || IsDigit(s[start]))
    requires b == DigitsEnd(s, IntStart(s, start)) && c == FracEnd(s, b)
    ensures start < c
    ensures var acc, frac := Accumulated(s, start, c), s[FracStart(s, b)..c];
            && acc.number == Value(s[IntStart(s, start)..b], 10) as real
            && acc.fraction == Value(frac, 10) as real / Tens(|frac|)
            && acc.exponent == 0 && !acc.expNegative && !acc.inExponent
  {
    hide Value, Accumulated, Tens;
    WholePart(s, start, IntStart(s, start), b);
    TensStep(0);
    if c > b {
      FracPart(s, start, b, c, Accumulated(s, start, b));
    } else {
      assert s[FracStart(s, b)..c] == [];
      ValueNone(10);
    }
  }

  /** The loop computes what the literal denotes. */
  lemma LiteralValue(s: string, start: nat)
    requires start < |s| && (s[start] == '-' || IsDigit(s[start]))
    ensures var (n, end) := NumeralAt(s, start);
            Finished(Accumulated(s, start, end), s[start] == '-') == Denoted(n)
  {
    hide Value, Accumulated, Tens, Scaled, WithSign, DigitsEnd, Sum, Mantissa, NumeralAt, ExpStart;
    var b := DigitsEnd(s, IntStart(s, start));
    var c := FracEnd(s, b);
    var (n, end) := NumeralAt(s, start);
    SumRead(s, start, b, c, n);
    ExpFields(s, start, b, c, n, end);
    if HasExp(s, c) {
      SumAfterExp(s, start, c, end, Accumulated(s, start, c));
    } else {
      NotScaled(Mantissa(n));
    }
  }

  lemma ExpFields(s: string, start: nat, b: nat, c: nat, n: Numeral, end: nat)
    requires start < |s| && (n, end) == NumeralAt(s, start)
    requires b == DigitsEnd(s, IntStart(s, start)) && c == FracEnd(s, b)
    ensures n.negative <==> s[start] == '-'
    ensures ExpStart(s, c) <= end <= |s| && n.exp == s[ExpStart(s, c)..end]
    ensures n.expNegative == ExpMinus(s, c)
    ensures HasExp(s, c) ==> forall k :: ExpStart(s, c) <= k < end ==> IsDigit(s[k])
    ensures !HasExp(s, c) ==> end == c && n.exp == [] && Value(n.exp, 10) == 0
  {
    hide Value, DigitsEnd;
    ValueNone(10);
    assert end == ExpEnd(s, c);
    assert !HasExp(s, c) ==> s[ExpStart(s, c)..end] == [];
  }

  lemma SumRead(s: string, start: nat, b: nat, c: nat, n: Numeral)
    requires start < |s| && (s[start] == '-' || IsDigit(s[start])) && n == NumeralAt(s, start).0
    requires b == DigitsEnd(s, IntStart(s, start)) && c == FracEnd(s, b)
    ensures start < c
    ensures var acc := Accumulated(s, start, c);
            Sum(acc) == Mantissa(n) && acc.exponent == 0 && !acc.expNegative && !acc.inExponent
  {
    hide Value, Accumulated, Tens;
    DigitsRead(s, start, b, c);
  }

  lemma SumAfterExp(s: string, start: nat, c: nat, i: nat, acc: Acc)
    requires start < c <= |s| && HasExp(s, c) && ExpStart(s, c) <= i <= |s|
    requires forall k :: ExpStart(s, c) <= k < i ==> IsDigit(s[k])
    requires acc == Accumulated(s, start, c) && acc.exponent == 0 && !acc.expNegative
    ensures var fin := Accumulated(s, start, i);
            && Sum(fin) == Sum(acc) && fin.inExponent && fin.exponent == Value(s[ExpStart(s, c)..i], 10)
            && fin.expNegative == ExpMinus(s, c)
  {
    ExpPart(s, start, c, i, acc);
  }

  lemma NumeralEnd(s: string, start: nat)
    requires start < |s|
    ensures NumeralAt(s, start).1 == ExpEnd(s, FracEnd(s, DigitsEnd(s, IntStart(s, start))))
    ensures s[start] == '-' || IsDigit(s[start]) ==> start < NumeralAt(s, start).1
  {
  }
}
