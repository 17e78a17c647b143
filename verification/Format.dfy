/** src/string.c: the truncating formatter and the digits it prints. */
module Format {
  import opened Machine

  const NUL: char := '\0'
  const UINT_LIMIT: nat := 0x1_0000_0000

  type uint = x: int | 0 <= x < UINT_LIMIT
  type sint = x: int | -0x8000_0000 <= x < 0x8000_0000

  /** A C string: its characters up to, and without, the terminating NUL. */
  predicate CString(s: string) { NUL !in s }

  // ---------------------------------------------------------------- digits

  predicate Base(base: nat) { base == 10 || base == 16 }

  function DigitChars(upper: bool): string {
    if upper then "0123456789ABCDEF" else "0123456789abcdef"
  }

  function DigitChar(d: nat, upper: bool): char {
    if d < 16 then DigitChars(upper)[d] else NUL
  }

  function Digits(v: nat, base: nat, upper: bool): (s: string)
    requires Base(base)
    ensures |s| > 0
  {
    (if v < base then [] else Digits(v / base, base, upper)) + [DigitChar(v % base, upper)]
  }

  function DigitValue(c: char): nat {
    if '0' <= c <= '9' then c as int - '0' as int
    else if 'a' <= c <= 'f' then c as int - 'a' as int + 10
    else if 'A' <= c <= 'F' then c as int - 'A' as int + 10
    else 0
  }

  /** The number a digit string denotes in a base. */
  function Value(s: string, base: nat): nat {
    if s == [] then 0 else Value(s[..|s| - 1], base) * base + DigitValue(s[|s| - 1])
  }

  predicate IsDigitOf(c: char, base: nat, upper: bool) {
    exists d :: 0 <= d < base && c == DigitChar(d, upper)
  }

  lemma DigitCharValue(d: nat, upper: bool)
    requires d < 16
    ensures DigitValue(DigitChar(d, upper)) == d
  {
  }

  lemma DivMod(v: nat, base: nat)
    requires Base(base)
    ensures v / base * base + v % base == v && v % base < base && (v >= base ==> 0 < v / base < v)
  {
  }

  lemma ValueAppend(s: string, c: char, base: nat)
    ensures Value(s + [c], base) == Value(s, base) * base + DigitValue(c)
  {
    assert (s + [c])[..|s|] == s;
  }

  /** The printed digits denote the value exactly. */
  lemma {:induction false} DigitsDenote(v: nat, base: nat, upper: bool)
    requires Base(base)
    ensures Value(Digits(v, base, upper), base) == v
  {
    hide DigitChar, DigitValue, Value;
    var d := DigitChar(v % base, upper);
    DivMod(v, base);
    DigitCharValue(v % base, upper);
    if v < base {
      assert Digits(v, base, upper) == [] + [d];
      ValueAppend([], d, base);
      assert v % base == v;
      ValueNone(base);
    } else {
      DigitsDenote(v / base, base, upper);
      ValueAppend(Digits(v / base, base, upper), d, base);
      assert Digits(v, base, upper) == Digits(v / base, base, upper) + [d];
    }
  }

  lemma ValueNone(base: nat)
    ensures Value([], base) == 0
  {
  }

  /** Every printed digit belongs to the base, and only 0 itself starts with a zero. */
  lemma {:induction false} DigitsShape(v: nat, base: nat, upper: bool)
    requires Base(base)
    ensures forall c :: c in Digits(v, base, upper) ==> IsDigitOf(c, base, upper)
    ensures Digits(v, base, upper)[0] == '0' ==> v == 0
  {
    hide DigitChar, DigitValue;
    DivMod(v, base);
    assert IsDigitOf(DigitChar(v % base, upper), base, upper);
    if v < base {
      assert Digits(v, base, upper) == [DigitChar(v, upper)];
      DigitCharValue(v, upper);
      ZeroDigit();
    } else {
      DigitsShape(v / base, base, upper);
    }
  }

  lemma ZeroDigit()
    ensures DigitValue('0') == 0
  {
  }

  lemma {:induction false} DigitsFit(v: nat, base: nat, upper: bool, bound: nat, k: nat)
    requires Base(base) && v < bound && bound == Pow(base, k) && k > 0
    ensures |Digits(v, base, upper)| <= k
  {
    assert bound == base * Pow(base, k - 1);
    assert k == 1 ==> bound == base;
    if v >= base {
      DigitsFit(v / base, base, upper, Pow(base, k - 1), k - 1);
    }
  }

  function Pow(b: nat, k: nat): nat {
    if k == 0 then 1 else b * Pow(b, k - 1)
  }

  /** The 32-byte digit buffer holds every 32-bit value. */
  lemma Digits32(v: uint, base: nat, upper: bool)
    requires Base(base)
    ensures |Digits(v, base, upper)| <= 32
  {
    if base == 10 {
      assert Pow(10, 5) == 100000;
      assert Pow(10, 10) == 100000 * Pow(10, 5) by {
        assert Pow(10, 10) == 10 * Pow(10, 9) && Pow(10, 9) == 10 * Pow(10, 8) && Pow(10, 8) == 10 * Pow(10, 7);
        assert Pow(10, 7) == 10 * Pow(10, 6) && Pow(10, 6) == 10 * Pow(10, 5);
      }
      DigitsFit(v, 10, upper, Pow(10, 10), 10);
    } else {
      assert Pow(16, 4) == 0x10000;
      assert Pow(16, 8) == 0x10000 * Pow(16, 4) by {
        assert Pow(16, 8) == 16 * Pow(16, 7) && Pow(16, 7) == 16 * Pow(16, 6);
        assert Pow(16, 6) == 16 * Pow(16, 5) && Pow(16, 5) == 16 * Pow(16, 4);
      }
      DigitsFit(v, 16, upper, Pow(16, 8), 8);
    }
  }

  // ---------------------------------------------------------------- runs of decimal digits

  predicate IsDigit(c: char) { '0' <= c <= '9' }

  /** The end of the run of digits that starts at i. */
  function DigitsEnd(s: string, i: nat): (r: nat)
    requires i <= |s|
    ensures i <= r <= |s| && (r < |s| ==> !IsDigit(s[r]))
    ensures forall k :: i <= k < r ==> IsDigit(s[k])
    decreases |s| - i
  {
    if i < |s| && IsDigit(s[i]) then DigitsEnd(s, i + 1) else i
  }

  lemma DigitsEndIs(s: string, i: nat, e: nat)
    requires i <= e <= |s| && (e < |s| ==> !IsDigit(s[e])) && forall k :: i <= k < e ==> IsDigit(s[k])
    ensures DigitsEnd(s, i) == e
  {
    var r := DigitsEnd(s, i);
    assert !(r < e) && !(e < r);
  }

  // ---------------------------------------------------------------- the ideal text

  datatype Arg = TextArg(s: string) | NullTextArg | IntArg(i: sint) | UintArg(u: uint)

  datatype Directive =
    | LiteralChar | StringDir | IntDir | UintDir(base: nat, upper: bool) | PointerDir | PercentDir | UnknownDir

  /** What format[i..] begins with, and how many format characters it takes. */
  function DirectiveAt(f: string, i: nat): (r: (Directive, nat))
    requires i < |f| && (f[i] == '%' ==> i + 1 < |f|)
    ensures 0 < r.1 && i + r.1 <= |f|
    ensures r.0.UintDir? ==> Base(r.0.base)
  {
    if f[i] != '%' then (LiteralChar, 1)
    else
      match f[i + 1]
      case 's' => (StringDir, 2)
      case 'd' => (IntDir, 2)
      case 'i' => (IntDir, 2)
      case 'u' => (UintDir(10, false), 2)
      case 'x' => (UintDir(16, false), 2)
      case 'X' => (UintDir(16, true), 2)
      case 'p' => (PointerDir, 2)
      case '%' => (PercentDir, 2)
      case c => if c == 'z' && i + 2 < |f| && f[i + 2] == 'u' then (UintDir(10, false), 3) else (UnknownDir, 2)
  }

  predicate TakesArg(k: Directive) { k.StringDir? || k.IntDir? || k.UintDir? || k.PointerDir? }

  predicate ArgFits(k: Directive, a: Arg) {
    match k
    case StringDir => (a.TextArg? && CString(a.s)) || a.NullTextArg?
    case IntDir => a.IntArg?
    case UintDir(_, _) => a.UintArg?
    case PointerDir => a.UintArg?
    case _ => true
  }

  function SignedText(i: sint): string {
    var n: int := i;
    if n < 0 then "-" + Digits(-n, 10, false) else Digits(n, 10, false)
  }

  function ArgText(k: Directive, a: Arg): string
    requires TakesArg(k) && ArgFits(k, a) && (k.UintDir? ==> Base(k.base))
  {
    match k
    case StringDir => if a.NullTextArg? then "(null)" else a.s
    case IntDir => SignedText(a.i)
    case UintDir(base, upper) => Digits(a.u, base, upper)
    case PointerDir => "0x" + Digits(a.u, 16, false)
  }

  /** What a caller of a variadic formatter owes it: a C string for a format, one argument of the right type per
      directive, and no lone '%' at the end of the format. */
  predicate Supplied(f: string, i: nat, args: seq<Arg>)
    decreases |f| - i
  {
    if i >= |f| then CString(f)
    else if f[i] == '%' && i + 1 == |f| then false
    else
      var (k, n) := DirectiveAt(f, i);
      if TakesArg(k) then args != [] && ArgFits(k, args[0]) && Supplied(f, i + n, args[1..])
      else Supplied(f, i + n, args)
  }

  /** What a directive that takes no argument prints; an unknown one is printed as it stands. */
  function Literal(k: Directive, f: string, i: nat): string
    requires i < |f|
  {
    if k.PercentDir? then "%" else if k.UnknownDir? && i + 1 < |f| then ['%', f[i + 1]] else [f[i]]
  }

  /** The full text of format[i..] with the arguments filled in. */
  function Ideal(f: string, i: nat, args: seq<Arg>): string
    requires Supplied(f, i, args)
    decreases |f| - i
  {
    if i >= |f| then []
    else
      var (k, n) := DirectiveAt(f, i);
      if TakesArg(k) then ArgText(k, args[0]) + Ideal(f, i + n, args[1..])
      else Literal(k, f, i) + Ideal(f, i + n, args)
  }

  /** The digits of a base, and which letters they are. */
  lemma DigitsCase(v: nat, base: nat, upper: bool)
    requires Base(base)
    ensures forall c :: c in Digits(v, base, upper) ==>
              '0' <= c <= '9' || (base == 16 && if upper then 'A' <= c <= 'F' else 'a' <= c <= 'f')
  {
    DigitsShape(v, base, upper);
    forall c | c in Digits(v, base, upper)
      ensures '0' <= c <= '9' || (base == 16 && if upper then 'A' <= c <= 'F' else 'a' <= c <= 'f')
    {
      var d :| 0 <= d < base && c == DigitChar(d, upper);
      DigitNames(d, upper);
    }
  }

  lemma DigitNames(d: nat, upper: bool)
    requires d < 16
    ensures var c := DigitChar(d, upper);
      if d < 10 then '0' <= c <= '9' else if upper then 'A' <= c <= 'F' else 'a' <= c <= 'f'
  {
  }

  /** What every directive prints, and how much of the format and of the arguments it uses up: %s a string, (null) for
      NULL; %d and %i a signed decimal; %u and %zu an unsigned one; %x and %X a hexadecimal in small and in capital
      letters; %p one with 0x in front; %% a percent sign; and every other one itself. */
  lemma DirectivesPrint(f: string, i: nat, args: seq<Arg>)
    requires i + 1 < |f| && Supplied(f, i, args)
    ensures var c, rest := f[i + 1], if args == [] then [] else args[1..];
            var t := Ideal(f, i, args);
      if f[i] != '%' then Supplied(f, i + 1, args) && t == [f[i]] + Ideal(f, i + 1, args)
      else if c in {'s', 'd', 'i', 'u', 'x', 'X', 'p'} then
        && args != [] && Supplied(f, i + 2, rest)
        && var a, more := args[0], Ideal(f, i + 2, rest);
        && (c == 's' ==> (a.TextArg? && t == a.s + more) || (a.NullTextArg? && t == "(null)" + more))
        && (c == 'd' || c == 'i' ==> a.IntArg? && t == DecimalOf(a.i) + more)
        && (c == 'u' ==> a.UintArg? && t == Digits(a.u, 10, false) + more)
        && (c == 'x' ==> a.UintArg? && t == Digits(a.u, 16, false) + more)
        && (c == 'X' ==> a.UintArg? && t == Digits(a.u, 16, true) + more)
        && (c == 'p' ==> a.UintArg? && t == "0x" + Digits(a.u, 16, false) + more)
      else if c == 'z' && i + 2 < |f| && f[i + 2] == 'u' then
        args != [] && args[0].UintArg? && Supplied(f, i + 3, rest)
        && t == Digits(args[0].u, 10, false) + Ideal(f, i + 3, rest)
      else
        Supplied(f, i + 2, args) && t == (if c == '%' then "%" else ['%', c]) + Ideal(f, i + 2, args)
  {
    hide Digits, Supplied, Ideal;
    IdealStep(f, i, args);
  }

  /** A number in decimal, with a minus in front if it is negative. */
  function DecimalOf(n: int): string {
    if n < 0 then "-" + Digits(-n, 10, false) else Digits(n, 10, false)
  }

  // ---------------------------------------------------------------- the formatter

  /** dst holds as much of the text as leaves room for a NUL. */
  ghost predicate Shows(dst: seq<char>, size: nat, text: string) {
    && size <= |dst|
    && forall j :: 0 <= j < Least(|text|, size - 1) ==> dst[j] == text[j]
  }

  method AppendChar(dst: array<char>, size: nat, off: nat, c: char, ghost text: string) returns (off': nat)
    requires Shows(dst[..], size, text) && off == |text|
    modifies dst
    ensures Shows(dst[..], size, text + [c]) && off' == |text + [c]|
    ensures dst[size..] == old(dst[size..])
  {
    if off + 1 < size {
      dst[off] := c;
    }
    off' := off + 1;
  }

  method AppendStr(dst: array<char>, size: nat, off: nat, s: string, ghost text: string) returns (off': nat)
    requires Shows(dst[..], size, text) && off == |text|
    modifies dst
    ensures Shows(dst[..], size, text + s) && off' == |text + s|
    ensures dst[size..] == old(dst[size..])
  {
    off' := off;
    assert text + s[..0] == text;
    for i := 0 to |s|
      invariant Shows(dst[..], size, text + s[..i]) && off' == |text + s[..i]|
      invariant dst[size..] == old(dst[size..])
    {
      off' := AppendChar(dst, size, off', s[i], text + s[..i]);
      assert text + s[..i] + [s[i]] == text + s[..i + 1];
    }
    assert s[..|s|] == s;
  }

  method AppendUint(dst: array<char>, size: nat, off: nat, v: uint, base: nat, upper: bool, ghost text: string)
    returns (off': nat)
    requires Shows(dst[..], size, text) && off == |text| && Base(base)
    modifies dst
    ensures Shows(dst[..], size, text + Digits(v, base, upper)) && off' == |text + Digits(v, base, upper)|
    ensures dst[size..] == old(dst[size..])
  {
    hide Digits;
    var buf := new char[32];
    var n := DigitsBackwards(buf, v, base, upper);
    off' := CopyBackwards(dst, size, off, buf, n, text, Digits(v, base, upper));
  }

  /** Digits are produced least significant first into a 32-byte buffer. */
  method DigitsBackwards(buf: array<char>, v: uint, base: nat, upper: bool) returns (n: nat)
    requires buf.Length == 32 && Base(base)
    modifies buf
    ensures n == |Digits(v, base, upper)| <= 32
    ensures forall j :: 0 <= j < n ==> buf[j] == Digits(v, base, upper)[n - 1 - j]
  {
    hide DigitChar, Digits;
    ghost var all := Digits(v, base, upper);
    Digits32(v, base, upper);
    n := 0;
    if v == 0 {
      ZeroPrints(base, upper);
      buf[0] := '0';
      n := 1;
      return;
    }
    var w: int := v;
    ghost var tail := [];
    assert all == Digits(w, base, upper) + tail;
    while w != 0 && n < 32
      invariant 0 <= w && n == |tail| <= 32 && all == Front(w, base, upper) + tail
      invariant forall j :: 0 <= j < n ==> buf[j] == tail[n - 1 - j]
      decreases w
    {
      var d := DigitChar(w % base, upper);
      FrontStep(w, base, upper);
      assert all == Front(w / base, base, upper) + ([d] + tail);
      buf[n] := d;
      tail := [d] + tail;
      w := w / base;
      n := n + 1;
    }
    FrontEmpty(w, base, upper);
    assert all == tail;
  }

  /** The digits still to be produced. */
  function Front(w: nat, base: nat, upper: bool): string
    requires Base(base)
  {
    if w == 0 then [] else Digits(w, base, upper)
  }

  lemma FrontStep(w: nat, base: nat, upper: bool)
    requires Base(base) && w != 0
    ensures w / base < w
    ensures Front(w, base, upper) == Front(w / base, base, upper) + [DigitChar(w % base, upper)]
  {
    DivMod(w, base);
    if w < base {
      assert w / base == 0;
    }
  }

  lemma FrontEmpty(w: nat, base: nat, upper: bool)
    requires Base(base)
    ensures Front(w, base, upper) == [] <==> w == 0
  {
  }

  lemma ZeroPrints(base: nat, upper: bool)
    requires Base(base)
    ensures Digits(0, base, upper) == "0"
  {
  }

  method CopyBackwards(dst: array<char>, size: nat, off: nat, buf: array<char>, n: nat,
                       ghost text: string, ghost all: string)
    returns (off': nat)
    requires Shows(dst[..], size, text) && off == |text| && dst != buf
    requires n == |all| <= buf.Length && forall j :: 0 <= j < n ==> buf[j] == all[n - 1 - j]
    modifies dst
    ensures Shows(dst[..], size, text + all) && off' == |text + all|
    ensures dst[size..] == old(dst[size..])
  {
    off' := off;
    var i := n;
    assert text + all[..0] == text;
    while i > 0
      invariant 0 <= i <= n
      invariant forall j :: 0 <= j < n ==> buf[j] == all[n - 1 - j]
      invariant Shows(dst[..], size, text + all[..n - i]) && off' == |text + all[..n - i]|
      invariant dst[size..] == old(dst[size..])
    {
      i := i - 1;
      off' := AppendChar(dst, size, off', buf[i], text + all[..n - 1 - i]);
      assert text + all[..n - 1 - i] + [all[n - 1 - i]] == text + all[..n - i];
    }
    assert all[..n] == all;
  }

  /** Truncating formatting: the result is the length of the full text; the buffer gets as much of it
      as fits before a NUL, and nothing beyond `size` is written. */
  method Vsnprintf(str: array<char>, size: nat, format: string, args: seq<Arg>) returns (n: nat)
    requires size <= str.Length && Supplied(format, 0, args)
    modifies str
    ensures n == |Ideal(format, 0, args)|
    ensures size > 0 ==> var t := Least(n, size - 1);
                         str[..t] == Ideal(format, 0, args)[..t] && str[t] == NUL
    ensures str[size..] == old(str[size..])
  {
    hide Ideal, ArgText, Literal, DirectiveAt, Supplied;
    var i, rest, off := 0, args, 0;
    ghost var all, done := Ideal(format, 0, args), [];
    while i < |format|
      invariant i <= |format| && Supplied(format, i, rest)
      invariant all == done + Ideal(format, i, rest)
      invariant off == |done| && Shows(str[..], size, done)
      invariant str[size..] == old(str[size..])
      decreases |format| - i
    {
      IdealStep(format, i, rest);
      var (k, len) := DirectiveAt(format, i);
      var arg: Arg := NullTextArg;
      if TakesArg(k) {
        arg, rest := rest[0], rest[1..];
      }
      ghost var piece := if TakesArg(k) then ArgText(k, arg) else Literal(k, format, i);
      off := AppendPiece(str, size, off, format, i, k, arg, done, piece);
      done := done + piece;
      i := i + len;
    }
    IdealEnd(format, i, rest);
    assert all == done;
    if size > 0 {
      var term := if off < size then off else size - 1;
      str[term] := NUL;
    }
    n := off;
  }

  lemma IdealStep(f: string, i: nat, args: seq<Arg>)
    requires i < |f| && Supplied(f, i, args)
    ensures f[i] == '%' ==> i + 1 < |f|
    ensures var (k, n) := DirectiveAt(f, i);
            0 < n && i + n <= |f| && if TakesArg(k) then
              args != [] && ArgFits(k, args[0]) && Supplied(f, i + n, args[1..])
              && Ideal(f, i, args) == ArgText(k, args[0]) + Ideal(f, i + n, args[1..])
            else
              Supplied(f, i + n, args) && Ideal(f, i, args) == Literal(k, f, i) + Ideal(f, i + n, args)
  {
  }

  lemma IdealEnd(f: string, i: nat, args: seq<Arg>)
    requires i >= |f| && Supplied(f, i, args)
    ensures Ideal(f, i, args) == []
  {
  }

  method AppendPiece(str: array<char>, size: nat, off: nat, format: string, i: nat, k: Directive, arg: Arg,
                     ghost done: string, ghost piece: string) returns (off': nat)
    requires i < |format| && (format[i] == '%' ==> i + 1 < |format|) && k == DirectiveAt(format, i).0
    requires TakesArg(k) ==> ArgFits(k, arg) && piece == ArgText(k, arg)
    requires !TakesArg(k) ==> piece == Literal(k, format, i)
    requires Shows(str[..], size, done) && off == |done|
    modifies str
    ensures Shows(str[..], size, done + piece) && off' == |done + piece|
    ensures str[size..] == old(str[size..])
  {
    hide Digits, Shows, SignedText;
    match k {
      case LiteralChar => off' := AppendChar(str, size, off, format[i], done);
      case StringDir => off' := AppendStr(str, size, off, if arg.NullTextArg? then "(null)" else arg.s, done);
      case IntDir => off' := AppendInt(str, size, off, arg.i, done);
      case UintDir(base, upper) => off' := AppendUint(str, size, off, arg.u, base, upper, done);
      case PointerDir =>
        off' := AppendStr(str, size, off, "0x", done);
        off' := AppendUint(str, size, off', arg.u, 16, false, done + "0x");
        assert done + "0x" + Digits(arg.u, 16, false) == done + piece;
      case PercentDir => off' := AppendChar(str, size, off, '%', done);
      case UnknownDir =>
        off' := AppendChar(str, size, off, '%', done);
        off' := AppendChar(str, size, off', format[i + 1], done + ['%']);
        assert done + ['%'] + [format[i + 1]] == done + piece;
    }
  }

  /** Negation is done in 32 bits, where -(-2^31) wraps to 2^31. */
  method AppendInt(str: array<char>, size: nat, off: nat, v: sint, ghost done: string) returns (off': nat)
    requires Shows(str[..], size, done) && off == |done|
    modifies str
    ensures Shows(str[..], size, done + SignedText(v)) && off' == |done + SignedText(v)|
    ensures str[size..] == old(str[size..])
  {
    hide Digits;
    var n: int := v;
    if n < 0 {
      off' := AppendChar(str, size, off, '-', done);
      var m: int := (-n) % UINT_LIMIT;
      assert m == -n;
      off' := AppendUint(str, size, off', m, 10, false, done + ['-']);
      assert done + ['-'] + Digits(-n, 10, false) == done + SignedText(v);
    } else {
      off' := AppendUint(str, size, off, n, 10, false, done);
    }
  }
}
