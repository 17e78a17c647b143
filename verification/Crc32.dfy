/** crc32_calc of src/c_model_interface.c: the bitwise CRC-32 of section 8 of RFC 1952, and the bursts it detects. */
module Crc32 {
  const POLY: bv32 := 0xEDB88320
  const ONES: bv32 := 0xFFFF_FFFF

  function Xor(a: bv32, b: bv32): bv32 { a ^ b }

  function Wide(b: bv8): bv32 { b as bv32 }

  /** One round of the inner loop. */
  function Shift(c: bv32): bv32 {
    if c & 1 != 0 then (c >> 1) ^ POLY else c >> 1
  }

  function Shifts(c: bv32, n: nat): bv32 {
    if n == 0 then c else Shift(Shifts(c, n - 1))
  }

  /** One round of the outer loop. */
  function Fed(c: bv32, b: bv8): bv32 {
    Shifts(Xor(c, Wide(b)), 8)
  }

  /** The register after all of the data. */
  function Register(c: bv32, data: seq<bv8>): bv32 {
    if data == [] then c else Fed(Register(c, data[..|data| - 1]), data[|data| - 1])
  }

  function Crc(data: seq<bv8>): bv32 {
    Xor(Register(ONES, data), ONES)
  }

  method Crc32Calc(data: seq<bv8>) returns (crc: bv32)
    ensures crc == Crc(data)
  {
    crc := ONES;
    assert data[..0] == [];
    for i := 0 to |data|
      invariant crc == Register(ONES, data[..i])
    {
      assert data[..i + 1][..i] == data[..i];
      crc := crc ^ (data[i] as bv32);
      ghost var start := crc;
      for j := 0 to 8
        invariant crc == Shifts(start, j)
      {
        crc := if crc & 1 != 0 then (crc >> 1) ^ POLY else crc >> 1;
      }
    }
    assert data[..|data|] == data;
    crc := crc ^ ONES;
  }

  /** 0 for an empty model, as for a missing one. */
  method ModelChecksum(data: seq<bv8>) returns (crc: bv32)
    ensures crc == if data == [] then 0 else Crc(data)
  {
    if |data| == 0 { return 0; }
    crc := Crc32Calc(data);
  }

  // ---------------------------------------------------------------- exclusive or

  lemma AssocBits(a: bv32, b: bv32, c: bv32)
    ensures (a ^ b) ^ c == a ^ (b ^ c)
  {
  }

  lemma Assoc(a: bv32, b: bv32, c: bv32)
    ensures Xor(Xor(a, b), c) == Xor(a, Xor(b, c))
  {
    AssocBits(a, b, c);
  }

  lemma Comm(a: bv32, b: bv32)
    ensures Xor(a, b) == Xor(b, a)
  {
  }

  lemma Self(a: bv32, b: bv32)
    ensures Xor(a, 0) == a && Xor(0, a) == a && (Xor(a, b) == 0 <==> a == b)
  {
  }

  lemma Swap(a: bv32, b: bv32, c: bv32, d: bv32)
    ensures Xor(Xor(a, b), Xor(c, d)) == Xor(Xor(a, c), Xor(b, d))
  {
    hide Xor;
    Assoc(a, b, Xor(c, d)); Assoc(b, c, d); Comm(b, c); Assoc(c, b, d); Assoc(a, c, Xor(b, d));
  }

  // ---------------------------------------------------------------- the shift step

  function Half(c: bv32): bv32 { c >> 1 }

  predicate Odd(c: bv32) { c & 1 != 0 }

  function Feedback(c: bv32): bv32 { if Odd(c) then POLY else 0 }

  lemma ShiftParts(c: bv32)
    ensures Shift(c) == Xor(Half(c), Feedback(c))
  {
    hide Xor;
    Self(c >> 1, 0);
    XorIs(c >> 1, POLY);
  }

  lemma XorIs(a: bv32, b: bv32)
    ensures Xor(a, b) == a ^ b
  {
  }

  lemma HalfLinear(a: bv32, b: bv32)
    ensures Half(Xor(a, b)) == Xor(Half(a), Half(b))
  {
  }

  lemma LowBit(a: bv32)
    ensures a & 1 == 0 || a & 1 == 1
  {
  }

  lemma LowBitXor(a: bv32, b: bv32)
    ensures (a ^ b) & 1 == (a & 1) ^ (b & 1)
  {
  }

  lemma OddXor(a: bv32, b: bv32)
    ensures Odd(Xor(a, b)) <==> Odd(a) != Odd(b)
  {
    LowBitXor(a, b);
    LowBit(a);
    LowBit(b);
  }

  lemma FeedbackLinear(a: bv32, b: bv32)
    ensures Feedback(Xor(a, b)) == Xor(Feedback(a), Feedback(b))
  {
    hide Odd, Xor;
    OddXor(a, b);
    Self(POLY, POLY);
    Self(POLY, 0);
    Self(0, 0);
  }

  /** The step is linear over exclusive or ... */
  lemma ShiftLinear(a: bv32, b: bv32)
    ensures Shift(Xor(a, b)) == Xor(Shift(a), Shift(b))
  {
    hide Xor, Half, Feedback, Shift;
    HalfLinear(a, b);
    FeedbackLinear(a, b);
    ShiftParts(a); ShiftParts(b); ShiftParts(Xor(a, b));
    Swap(Half(a), Feedback(a), Half(b), Feedback(b));
  }

  /** ... and loses nothing. */
  lemma ShiftInvertible(a: bv32)
    ensures Shift(a) == 0 <==> a == 0
  {
  }

  lemma {:induction false} ShiftsLinear(a: bv32, b: bv32, n: nat)
    ensures Shifts(Xor(a, b), n) == Xor(Shifts(a, n), Shifts(b, n))
  {
    hide Xor, Shift;
    if n > 0 {
      ShiftsLinear(a, b, n - 1);
      ShiftLinear(Shifts(a, n - 1), Shifts(b, n - 1));
    }
  }

  lemma {:induction false} ShiftsInvertible(a: bv32, n: nat)
    ensures Shifts(a, n) == 0 <==> a == 0
  {
    hide Shift;
    if n > 0 {
      ShiftsInvertible(a, n - 1);
      ShiftInvertible(Shifts(a, n - 1));
    }
  }

  lemma {:induction false} ShiftsAdd(a: bv32, m: nat, n: nat)
    ensures Shifts(Shifts(a, m), n) == Shifts(a, m + n)
  {
    hide Shift;
    if n > 0 { ShiftsAdd(a, m, n - 1); }
  }

  // ---------------------------------------------------------------- messages

  function Xored(a: seq<bv8>, b: seq<bv8>): (r: seq<bv8>)
    requires |a| == |b|
    ensures |r| == |a|
  {
    seq(|a|, i requires 0 <= i < |a| => a[i] ^ b[i])
  }

  lemma XorBytes(a: bv8, b: bv8)
    ensures Wide(a ^ b) == Xor(Wide(a), Wide(b))
    ensures a ^ b == 0 <==> a == b
    ensures Wide(a) == 0 <==> a == 0
  {
  }

  /** The register is linear: the difference of two runs is the run of the differences. */
  lemma {:induction false} RegisterLinear(c: bv32, d: bv32, a: seq<bv8>, b: seq<bv8>)
    requires |a| == |b|
    ensures Xor(Register(c, a), Register(d, b)) == Register(Xor(c, d), Xored(a, b))
  {
    hide Xor, Wide, Shifts;
    if a != [] {
      var n := |a| - 1;
      var x, y := Register(c, a[..n]), Register(d, b[..n]);
      RegisterLinear(c, d, a[..n], b[..n]);
      assert Xored(a, b)[..n] == Xored(a[..n], b[..n]);
      XorBytes(a[n], b[n]);
      ShiftsLinear(Xor(x, Wide(a[n])), Xor(y, Wide(b[n])), 8);
      Swap(x, Wide(a[n]), y, Wide(b[n]));
    }
  }

  lemma {:induction false} RegisterConcat(c: bv32, a: seq<bv8>, b: seq<bv8>)
    ensures Register(c, a + b) == Register(Register(c, a), b)
  {
    hide Fed;
    if b == [] {
      assert a + b == a;
    } else {
      assert (a + b)[..|a + b| - 1] == a + b[..|b| - 1];
      RegisterConcat(c, a, b[..|b| - 1]);
    }
  }

  /** Bytes of zero only shift the register. */
  lemma {:induction false} RegisterZeros(c: bv32, z: seq<bv8>)
    requires forall i :: 0 <= i < |z| ==> z[i] == 0
    ensures Register(c, z) == 0 <==> c == 0
  {
    hide Xor, Wide, Shifts;
    if z != [] {
      var n := |z| - 1;
      RegisterZeros(c, z[..n]);
      XorBytes(0, 0);
      Self(Register(c, z[..n]), 0);
      ShiftsInvertible(Register(c, z[..n]), 8);
    }
  }

  /** A byte at its place in a little-endian word. */
  function Placed(b: bv8, n: nat): bv32 {
    if n == 0 then Wide(b) else if n == 8 then Wide(b) << 8 else if n == 16 then Wide(b) << 16 else Wide(b) << 24
  }

  /** Four bytes as one little-endian word. */
  function Word(a: bv8, b: bv8, c: bv8, d: bv8): bv32 {
    Xor(Xor(Xor(Placed(a, 0), Placed(b, 8)), Placed(c, 16)), Placed(d, 24))
  }

  function Double(a: bv32): bv32 { a << 1 }

  lemma ShiftDouble(y: bv32)
    ensures y & 0x8000_0000 == 0 ==> Shift(Double(y)) == y
  {
  }

  function Doubled(a: bv32, n: nat): bv32 {
    if n == 0 then a else Double(Doubled(a, n - 1))
  }

  /** Rounds undo doublings that lose nothing. */
  lemma {:induction false} ShiftsUndo(a: bv32, n: nat)
    requires forall k :: 0 <= k < n ==> Doubled(a, k) & 0x8000_0000 == 0
    ensures Shifts(Doubled(a, n), n) == a
  {
    hide Shift, Double;
    if n > 0 {
      ShiftsUndo(a, n - 1);
      ShiftDouble(Doubled(a, n - 1));
      ShiftsAdd(Doubled(a, n), 1, n - 1);
      assert Shifts(Doubled(a, n), 1) == Shift(Shifts(Doubled(a, n), 0)) == Doubled(a, n - 1);
    }
  }

  /** Eight rounds move a word with an empty top byte back down by a byte. */
  lemma ByteDown(a: bv32)
    requires a & 0xFF00_0000 == 0
    ensures Shifts(Up(a), 8) == a
  {
    hide Shifts, Up, Doubled;
    DoubledEight(a);
    TopBitClear(a);
    forall k | 0 <= k < 8
      ensures Doubled(a, k) & 0x8000_0000 == 0
    {
      assert k == 0 || k == 1 || k == 2 || k == 3 || k == 4 || k == 5 || k == 6 || k == 7;
    }
    ShiftsUndo(a, 8);
  }

  function Up(a: bv32): bv32 { a << 8 }

  lemma DoubleShifts(a: bv32)
    ensures Double(a) == a << 1 && Double(a << 1) == a << 2 && Double(a << 2) == a << 3 && Double(a << 3) == a << 4
    ensures Double(a << 4) == a << 5 && Double(a << 5) == a << 6 && Double(a << 6) == a << 7 && Double(a << 7) == Up(a)
  {
  }

  lemma TopBitClear(a: bv32)
    requires a & 0xFF00_0000 == 0
    ensures a & 0x8000_0000 == 0 && (a << 1) & 0x8000_0000 == 0 && (a << 2) & 0x8000_0000 == 0
    ensures (a << 3) & 0x8000_0000 == 0 && (a << 4) & 0x8000_0000 == 0 && (a << 5) & 0x8000_0000 == 0
    ensures (a << 6) & 0x8000_0000 == 0 && (a << 7) & 0x8000_0000 == 0
  {
  }

  lemma DoubledEight(a: bv32)
    ensures Doubled(a, 0) == a && Doubled(a, 1) == a << 1 && Doubled(a, 2) == a << 2 && Doubled(a, 3) == a << 3
    ensures Doubled(a, 4) == a << 4 && Doubled(a, 5) == a << 5 && Doubled(a, 6) == a << 6 && Doubled(a, 7) == a << 7
    ensures Doubled(a, 8) == Up(a)
  {
    hide Double, Up;
    DoubleShifts(a);
    assert Doubled(a, 2) == Double(Doubled(a, 1));
    assert Doubled(a, 4) == Double(Doubled(a, 3));
    assert Doubled(a, 6) == Double(Doubled(a, 5));
    assert Doubled(a, 8) == Double(Doubled(a, 7));
  }

  lemma PlacedUp(b: bv8)
    ensures Placed(b, 8) == Up(Wide(b)) && Placed(b, 16) == Up(Placed(b, 8)) && Placed(b, 24) == Up(Placed(b, 16))
    ensures Wide(b) & 0xFF00_0000 == 0 && Placed(b, 8) & 0xFF00_0000 == 0 && Placed(b, 16) & 0xFF00_0000 == 0
  {
  }

  lemma PlacedDown(b: bv8, n: nat)
    requires n == 8 || n == 16 || n == 24
    ensures Shifts(Placed(b, n), n) == Wide(b)
  {
    hide Shifts, Placed, Up, Wide;
    PlacedUp(b);
    ByteDown(Wide(b));
    ByteDown(Placed(b, 8));
    ByteDown(Placed(b, 16));
    ShiftsAdd(Placed(b, 16), 8, 8);
    ShiftsAdd(Placed(b, 24), 8, 16);
  }

  /** Any four bytes enter the register as one little-endian word before 32 rounds. */
  lemma BurstWord(a: bv8, b: bv8, c: bv8, d: bv8)
    ensures Register(0, [a, b, c, d]) == Shifts(Word(a, b, c, d), 32)
  {
    hide Xor, Wide, Shifts, Placed, Fed, Register;
    RegisterStep([], a); RegisterStep([a], b); RegisterStep([a, b], c); RegisterStep([a, b, c], d);
    assert [] + [a] == [a] && [a] + [b] == [a, b] && [a, b] + [c] == [a, b, c] && [a, b, c] + [d] == [a, b, c, d];
    var w := Placed(a, 0);
    FedFirst(a);
    Enter(w, b, 8);
    Enter(Xor(w, Placed(b, 8)), c, 16);
    Enter(Xor(Xor(w, Placed(b, 8)), Placed(c, 16)), d, 24);
  }

  lemma FedFirst(b: bv8)
    ensures Fed(Register(0, []), b) == Shifts(Placed(b, 0), 8)
  {
    hide Xor, Wide, Shifts;
    Self(Wide(b), 0);
  }

  lemma RegisterStep(s: seq<bv8>, b: bv8)
    ensures Register(0, s + [b]) == Fed(Register(0, s), b)
  {
    assert (s + [b])[..|s|] == s;
  }

  /** A byte fed after n rounds may as well have been entered at its place before them. */
  lemma Enter(w: bv32, b: bv8, n: nat)
    requires n == 8 || n == 16 || n == 24
    ensures Fed(Shifts(w, n), b) == Shifts(Xor(w, Placed(b, n)), n + 8)
  {
    hide Xor, Wide, Shifts, Placed;
    PlacedDown(b, n);
    ShiftsLinear(w, Placed(b, n), n);
    ShiftsAdd(Xor(w, Placed(b, n)), n, 8);
  }

  lemma WordZero(a: bv8, b: bv8, c: bv8, d: bv8)
    ensures Word(a, b, c, d) == 0 <==> a == 0 && b == 0 && c == 0 && d == 0
  {
  }

  function Padded(w: seq<bv8>): (v: seq<bv8>)
    requires |w| <= 4
    ensures |v| == 4 && forall i :: 0 <= i < 4 ==> v[i] == if i < |w| then w[i] else 0
  {
    seq(4, i requires 0 <= i < 4 => if i < |w| then w[i] else 0)
  }

  /** Feeding up to four bytes to an empty register leaves it empty only if they are all zero. */
  lemma RegisterBurst(w: seq<bv8>)
    requires |w| <= 4
    ensures Register(0, w) == 0 <==> forall i :: 0 <= i < |w| ==> w[i] == 0
  {
    hide Fed, Shifts, Xor, Placed;
    var v := Padded(w);
    assert v == w + v[|w|..];
    assert v == [v[0], v[1], v[2], v[3]];
    RegisterConcat(0, w, v[|w|..]);
    RegisterZeros(Register(0, w), v[|w|..]);
    BurstWord(v[0], v[1], v[2], v[3]);
    ShiftsInvertible(Word(v[0], v[1], v[2], v[3]), 32);
    WordZero(v[0], v[1], v[2], v[3]);
    assert (forall i :: 0 <= i < |w| ==> w[i] == 0) <==> v[0] == 0 && v[1] == 0 && v[2] == 0 && v[3] == 0;
  }

  /** Of two messages that agree outside a window, the register after the window's differences decides. */
  lemma WindowDecides(a: seq<bv8>, b: seq<bv8>, lo: nat, hi: nat)
    requires |a| == |b| && lo <= hi <= |a|
    requires forall k :: 0 <= k < |a| && !(lo <= k < hi) ==> a[k] == b[k]
    ensures var w := Xored(a, b)[lo..hi];
      && (Crc(a) == Crc(b) <==> Register(0, w) == 0)
      && (a == b <==> forall k :: 0 <= k < |w| ==> w[k] == 0)
  {
    hide Xor, Register, Crc, Xored;
    var x := Xored(a, b);
    CrcDifference(a, b);
    XoredZero(a, b);
    var u, w, z := x[..lo], x[lo..hi], x[hi..];
    assert x == u + w + z;
    RegisterConcat(0, u + w, z);
    RegisterConcat(0, u, w);
    RegisterZeros(0, u);
    RegisterZeros(Register(0, w), z);
    if forall k :: 0 <= k < |w| ==> w[k] == 0 {
      forall k | 0 <= k < |a| ensures x[k] == 0 {
        if lo <= k < hi { assert w[k - lo] == x[k]; }
      }
    } else {
      var k :| 0 <= k < |w| && w[k] != 0;
      assert x[lo + k] == w[k];
    }
  }

  /** Two messages of equal length that differ only within four consecutive bytes have the same checksum exactly
      when they are the same message. */
  lemma BurstDetected(a: seq<bv8>, b: seq<bv8>, i: nat)
    requires |a| == |b|
    requires forall k :: 0 <= k < |a| && !(i <= k < i + 4) ==> a[k] == b[k]
    ensures Crc(a) == Crc(b) <==> a == b
  {
    hide Register, Crc, Xored;
    var lo := if i < |a| then i else |a|;
    var hi := if i + 4 < |a| then i + 4 else |a|;
    WindowDecides(a, b, lo, hi);
    RegisterBurst(Xored(a, b)[lo..hi]);
  }

  // ---------------------------------------------------------------- bursts that start inside a byte

  const MASK: seq<bv8> := [1, 2, 4, 8, 16, 32, 64, 128]

  predicate Set(x: bv8, k: nat)
    requires k < 8
  {
    x & MASK[k] != 0
  }

  /** The bits of a message, those of each byte from the least significant one on. */
  predicate Bit(s: seq<bv8>, i: nat)
    requires i < 8 * |s|
  {
    Set(s[i / 8], i % 8)
  }

  function Halved(a: bv32, n: nat): bv32 {
    if n == 0 then a else Half(Halved(a, n - 1))
  }

  /** Rounds that meet no set bit only move the word down. */
  lemma {:induction false} ShiftsHalve(a: bv32, n: nat)
    requires forall k :: 0 <= k < n ==> !Odd(Halved(a, k))
    ensures Shifts(a, n) == Halved(a, n)
  {
    if n > 0 { ShiftsHalve(a, n - 1); }
  }

  lemma HalvedSeven(a: bv32)
    ensures Halved(a, 0) == a && Halved(a, 1) == a >> 1 && Halved(a, 2) == a >> 2 && Halved(a, 3) == a >> 3
    ensures Halved(a, 4) == a >> 4 && Halved(a, 5) == a >> 5 && Halved(a, 6) == a >> 6 && Halved(a, 7) == a >> 7
  {
    hide Half;
    HalfShifts(a);
    assert Halved(a, 2) == Half(Halved(a, 1));
    assert Halved(a, 4) == Half(Halved(a, 3));
    assert Halved(a, 6) == Half(Halved(a, 5));
  }

  lemma HalfShifts(a: bv32)
    ensures Half(a) == a >> 1 && Half(a >> 1) == a >> 2 && Half(a >> 2) == a >> 3 && Half(a >> 3) == a >> 4
    ensures Half(a >> 4) == a >> 5 && Half(a >> 5) == a >> 6 && Half(a >> 6) == a >> 7
  {
  }

  lemma WordLow(a: bv8, b: bv8, c: bv8, d: bv8)
    ensures var v := Word(a, b, c, d);
      && (v & 1 == 0 <==> a & 1 == 0) && ((v >> 1) & 1 == 0 <==> a & 2 == 0)
      && ((v >> 2) & 1 == 0 <==> a & 4 == 0) && ((v >> 3) & 1 == 0 <==> a & 8 == 0)
      && ((v >> 4) & 1 == 0 <==> a & 16 == 0) && ((v >> 5) & 1 == 0 <==> a & 32 == 0)
      && ((v >> 6) & 1 == 0 <==> a & 64 == 0)
  {
  }

  lemma WordEven(a: bv8, b: bv8, c: bv8, d: bv8, k: nat)
    requires k < 7 && !Set(a, k)
    ensures !Odd(Halved(Word(a, b, c, d), k))
  {
    hide Halved, Word;
    WordLow(a, b, c, d);
    HalvedSeven(Word(a, b, c, d));
    assert k == 0 || k == 1 || k == 2 || k == 3 || k == 4 || k == 5 || k == 6;
  }

  lemma TopBits(e: bv8)
    ensures var p := Placed(e, 24);
      && (e & 128 == 0 ==> p & 0x8000_0000 == 0) && (e & 64 == 0 ==> (p << 1) & 0x8000_0000 == 0)
      && (e & 32 == 0 ==> (p << 2) & 0x8000_0000 == 0) && (e & 16 == 0 ==> (p << 3) & 0x8000_0000 == 0)
      && (e & 8 == 0 ==> (p << 4) & 0x8000_0000 == 0) && (e & 4 == 0 ==> (p << 5) & 0x8000_0000 == 0)
      && (e & 2 == 0 ==> (p << 6) & 0x8000_0000 == 0)
  {
  }

  lemma TopClear(e: bv8, k: nat)
    requires k < 7 && !Set(e, 7 - k)
    ensures Doubled(Placed(e, 24), k) & 0x8000_0000 == 0
  {
    hide Doubled, Placed;
    TopBits(e);
    DoubledEight(Placed(e, 24));
    assert k == 0 || k == 1 || k == 2 || k == 3 || k == 4 || k == 5 || k == 6;
  }

  /** A word moved down by r bits shares none with r bits moved up to the top of a word. */
  lemma Apart(v: bv32, e: bv8, r: nat)
    requires 0 < r < 8
    ensures Halved(v, r) == Doubled(Placed(e, 24), 8 - r) ==> Halved(v, r) == 0
  {
    hide Halved, Doubled, Placed;
    ApartEach(v, e);
    assert r == 1 || r == 2 || r == 3 || r == 4 || r == 5 || r == 6 || r == 7;
  }

  lemma ApartEach(v: bv32, e: bv8)
    ensures var p := Placed(e, 24);
      && (Halved(v, 1) == Doubled(p, 7) ==> Halved(v, 1) == 0) && (Halved(v, 2) == Doubled(p, 6) ==> Halved(v, 2) == 0)
      && (Halved(v, 3) == Doubled(p, 5) ==> Halved(v, 3) == 0) && (Halved(v, 4) == Doubled(p, 4) ==> Halved(v, 4) == 0)
      && (Halved(v, 5) == Doubled(p, 3) ==> Halved(v, 5) == 0) && (Halved(v, 6) == Doubled(p, 2) ==> Halved(v, 6) == 0)
      && (Halved(v, 7) == Doubled(p, 1) ==> Halved(v, 7) == 0)
  {
    hide Halved, Doubled;
    HalvedSeven(v);
    DoubledEight(Placed(e, 24));
  }

  /** Five bytes without the r lowest bits of the first and with no others of the last are one word, too, that 40 - r
      rounds shift through an empty register. */
  lemma RegisterBits(w: seq<bv8>, r: nat)
    requires |w| == 5 && 0 < r < 8
    requires forall k :: 0 <= k < r ==> !Set(w[0], k)
    requires forall k :: r <= k < 8 ==> !Set(w[4], k)
    ensures Register(0, w) == 0 <==> forall i :: 0 <= i < |w| ==> w[i] == 0
  {
    hide Fed, Shifts, Xor, Placed, Register, Halved, Doubled, Word, Wide;
    var v, top := Word(w[0], w[1], w[2], w[3]), Doubled(Placed(w[4], 24), 8 - r);
    FiveBytes(w);
    forall k | 0 <= k < r ensures !Odd(Halved(v, k)) { WordEven(w[0], w[1], w[2], w[3], k); }
    ShiftsHalve(v, r);
    ShiftsAdd(v, r, 32 - r);
    forall k | 0 <= k < 8 - r ensures Doubled(Placed(w[4], 24), k) & 0x8000_0000 == 0 { TopClear(w[4], k); }
    ShiftsUndo(Placed(w[4], 24), 8 - r);
    ShiftsAdd(top, 8 - r, 24);
    PlacedDown(w[4], 24);
    Differ(Halved(v, r), top, 32 - r);
    Apart(v, w[4], r);
    ShiftsInvertible(v, r);
    ShiftsInvertible(top, 32 - r);
    ShiftsZero(r);
    XorBytes(w[4], w[4]);
    WordZero(w[0], w[1], w[2], w[3]);
    assert (forall i :: 0 <= i < |w| ==> w[i] == 0)
           <==> w[0] == 0 && w[1] == 0 && w[2] == 0 && w[3] == 0 && w[4] == 0;
  }

  lemma ShiftsZero(n: nat)
    ensures Shifts(0, n) == 0
  {
    ShiftsInvertible(0, n);
  }

  /** Rounds keep different words different. */
  lemma Differ(a: bv32, b: bv32, n: nat)
    ensures Shifts(a, n) == Shifts(b, n) <==> a == b
  {
    hide Shifts, Xor;
    ShiftsLinear(a, b, n);
    ShiftsInvertible(Xor(a, b), n);
    Self(a, b);
    Self(Shifts(a, n), Shifts(b, n));
  }

  lemma FiveBytes(w: seq<bv8>)
    requires |w| == 5
    ensures Register(0, w) == 0 <==> Shifts(Word(w[0], w[1], w[2], w[3]), 32) == Wide(w[4])
  {
    hide Shifts, Xor, Placed, Register, Wide;
    BurstWord(w[0], w[1], w[2], w[3]);
    RegisterStep(w[..4], w[4]);
    assert w[..4] == [w[0], w[1], w[2], w[3]];
    assert w[..4] + [w[4]] == w;
    var c := Register(0, w[..4]);
    ShiftsInvertible(Xor(c, Wide(w[4])), 8);
    Self(c, Wide(w[4]));
  }

  /** Bytes that agree in all their bits are the same. */
  lemma SameByte(x: bv8, y: bv8)
    requires forall k :: 0 <= k < 8 ==> (Set(x, k) <==> Set(y, k))
    ensures x == y
  {
    hide Set;
    SetIs(x);
    SetIs(y);
    SameBits(x, y);
  }

  lemma SetIs(x: bv8)
    ensures Set(x, 0) == (x & 1 != 0) && Set(x, 1) == (x & 2 != 0) && Set(x, 2) == (x & 4 != 0)
    ensures Set(x, 3) == (x & 8 != 0) && Set(x, 4) == (x & 16 != 0) && Set(x, 5) == (x & 32 != 0)
    ensures Set(x, 6) == (x & 64 != 0) && Set(x, 7) == (x & 128 != 0)
  {
  }

  lemma SameBits(x: bv8, y: bv8)
    requires (x & 1 != 0 <==> y & 1 != 0) && (x & 2 != 0 <==> y & 2 != 0) && (x & 4 != 0 <==> y & 4 != 0)
    requires (x & 8 != 0 <==> y & 8 != 0) && (x & 16 != 0 <==> y & 16 != 0) && (x & 32 != 0 <==> y & 32 != 0)
    requires (x & 64 != 0 <==> y & 64 != 0) && (x & 128 != 0 <==> y & 128 != 0)
    ensures x == y
  {
  }

  lemma XorBit(x: bv8, y: bv8, k: nat)
    requires k < 8 && (Set(x, k) <==> Set(y, k))
    ensures !Set(x ^ y, k)
  {
    assert k == 0 || k == 1 || k == 2 || k == 3 || k == 4 || k == 5 || k == 6 || k == 7;
  }

  lemma BitAt(s: seq<bv8>, i: nat, k: nat)
    requires i < |s| && k < 8
    ensures Bit(s, 8 * i + k) <==> Set(s[i], k)
  {
  }

  /** The messages agree in every bit outside the 32 from p on. */
  predicate AgreeBut(a: seq<bv8>, b: seq<bv8>, p: nat)
    requires |a| == |b|
  {
    forall i :: 0 <= i < 8 * |a| && !(p <= i < p + 32) ==> (Bit(a, i) <==> Bit(b, i))
  }

  lemma AgreeBit(a: seq<bv8>, b: seq<bv8>, p: nat, k: nat, j: nat)
    requires |a| == |b| && AgreeBut(a, b, p) && k < |a| && j < 8 && !(p <= 8 * k + j < p + 32)
    ensures Set(a[k], j) <==> Set(b[k], j)
  {
    hide Bit, AgreeBut, Set;
    BitsAgree(a, b, p, 8 * k + j);
    BitAt(a, k, j);
    BitAt(b, k, j);
  }

  lemma XoredBit(a: seq<bv8>, b: seq<bv8>, p: nat, k: nat, j: nat)
    requires |a| == |b| && AgreeBut(a, b, p) && k < |a| && j < 8 && !(p <= 8 * k + j < p + 32)
    ensures !Set(Xored(a, b)[k], j)
  {
    hide AgreeBut, Set;
    AgreeBit(a, b, p, k, j);
    XorBit(a[k], b[k], j);
  }

  lemma BitsAgree(a: seq<bv8>, b: seq<bv8>, p: nat, i: nat)
    requires |a| == |b| && AgreeBut(a, b, p) && i < 8 * |a| && !(p <= i < p + 32)
    ensures Bit(a, i) <==> Bit(b, i)
  {
    hide Bit;
  }

  lemma AgreeByte(a: seq<bv8>, b: seq<bv8>, p: nat, k: nat)
    requires |a| == |b| && AgreeBut(a, b, p) && k < |a| && (8 * k + 8 <= p || p + 32 <= 8 * k)
    ensures a[k] == b[k]
  {
    hide AgreeBut;
    forall j | 0 <= j < 8 ensures Set(a[k], j) <==> Set(b[k], j) {
      AgreeBit(a, b, p, k, j);
    }
    SameByte(a[k], b[k]);
  }

  /** Every error burst of at most 32 bits is detected: two messages of equal length that differ only within 32
      consecutive bits have the same checksum exactly when they are the same message. */
  lemma BitsDetected(a: seq<bv8>, b: seq<bv8>, p: nat)
    requires |a| == |b|
    requires AgreeBut(a, b, p)
    ensures Crc(a) == Crc(b) <==> a == b
  {
    hide Register, Crc, Xored, AgreeBut, Bit;
    var q, r := p / 8, p % 8;
    forall k | 0 <= k < |a| && !(q <= k < if r == 0 then q + 4 else q + 5) ensures a[k] == b[k] {
      AgreeByte(a, b, p, k);
    }
    if r == 0 || |a| <= q + 4 {
      BurstDetected(a, b, q);
    } else {
      WindowDecides(a, b, q, q + 5);
      var w := Xored(a, b)[q..q + 5];
      forall j | 0 <= j < r ensures !Set(w[0], j) { XoredBit(a, b, p, q, j); }
      forall j | r <= j < 8 ensures !Set(w[4], j) { XoredBit(a, b, p, q + 4, j); }
      RegisterBits(w, r);
    }
  }

  lemma CrcDifference(a: seq<bv8>, b: seq<bv8>)
    requires |a| == |b|
    ensures Crc(a) == Crc(b) <==> Register(0, Xored(a, b)) == 0
  {
    hide Xor;
    var x, y := Register(ONES, a), Register(ONES, b);
    RegisterLinear(ONES, ONES, a, b);
    Self(ONES, ONES);
    Self(x, y);
    Self(Crc(a), Crc(b));
    Swap(x, ONES, y, ONES);
    Self(Xor(x, y), 0);
  }

  lemma XoredZero(a: seq<bv8>, b: seq<bv8>)
    requires |a| == |b|
    ensures forall k :: 0 <= k < |a| ==> (Xored(a, b)[k] == 0 <==> a[k] == b[k])
    ensures (forall k :: 0 <= k < |a| ==> Xored(a, b)[k] == 0) <==> a == b
  {
    forall k | 0 <= k < |a| ensures Xored(a, b)[k] == 0 <==> a[k] == b[k] {
      XorBytes(a[k], b[k]);
    }
  }

  /** The bound is sharp: two messages that differ within 33 consecutive bits and have the same checksum. */
  lemma ThirtyThreeBitsCollide()
    ensures Crc([0, 0, 0, 0, 0]) == Crc([0x41, 0x06, 0x71, 0xDB, 0x01])
    ensures forall i :: 33 <= i < 40 ==> (Bit([0, 0, 0, 0, 0], i) <==> Bit([0x41, 0x06, 0x71, 0xDB, 0x01], i))
  {
    hide Shifts, Xor, Crc, Register, Fed, Placed, Word, Bit;
    var a: seq<bv8>, b: seq<bv8> := [0, 0, 0, 0, 0], [0x41, 0x06, 0x71, 0xDB, 0x01];
    var w: seq<bv8>, z: seq<bv8> := [0x06, 0x71, 0xDB, 0x01], [0, 0, 0, 0];
    var r: bv32 := 0x01DB_7106;
    CrcDifference(a, b);
    assert Xored(a, b) == [0x41] + w;
    RegisterConcat(0, [0x41], w);
    FirstByte();
    RegisterLinear(r, 0, z, w);
    assert Xored(z, w) == w;
    Self(r, 0);
    ZerosShift(r);
    BurstWord(0x06, 0x71, 0xDB, 0x01);
    CollidingWord();
    Self(Register(r, z), Register(0, w));
    forall i | 33 <= i < 40 ensures Bit(a, i) <==> Bit(b, i) {
      BitAt(a, 4, i - 32);
      BitAt(b, 4, i - 32);
      assert i == 33 || i == 34 || i == 35 || i == 36 || i == 37 || i == 38 || i == 39;
    }
  }

  lemma FirstByte()
    ensures Register(0, [0x41]) == 0x01DB_7106
  {
    RegisterStep([], 0x41);
    assert [] + [0x41 as bv8] == [0x41];
    assert Xor(Register(0, []), Wide(0x41)) == 0x41;
    assert Shifts(0x41, 1) == 0xEDB8_8300;
    assert Shifts(0x41, 2) == 0x76DC_4180;
    assert Shifts(0x41, 3) == 0x3B6E_20C0;
    assert Shifts(0x41, 4) == 0x1DB7_1060;
    assert Shifts(0x41, 5) == 0x0EDB_8830;
    assert Shifts(0x41, 6) == 0x076D_C418;
    assert Shifts(0x41, 7) == 0x03B6_E20C;
    assert Shifts(0x41, 8) == 0x01DB_7106;
  }

  lemma ZerosShift(r: bv32)
    ensures Register(r, [0, 0, 0, 0]) == Shifts(r, 32)
  {
    hide Shifts, Xor;
    Zeros(r, 4);
    assert Zeroes(4) == [0, 0, 0, 0];
  }

  function Zeroes(n: nat): (z: seq<bv8>)
    ensures |z| == n
  {
    seq(n, _ => 0)
  }

  lemma {:induction false} Zeros(r: bv32, n: nat)
    ensures Register(r, Zeroes(n)) == Shifts(r, 8 * n)
  {
    hide Shifts, Xor;
    if n > 0 {
      Zeros(r, n - 1);
      assert Zeroes(n)[..n - 1] == Zeroes(n - 1);
      XorBytes(0, 0);
      Self(Shifts(r, 8 * (n - 1)), 0);
      ShiftsAdd(r, 8 * (n - 1), 8);
    } else {
      ShiftsNone(r);
    }
  }

  lemma ShiftsNone(r: bv32)
    ensures Shifts(r, 0) == r
  {
  }

  lemma CollidingWord()
    ensures Word(0x06, 0x71, 0xDB, 0x01) == 0x01DB_7106
  {
  }

  // ---------------------------------------------------------------- values

  /** No data has the CRC 0, and the letter a has E8B7BE43. */
  lemma KnownValues()
    ensures Crc([]) == 0 && Crc([0x61]) == 0xE8B7_BE43
  {
    LetterA();
    RegisterStep([], 0x61);
    KnownStart();
    RegisterOne(ONES, 0x61);
  }

  lemma KnownStart()
    ensures Crc([]) == 0 && Xor(ONES, Wide(0x61)) == 0xFFFF_FF9E && Xor(0x1748_41BC, ONES) == 0xE8B7_BE43
  {
  }

  lemma RegisterOne(c: bv32, b: bv8)
    ensures Register(c, [b]) == Fed(c, b)
  {
    assert [b][..0] == [];
  }

  lemma LetterA()
    ensures Shifts(0xFFFF_FF9E, 8) == 0x1748_41BC
  {
    assert Shifts(0xFFFF_FF9E, 1) == 0x7FFF_FFCF;
    assert Shifts(0xFFFF_FF9E, 2) == 0xD247_7CC7;
    assert Shifts(0xFFFF_FF9E, 3) == 0x849B_3D43;
    assert Shifts(0xFFFF_FF9E, 4) == 0xAFF5_1D81;
    assert Shifts(0xFFFF_FF9E, 5) == 0xBA42_0DE0;
    assert Shifts(0xFFFF_FF9E, 6) == 0x5D21_06F0;
    assert Shifts(0xFFFF_FF9E, 7) == 0x2E90_8378;
    assert Shifts(0xFFFF_FF9E, 8) == 0x1748_41BC;
  }

  /** The bytes of a word, the lowest first. */
  function Bytes(c: bv32): seq<bv8> {
    [(c & 0xFF) as bv8, ((c >> 8) & 0xFF) as bv8, ((c >> 16) & 0xFF) as bv8, (c >> 24) as bv8]
  }

  lemma BytesWord(c: bv32)
    ensures Word((c & 0xFF) as bv8, ((c >> 8) & 0xFF) as bv8, ((c >> 16) & 0xFF) as bv8, (c >> 24) as bv8) == c
  {
  }

  lemma FourFed(c: bv32, w: seq<bv8>)
    requires |w| == 4
    ensures Register(c, w) == Shifts(Xor(c, Word(w[0], w[1], w[2], w[3])), 32)
  {
    hide Xor, Shifts, Register, Word;
    var z: seq<bv8> := [0, 0, 0, 0];
    ZeroXored(z, w);
    RegisterLinear(c, 0, z, w);
    Self(c, 0);
    ZerosShift(c);
    assert w == [w[0], w[1], w[2], w[3]];
    BurstWord(w[0], w[1], w[2], w[3]);
    ShiftsLinear(c, Word(w[0], w[1], w[2], w[3]), 32);
  }

  lemma ZeroXored(z: seq<bv8>, w: seq<bv8>)
    requires z == [0, 0, 0, 0] && |w| == 4
    ensures Xored(z, w) == w
  {
  }

  /** A message with its own CRC behind it, lowest byte first, has the same CRC whatever the message. */
  lemma AppendedChecks(m: seq<bv8>)
    ensures Crc(m + Bytes(Crc(m))) == Crc([0, 0, 0, 0])
  {
    hide Xor, Shifts, Register, Word, Bytes;
    AppendedFixed(m);
    AppendedFixed([]);
    KnownValues();
    ZeroBytes();
    assert [] + [0 as bv8, 0, 0, 0] == [0, 0, 0, 0];
  }

  lemma ZeroBytes()
    ensures Bytes(0) == [0, 0, 0, 0]
  {
  }

  lemma AppendedFixed(m: seq<bv8>)
    ensures Crc(m + Bytes(Crc(m))) == Xor(Shifts(ONES, 32), ONES)
  {
    hide Xor, Shifts, Register, Word;
    var r, c := Register(ONES, m), Crc(m);
    RegisterConcat(ONES, m, Bytes(c));
    FourFed(r, Bytes(c));
    BytesWord(c);
    Assoc(r, r, ONES);
    Self(r, r);
    Self(ONES, 0);
  }
}
