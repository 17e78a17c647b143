/** The Internet checksum of src/network/ip.c (RFC 1071), summed over little-endian words as the i386 reads them. */
module Checksum {
  import opened Machine

  const MAX: nat := 0xFFFF

  /** The 16-bit word in memory at `i`. */
  function Half(p: seq<byte>, i: nat): int
    requires i + 2 <= |p|
  {
    var lo: int, hi: int := p[i], p[i + 1];
    lo + 0x100 * hi
  }

  /** The exact sum of the words; an odd last byte counts as itself. */
  function Words(p: seq<byte>): nat {
    if |p| == 0 then 0
    else if |p| == 1 then (var last: int := p[0]; last)
    else Half(p, 0) + Words(p[2..])
  }

  function Fold(x: nat): (r: nat)
    ensures r <= MAX
  {
    if x <= MAX then x else Fold(x % 0x1_0000 + x / 0x1_0000)
  }

  function Wrap32(x: nat): (r: nat)
    ensures r < 0x1_0000_0000 && (x < 0x1_0000_0000 ==> r == x)
  {
    x % 0x1_0000_0000
  }

  /** What both checksum functions return: the accumulator, 32 bits wide, folded and complemented. */
  function Complement(sum: nat): (r: nat)
    ensures r <= MAX
  {
    MAX - Fold(Wrap32(sum))
  }

  /** The value of Fold: folding keeps the residue modulo 0xFFFF, and only 0 folds to 0. */
  function FoldIs(x: nat): (r: nat)
    ensures r <= MAX && r % MAX == x % MAX && (r == 0 <==> x == 0)
  {
    if x == 0 then 0 else (x - 1) % MAX + 1
  }

  lemma FoldOnce(x: nat)
    requires x > MAX
    ensures 0 < x % 0x1_0000 + x / 0x1_0000 < x
    ensures FoldIs(x % 0x1_0000 + x / 0x1_0000) == FoldIs(x)
  {
    var q, r := x / 0x1_0000, x % 0x1_0000;
    assert x == 0x1_0000 * q + r && x - 1 == MAX * q + (q + r - 1);
    Multiple(q + r - 1, q);
  }

  lemma {:induction false} Multiple(x: nat, q: nat)
    ensures (x + MAX * q) % MAX == x % MAX
  {
    if q > 0 { Multiple(x, q - 1); }
  }

  lemma {:induction false} FoldValue(x: nat)
    ensures Fold(x) == FoldIs(x)
    decreases x
  {
    if x > MAX {
      FoldOnce(x);
      FoldValue(x % 0x1_0000 + x / 0x1_0000);
    }
  }

  function IpChecksum(p: seq<byte>): (r: nat)
    ensures r <= MAX
  {
    Complement(Words(p))
  }

  // ---------------------------------------------------------------- sums

  lemma {:induction false} WordsBound(p: seq<byte>)
    ensures Words(p) <= (|p| + 1) / 2 * MAX
  {
    if |p| >= 2 { WordsBound(p[2..]); }
  }

  /** Up to 131074 bytes the 32-bit accumulator never overflows. */
  lemma NoOverflow(p: seq<byte>)
    requires |p| <= 131074
    ensures Words(p) < 0x1_0000_0000
  {
    WordsBound(p);
  }

  /** One byte more and it can. */
  lemma OverflowsBeyond()
    ensures exists p: seq<byte> :: |p| == 131075 && Words(p) >= 0x1_0000_0000
  {
    var all: seq<byte> := seq(131074, _ => 0xFF);
    var p: seq<byte> := all + [1];
    AllOnes(all);
    WordsConcat(all, [1]);
    assert Words(p) == 65537 * MAX + 1;
  }

  lemma {:induction false} AllOnes(p: seq<byte>)
    requires |p| % 2 == 0 && forall i :: 0 <= i < |p| ==> p[i] == 0xFF
    ensures Words(p) == |p| / 2 * MAX
  {
    if p != [] { AllOnes(p[2..]); }
  }

  /** The sum splits at an even offset. */
  lemma {:induction false} WordsConcat(a: seq<byte>, b: seq<byte>)
    requires |a| % 2 == 0
    ensures Words(a + b) == Words(a) + Words(b)
  {
    if a == [] {
      assert a + b == b;
    } else {
      WordsConcat(a[2..], b);
      assert (a + b)[2..] == a[2..] + b;
    }
  }

  /** A word at an even offset contributes exactly its value. */
  lemma WordsSplit(p: seq<byte>, i: nat)
    requires i % 2 == 0 && i + 2 <= |p|
    ensures Words(p) == Words(p[..i]) + Half(p, i) + Words(p[i + 2..])
  {
    assert p == p[..i] + p[i..];
    WordsConcat(p[..i], p[i..]);
    assert p[i..][2..] == p[i + 2..];
  }

  // ---------------------------------------------------------------- inserting and checking

  /** The 16-bit store `field = v` at offset i. */
  function Stored(p: seq<byte>, i: nat, v: nat): (r: seq<byte>)
    requires i + 2 <= |p| && v <= MAX
    ensures |r| == |p| && Half(r, i) == v
    ensures forall j :: 0 <= j < |p| && j != i && j != i + 1 ==> r[j] == p[j]
  {
    p[i := v % 0x100][i + 1 := v / 0x100]
  }

  lemma StoredWords(p: seq<byte>, i: nat, v: nat)
    requires i % 2 == 0 && i + 2 <= |p| && v <= MAX && Half(p, i) == 0
    ensures Words(Stored(p, i, v)) == Words(p) + v
  {
    var r := Stored(p, i, v);
    WordsSplit(p, i);
    WordsSplit(r, i);
    assert r[..i] == p[..i] && r[i + 2..] == p[i + 2..];
  }

  /** Over a sum that stays within 32 bits, adding the complement makes the checksum 0. */
  lemma ComplementCancels(sum: nat)
    requires sum + MAX < 0x1_0000_0000
    ensures Complement(sum + Complement(sum)) == 0
  {
    hide Fold, Wrap32;
    FoldValue(sum);
    var total := sum + (MAX - FoldIs(sum));
    FoldValue(total);
    if sum > 0 {
      assert total == 0 + MAX * ((sum - 1) / MAX + 1);
      Multiple(0, (sum - 1) / MAX + 1);
    }
    OnlyFull(FoldIs(total));
  }

  lemma OnlyFull(f: nat)
    requires 0 < f <= MAX && f % MAX == 0
    ensures f == MAX
  {
  }

  /** A message whose checksum field, at an even offset, was zero when it was computed, checks to 0 with the
      checksum stored there. */
  lemma InsertedChecks(p: seq<byte>, i: nat)
    requires i % 2 == 0 && i + 2 <= |p| <= 131072 && Half(p, i) == 0
    ensures IpChecksum(Stored(p, i, IpChecksum(p))) == 0
  {
    WordsBound(p);
    StoredWords(p, i, IpChecksum(p));
    ComplementCancels(Words(p));
  }

  lemma FoldSame(x: nat, y: nat)
    ensures Fold(x) == Fold(y) <==> x % MAX == y % MAX && (x == 0 <==> y == 0)
  {
    FoldValue(x);
    FoldValue(y);
  }

  lemma ResidueNear(x: nat, d: nat)
    requires d <= MAX
    ensures (x + d) % MAX == x % MAX <==> d == 0 || d == MAX
  {
    Multiple(x % MAX + d, x / MAX);
    assert x + d == x % MAX + d + MAX * (x / MAX);
  }

  predicate Extremes(u: nat, v: nat) { (u == 0 && v == MAX) || (u == MAX && v == 0) }

  lemma SumsFold(rest: nat, u: nat, v: nat)
    requires u <= MAX && v <= MAX
    ensures Fold(rest + u) == Fold(rest + v) <==> u == v || (Extremes(u, v) && rest > 0)
  {
    hide Fold;
    FoldSame(rest + u, rest + v);
    if u <= v { ResidueNear(rest + u, v - u); } else { ResidueNear(rest + v, u - v); }
  }

  /** A change of one word goes unnoticed exactly if it swaps 0x0000 and 0xFFFF in a message whose other words
      are not all zero. */
  lemma OneWordChanged(p: seq<byte>, i: nat, v: nat)
    requires i % 2 == 0 && i + 2 <= |p| <= 131072 && v <= MAX
    ensures IpChecksum(Stored(p, i, v)) == IpChecksum(p)
        <==> v == Half(p, i) || (Extremes(Half(p, i), v) && Words(p[..i]) + Words(p[i + 2..]) > 0)
  {
    hide Fold, Words, Wrap32, Half, Stored;
    var r, u := Stored(p, i, v), Half(p, i);
    NoOverflow(p);
    NoOverflow(r);
    WordsSplit(p, i);
    WordsSplit(r, i);
    HalfBound(p, i);
    assert r[..i] == p[..i] && r[i + 2..] == p[i + 2..];
    SumsFold(Words(p[..i]) + Words(p[i + 2..]), u, v);
  }

  lemma HalfBound(p: seq<byte>, i: nat)
    requires i + 2 <= |p|
    ensures 0 <= Half(p, i) <= MAX
  {
  }

  // ---------------------------------------------------------------- ip_checksum

  method ComputeIpChecksum(p: seq<byte>) returns (r: nat)
    ensures r == IpChecksum(p)
  {
    hide Fold, Complement, Wrap32;
    var sum: nat, i := 0, 0;
    while |p| - i > 1
      invariant 0 <= i <= |p|
      invariant sum < 0x1_0000_0000
      invariant Wrap32(sum + Words(p[i..])) == Wrap32(Words(p))
    {
      assert p[i..][2..] == p[i + 2..];
      WrapAdd(sum, Half(p, i), Words(p[i + 2..]));
      sum := (sum + Half(p, i)) % 0x1_0000_0000;
      i := i + 2;
    }
    if |p| - i > 0 {
      WrapAdd(sum, p[i], 0);
      sum := (sum + p[i]) % 0x1_0000_0000;
    }
    SameComplement(sum, Words(p));
    r := FoldAndComplement(sum);
  }

  lemma WrapAdd(a: nat, b: nat, c: nat)
    ensures Wrap32((a + b) % 0x1_0000_0000 + c) == Wrap32(a + b + c)
  {
  }

  lemma SameComplement(a: nat, b: nat)
    requires Wrap32(a) == Wrap32(b)
    ensures Complement(a) == Complement(b)
  {
  }

  method FoldAndComplement(total: nat) returns (r: nat)
    requires total < 0x1_0000_0000
    ensures r == Complement(total)
  {
    var sum := total;
    while sum / 0x1_0000 != 0
      invariant FoldIs(sum) == FoldIs(total)
      decreases sum
    {
      FoldOnce(sum);
      sum := sum % 0x1_0000 + sum / 0x1_0000;
    }
    FoldValue(total);
    FoldValue(sum);
    r := MAX - sum;
  }
}
