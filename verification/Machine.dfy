/** Bytes and little-endian 32-bit words in a byte arena, as the i386 target lays them out. */
module Machine {
  type byte = x: int | 0 <= x < 0x100
  type word = x: int | 0 <= x < 0x1_0000_0000

  const SIZE_MAX: word := 0xFFFF_FFFF

  function Least(a: int, b: int): int { if a < b then a else b }

  /** The word stored in the four bytes at `a`. */
  function LoadWord(m: seq<byte>, a: nat): word
    requires a + 4 <= |m|
  {
    var b0: int, b1: int, b2: int, b3: int := m[a], m[a + 1], m[a + 2], m[a + 3];
    b0 + 0x100 * b1 + 0x1_0000 * b2 + 0x100_0000 * b3
  }

  function WordBytes(w: word): (s: seq<byte>)
    ensures |s| == 4
    ensures LoadWord(s, 0) == w
  {
    [w % 0x100, w / 0x100 % 0x100, w / 0x1_0000 % 0x100, w / 0x100_0000]
  }

  function StoreWord(m: seq<byte>, a: nat, w: word): (s: seq<byte>)
    requires a + 4 <= |m|
    ensures |s| == |m|
    ensures forall x :: 0 <= x < |m| && !(a <= x < a + 4) ==> s[x] == m[x]
  {
    m[..a] + WordBytes(w) + m[a + 4..]
  }

  lemma LoadAfterStore(m: seq<byte>, a: nat, w: word, b: nat)
    requires a + 4 <= |m| && b + 4 <= |m|
    requires a == b || a + 4 <= b || b + 4 <= a
    ensures LoadWord(StoreWord(m, a, w), b) == if a == b then w else LoadWord(m, b)
  {
    var s := StoreWord(m, a, w);
    if a == b {
      assert s[a..a + 4] == WordBytes(w);
      assert LoadWord(s, a) == LoadWord(s[a..a + 4], 0);
    }
  }
}
