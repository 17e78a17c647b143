/** Cyclic positions in a descriptor ring of src/network/e1000.c. */
module Rings {
  const RING: nat := 32
  const BUFFER_SIZE: nat := 2048
  const DD: nat := 1

  /** The slot of the a-th frame ever put through a ring. */
  function At(a: nat): (i: nat)
    ensures i < RING
  {
    a % RING
  }

  /** A status byte with the descriptor-done bit. */
  predicate Done(status: int) { status % 2 == 1 }

  lemma AtIs(a: nat, q: nat, r: nat)
    requires a == RING * q + r && r < RING
    ensures At(a) == r
  {
  }

  lemma AtApart(a: nat, b: nat)
    requires a < b < a + RING
    ensures At(a) != At(b)
  {
  }

  lemma AtNext(a: nat)
    ensures At(a + 1) == (At(a) + 1) % RING
    ensures At(a + RING) == At(a)
    ensures At(a + 31) == (At(a) + 31) % RING
  {
    hide At;
    var q, r := a / RING, a % RING;
    AtIs(a, q, r);
    AtIs(a + RING, q + 1, r);
    if r == 31 { AtIs(a + 1, q + 1, 0); } else { AtIs(a + 1, q, r + 1); }
    if r == 0 { AtIs(a + 31, q, 31); } else { AtIs(a + 31, q + 1, r - 1); }
  }

  lemma AtShift(a: nat, k: nat)
    ensures (At(a) + k) % RING == At(a + k)
  {
  }

  /** The cyclic distance that registers show. */
  lemma Distance(lo: nat, hi: nat)
    requires lo <= hi < lo + RING
    ensures (At(hi) + RING - At(lo)) % RING == hi - lo
  {
  }

  /** Slot i is in the cyclic range that starts at lo and ends before hi. */
  predicate Within(i: nat, lo: nat, hi: nat)
    requires i < RING && lo < RING && hi < RING
  {
    if lo <= hi then lo <= i < hi else lo <= i || i < hi
  }

  /** For positions less than a ring apart, the cyclic range is the set of their slots. */
  lemma WithinIs(i: nat, lo: nat, hi: nat)
    requires i < RING && lo <= hi < lo + RING
    ensures Within(i, At(lo), At(hi)) <==> exists a :: lo <= a < hi && At(a) == i
  {
    var a := Position(i, lo);
    RangeEnd(lo, hi);
    assert Within(i, At(lo), At(hi)) <==> a < hi;
    if a >= hi {
      forall b | lo <= b < hi ensures At(b) != i { AtApart(b, a); }
    }
  }

  /** The one position of slot i among the ring's next 32. */
  function Position(i: nat, lo: nat): (a: nat)
    requires i < RING
    ensures lo <= a < lo + RING && At(a) == i
    ensures a - lo == if i >= At(lo) then i - At(lo) else i + RING - At(lo)
  {
    var q, r := lo / RING, lo % RING;
    if i >= r then (AtIs(lo + (i - r), q, i); lo + (i - r))
    else (AtIs(lo + (i + RING - r), q + 1, i); lo + (i + RING - r))
  }

  lemma RangeEnd(lo: nat, hi: nat)
    requires lo <= hi < lo + RING
    ensures hi - lo == if At(hi) >= At(lo) then At(hi) - At(lo) else At(hi) + RING - At(lo)
  {
    var q, r := lo / RING, lo % RING;
    if r + (hi - lo) < RING { AtIs(hi, q, r + (hi - lo)); } else { AtIs(hi, q + 1, r + (hi - lo) - RING); }
  }
}
