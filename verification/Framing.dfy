/** The blank line CR LF CR LF that ends a message head, as the TCP receiver and HTTP look for it. */
module Framing {
  import opened Options

  predicate BlankAt<T(==)>(s: seq<T>, i: int, cr: T, lf: T) {
    0 <= i && i + 3 < |s| && s[i] == cr && s[i + 1] == lf && s[i + 2] == cr && s[i + 3] == lf
  }

  /** Just past the first blank line that starts at i or later. */
  function HeadEnd<T(==)>(s: seq<T>, i: nat, cr: T, lf: T): (r: Option<nat>)
    ensures r.Some? ==> i + 4 <= r.value <= |s| && BlankAt(s, r.value - 4, cr, lf)
    ensures r.Some? ==> forall k :: i <= k < r.value - 4 ==> !BlankAt(s, k, cr, lf)
    ensures r.None? ==> forall k :: i <= k ==> !BlankAt(s, k, cr, lf)
    decreases |s| - i
  {
    if i + 3 >= |s| then None
    else if BlankAt(s, i, cr, lf) then Some(i + 4)
    else HeadEnd(s, i + 1, cr, lf)
  }

  lemma HeadEndIs<T>(s: seq<T>, i: nat, e: nat, cr: T, lf: T)
    requires i + 4 <= e && BlankAt(s, e - 4, cr, lf)
    requires forall k :: i <= k < e - 4 ==> !BlankAt(s, k, cr, lf)
    ensures HeadEnd(s, i, cr, lf) == Some(e)
  {
    assert HeadEnd(s, i, cr, lf).Some?;
  }
}
