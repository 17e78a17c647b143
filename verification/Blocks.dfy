/**
 * The heap as the sequence of its blocks in address order: what malloc, free and realloc do to
 * that sequence, and what every run of them keeps.  Addresses are offsets from the arena's base.
 */
module Blocks {
  import opened Machine
  import opened Options

  const HEAP_SIZE: nat := 4 * 1024 * 1024
  const HEADER_SIZE: nat := 16   // sizeof(mem_block_t) is 12 on i386, rounded up to 8
  const NULL: word := SIZE_MAX   // no offset in the arena

  datatype Block = Block(addr: nat, size: nat, free: bool) {
    function Payload(): nat { addr + HEADER_SIZE }
    function End(): nat { addr + HEADER_SIZE + size }
  }

  // ---------------------------------------------------------------- the invariant

  predicate InArena(b: Block) {
    b.addr % 8 == 0 && b.End() <= HEAP_SIZE
  }

  /** No block reaches into the next one. */
  predicate Ordered(bs: seq<Block>) {
    |bs| < 2 || (bs[0].End() <= bs[1].addr && Ordered(bs[1..]))
  }

  ghost predicate Laid(bs: seq<Block>) {
    (forall i :: 0 <= i < |bs| ==> InArena(bs[i])) && Ordered(bs)
  }

  lemma {:induction false} OrderedPair(bs: seq<Block>, i: nat, j: nat)
    requires Ordered(bs) && i < j < |bs|
    ensures bs[i].End() <= bs[j].addr
  {
    if i > 0 {
      OrderedPair(bs[1..], i - 1, j - 1);
    } else if j > 1 {
      OrderedPair(bs[1..], 0, j - 1);
    }
  }

  lemma {:induction false} SameExtents(bs: seq<Block>, cs: seq<Block>)
    requires Ordered(bs) && |bs| == |cs|
    requires forall k :: 0 <= k < |bs| ==> cs[k].addr == bs[k].addr && cs[k].size == bs[k].size
    ensures Ordered(cs)
  {
    if |bs| >= 2 { SameExtents(bs[1..], cs[1..]); }
  }

  predicate Touching(a: Block, b: Block) {
    a.free && b.free && a.End() == b.addr
  }

  ghost predicate Apart(bs: seq<Block>) {
    forall i :: 0 <= i < |bs| ==> ApartAt(bs, i)
  }

  predicate ApartAt(bs: seq<Block>, i: nat)
    requires i < |bs|
  {
    i + 1 < |bs| ==> !Touching(bs[i], bs[i + 1])
  }

  function Footprint(bs: seq<Block>): nat {
    if bs == [] then 0 else HEADER_SIZE + bs[0].size + Footprint(bs[1..])
  }

  /** Every byte is in one block's header or payload, or was cut off a block by a shrinking realloc. */
  ghost predicate Inv(bs: seq<Block>, lost: nat) {
    Laid(bs) && Apart(bs) && Footprint(bs) + lost == HEAP_SIZE
  }

  const INITIAL: seq<Block> := [Block(0, HEAP_SIZE - HEADER_SIZE, true)]

  lemma InitialInv()
    ensures Inv(INITIAL, 0)
  {
    assert INITIAL[1..] == [];
  }

  lemma FootprintConcat(a: seq<Block>, b: seq<Block>)
    ensures Footprint(a + b) == Footprint(a) + Footprint(b)
  {
    if a == [] {
      assert a + b == b;
    } else {
      assert (a + b)[1..] == a[1..] + b;
      FootprintConcat(a[1..], b);
    }
  }

  lemma FootprintSplit(bs: seq<Block>, i: nat, j: nat)
    requires i <= j <= |bs|
    ensures Footprint(bs) == Footprint(bs[..i]) + Footprint(bs[i..j]) + Footprint(bs[j..])
  {
    assert bs == bs[..i] + bs[i..j] + bs[j..];
    FootprintConcat(bs[..i] + bs[i..j], bs[j..]);
    FootprintConcat(bs[..i], bs[i..j]);
  }

  lemma FootprintOne(b: Block)
    ensures Footprint([b]) == HEADER_SIZE + b.size
  {
    assert [b][1..] == [];
  }

  /** Replacing bs[i..j] by a piece of the same size keeps the accounting. */
  lemma FootprintReplace(bs: seq<Block>, i: nat, j: nat, piece: seq<Block>)
    requires i <= j <= |bs|
    ensures Footprint(bs[..i] + piece + bs[j..]) + Footprint(bs[i..j]) == Footprint(bs) + Footprint(piece)
  {
    FootprintSplit(bs, i, j);
    FootprintConcat(bs[..i] + piece, bs[j..]);
    FootprintConcat(bs[..i], piece);
  }

  predicate Before(a: seq<Block>, b: seq<Block>) {
    a == [] || b == [] || a[|a| - 1].End() <= b[0].addr
  }

  predicate Joint(a: seq<Block>, b: seq<Block>) {
    a != [] && b != [] && Touching(a[|a| - 1], b[0])
  }

  lemma LaidConcat(a: seq<Block>, b: seq<Block>)
    ensures Laid(a + b) <==> Laid(a) && Laid(b) && Before(a, b)
  {
    var c := a + b;
    assert forall i :: 0 <= i < |a| ==> a[i] == c[i];
    assert forall i :: 0 <= i < |b| ==> b[i] == c[|a| + i];
    OrderedConcat(a, b);
  }

  lemma {:induction false} OrderedConcat(a: seq<Block>, b: seq<Block>)
    ensures Ordered(a + b) <==> Ordered(a) && Ordered(b) && Before(a, b)
  {
    if |a| == 0 {
      assert a + b == b;
    } else {
      assert (a + b)[1..] == a[1..] + b;
      OrderedConcat(a[1..], b);
    }
  }

  lemma ApartConcat(a: seq<Block>, b: seq<Block>)
    ensures Apart(a + b) <==> Apart(a) && Apart(b) && !Joint(a, b)
  {
    var c := a + b;
    if Apart(c) {
      forall i | 0 <= i < |a| ensures ApartAt(a, i) { assert ApartAt(c, i); }
      forall i | 0 <= i < |b| ensures ApartAt(b, i) { assert ApartAt(c, |a| + i); }
      if a != [] { assert ApartAt(c, |a| - 1); }
    }
    if Apart(a) && Apart(b) && !Joint(a, b) {
      forall i | 0 <= i < |c|
        ensures ApartAt(c, i)
      {
        if i < |a| { assert ApartAt(a, i); } else { assert ApartAt(b, i - |a|); }
      }
    }
  }

  /** A block may be replaced by blocks inside its extent that touch no free neighbour. */
  lemma ReplaceKeeps(bs: seq<Block>, lost: nat, i: nat, piece: seq<Block>, cut: nat)
    requires Inv(bs, lost) && i < |bs| && piece != []
    requires Laid(piece) && Apart(piece)
    requires piece[0].addr == bs[i].addr && piece[|piece| - 1].End() <= bs[i].End()
    requires piece[0].free ==> bs[i].free
    requires var z := piece[|piece| - 1]; z.free ==> bs[i].free && z.End() == bs[i].End()
    requires Footprint(piece) + cut == HEADER_SIZE + bs[i].size
    ensures Inv(bs[..i] + piece + bs[i + 1..], lost + cut)
  {
    var a, b, c := bs[..i], [bs[i]], bs[i + 1..];
    assert bs == a + b + c;
    LaidConcat(a + b, c); LaidConcat(a, b);
    ApartConcat(a + b, c); ApartConcat(a, b);
    LaidConcat(a + piece, c); LaidConcat(a, piece);
    ApartConcat(a + piece, c); ApartConcat(a, piece);
    assert (a + b)[|a + b| - 1] == bs[i];
    assert (a + piece)[|a + piece| - 1] == piece[|piece| - 1];
    FootprintReplace(bs, i, i + 1, piece);
    assert bs[i..i + 1] == b;
    FootprintOne(bs[i]);
  }

  // ---------------------------------------------------------------- malloc

  /** `(size + 7) & ~7` in 32 bits, and 8 where that is 0. */
  function Rounded(size: word): (n: word)
  {
    var r := (size + 7) % 0x1_0000_0000 / 8 * 8;
    if r == 0 then 8 else r
  }

  /** A request is rounded up to the next multiple of 8 exactly when the addition does not wrap;
      the wrapped requests are all given 8 bytes. */
  lemma RoundedCovers(size: word)
    requires size > 0
    ensures Rounded(size) % 8 == 0 && Rounded(size) >= 8
    ensures Rounded(size) >= size <==> size <= SIZE_MAX - 7
    ensures size <= SIZE_MAX - 7 ==> Rounded(size) - size < 8
    ensures size > SIZE_MAX - 7 ==> Rounded(size) == 8
  {
  }

  function FirstFit(bs: seq<Block>, need: nat): (r: Option<nat>)
    ensures r.Some? ==> r.value < |bs| && bs[r.value].free && bs[r.value].size >= need
    ensures r.Some? ==> forall j :: 0 <= j < r.value && bs[j].free ==> bs[j].size < need
    ensures r.None? ==> forall j :: 0 <= j < |bs| && bs[j].free ==> bs[j].size < need
  {
    if bs == [] then None
    else if bs[0].free && bs[0].size >= need then Some(0)
    else
      match FirstFit(bs[1..], need)
      case None =>
        assert forall j :: 1 <= j < |bs| ==> bs[j] == bs[1..][j - 1];
        None
      case Some(k) =>
        assert forall j :: 1 <= j <= k ==> bs[j] == bs[1..][j - 1];
        Some(k + 1)
  }

  ghost predicate NoneFits(bs: seq<Block>, i: nat, need: nat) {
    forall k :: 0 <= k < i && k < |bs| && bs[k].free ==> bs[k].size < need
  }

  lemma FirstFitIs(bs: seq<Block>, need: nat, i: nat)
    requires i <= |bs| && NoneFits(bs, i, need)
    requires i < |bs| ==> bs[i].free && bs[i].size >= need
    ensures FirstFit(bs, need) == if i < |bs| then Some(i) else None
  {
  }

  /** Allocate `need` bytes at the front of block i, keeping the rest as a free block if it can hold
      a header and 8 bytes. */
  function Carve(bs: seq<Block>, i: nat, need: nat): seq<Block>
    requires i < |bs| && need <= bs[i].size
  {
    if bs[i].size >= need + HEADER_SIZE + HEADER_SIZE + 8 then
      bs[..i] + [Block(bs[i].addr, need, false),
                 Block(bs[i].addr + need + HEADER_SIZE, bs[i].size - need - HEADER_SIZE, true)] + bs[i + 1..]
    else
      bs[..i] + [bs[i].(free := false)] + bs[i + 1..]
  }

  lemma CarveInv(bs: seq<Block>, lost: nat, i: nat, need: nat)
    requires Inv(bs, lost) && i < |bs| && bs[i].free && need <= bs[i].size && need % 8 == 0
    ensures Inv(Carve(bs, i, need), lost)
  {
    var b := bs[i];
    if b.size >= need + HEADER_SIZE + HEADER_SIZE + 8 {
      var x := Block(b.addr, need, false);
      var y := Block(b.addr + need + HEADER_SIZE, b.size - need - HEADER_SIZE, true);
      SplitPiece(b, x, y);
      ReplaceKeeps(bs, lost, i, [x, y], 0);
      assert Carve(bs, i, need) == bs[..i] + [x, y] + bs[i + 1..];
    } else {
      FootprintOne(b.(free := false));
      ReplaceKeeps(bs, lost, i, [b.(free := false)], 0);
    }
  }

  lemma SplitPiece(b: Block, x: Block, y: Block)
    requires b.addr % 8 == 0 && b.End() <= HEAP_SIZE && x.size % 8 == 0
    requires x.addr == b.addr && y.addr == x.End() && y.End() == b.End() && !x.free
    ensures Laid([x, y]) && Apart([x, y])
    ensures Footprint([x, y]) == HEADER_SIZE + b.size
  {
    assert [x, y] == [x] + [y];
    FootprintConcat([x], [y]); FootprintOne(x); FootprintOne(y);
    LaidConcat([x], [y]); ApartConcat([x], [y]);
  }

  // ---------------------------------------------------------------- free

  /** One left-to-right pass that merges every free block with the free block it touches. */
  function Coalesce(bs: seq<Block>): seq<Block>
    decreases |bs|
  {
    if |bs| < 2 then bs
    else if Touching(bs[0], bs[1]) then Coalesce([Merge(bs[0], bs[1])] + bs[2..])
    else [bs[0]] + Coalesce(bs[1..])
  }

  function Merge(a: Block, b: Block): Block {
    Block(a.addr, a.size + HEADER_SIZE + b.size, true)
  }

  function Release(bs: seq<Block>, i: nat): seq<Block>
    requires i < |bs|
  {
    Coalesce(bs[i := bs[i].(free := true)])
  }

  /** The pass leaves no two touching free blocks, keeps the accounting, the layout and the live blocks. */
  lemma {:induction false} CoalesceKeeps(bs: seq<Block>)
    requires Laid(bs)
    ensures var cs := Coalesce(bs);
            && Laid(cs) && Apart(cs) && Footprint(cs) == Footprint(bs)
            && (bs == [] <==> cs == [])
            && (bs != [] ==> cs[0].addr == bs[0].addr && cs[0].free == bs[0].free)
            && (forall b: Block :: !b.free ==> (b in cs <==> b in bs))
    decreases |bs|
  {
    if |bs| < 2 {
    } else if Touching(bs[0], bs[1]) {
      MergeKeeps(bs);
      CoalesceKeeps([Merge(bs[0], bs[1])] + bs[2..]);
    } else {
      var rest := Coalesce(bs[1..]);
      assert bs == [bs[0]] + bs[1..];
      LaidConcat([bs[0]], bs[1..]);
      CoalesceKeeps(bs[1..]);
      LaidConcat([bs[0]], rest);
      ApartConcat([bs[0]], rest);
      assert ([bs[0]] + rest)[1..] == rest;
      assert !Joint([bs[0]], rest);
    }
  }

  lemma MergeKeeps(bs: seq<Block>)
    requires Laid(bs) && |bs| >= 2 && Touching(bs[0], bs[1])
    ensures var ms := [Merge(bs[0], bs[1])] + bs[2..];
            && Laid(ms) && Footprint(ms) == Footprint(bs)
            && (forall b: Block :: !b.free ==> (b in ms <==> b in bs))
  {
    var m := Merge(bs[0], bs[1]);
    assert bs == [bs[0], bs[1]] + bs[2..];
    LaidConcat([bs[0], bs[1]], bs[2..]);
    LaidConcat([m], bs[2..]);
    assert ([m] + bs[2..])[1..] == bs[2..] == bs[1..][1..];
  }

  lemma ReleaseInv(bs: seq<Block>, lost: nat, i: nat)
    requires Inv(bs, lost) && i < |bs|
    ensures Inv(Release(bs, i), lost)
    ensures forall b: Block :: !b.free ==> (b in Release(bs, i) <==> b in bs && b != bs[i])
  {
    var fs := bs[i := bs[i].(free := true)];
    FootprintReplace(bs, i, i + 1, [fs[i]]);
    assert fs == bs[..i] + [fs[i]] + bs[i + 1..];
    assert bs[i..i + 1] == [bs[i]];
    FootprintOne(bs[i]); FootprintOne(fs[i]);
    SameExtents(bs, fs);
    forall b: Block | !b.free
      ensures b in fs <==> b in bs && b != bs[i]
    {
      if b in bs && b != bs[i] {
        var k :| 0 <= k < |bs| && bs[k] == b;
        assert fs[k] == b;
      }
      if b in fs {
        var k :| 0 <= k < |fs| && fs[k] == b;
        if k < i { OrderedPair(bs, k, i); } else { OrderedPair(bs, i, k); }
      }
    }
    CoalesceKeeps(fs);
  }

  // ---------------------------------------------------------------- realloc, shrinking in place

  function Shrink(bs: seq<Block>, i: nat, size: nat): seq<Block>
    requires i < |bs| && size <= bs[i].size
  {
    bs[i := bs[i].(size := size)]
  }

  lemma ShrinkInv(bs: seq<Block>, lost: nat, i: nat, size: nat)
    requires Inv(bs, lost) && i < |bs| && !bs[i].free && size <= bs[i].size
    ensures Inv(Shrink(bs, i, size), lost + bs[i].size - size)
  {
    var c := bs[i].(size := size);
    assert Shrink(bs, i, size) == bs[..i] + [c] + bs[i + 1..];
    FootprintOne(c);
    ReplaceKeeps(bs, lost, i, [c], bs[i].size - size);
  }

  // ---------------------------------------------------------------- the three calls

  datatype State = State(blocks: seq<Block>, lost: nat)

  ghost predicate Good(s: State) { Inv(s.blocks, s.lost) }

  /** Number of the block at address a, |bs| if there is none. */
  function IndexOf(bs: seq<Block>, a: int): (i: nat)
    ensures i <= |bs|
    ensures i < |bs| ==> bs[i].addr == a
    ensures forall k :: 0 <= k < i ==> bs[k].addr != a
  {
    if bs == [] then 0 else if bs[0].addr == a then 0 else
      var r := IndexOf(bs[1..], a);
      assert forall k :: 1 <= k < r + 1 ==> bs[k] == bs[1..][k - 1];
      r + 1
  }

  predicate IsLive(s: State, p: int) {
    var i := IndexOf(s.blocks, p - HEADER_SIZE);
    i < |s.blocks| && !s.blocks[i].free
  }

  /** The block whose payload starts at p. */
  function BlockOf(s: State, p: int): Block
    requires IsLive(s, p)
  {
    s.blocks[IndexOf(s.blocks, p - HEADER_SIZE)]
  }

  function DoMalloc(s: State, size: word): (State, int) {
    if size == 0 then (s, NULL)
    else
      match FirstFit(s.blocks, Rounded(size))
      case None => (s, NULL)
      case Some(i) => (s.(blocks := Carve(s.blocks, i, Rounded(size))), s.blocks[i].Payload())
  }

  function DoFree(s: State, p: int): State {
    if IsLive(s, p) then s.(blocks := Release(s.blocks, IndexOf(s.blocks, p - HEADER_SIZE))) else s
  }

  function DoRealloc(s: State, p: int, size: word): (State, int)
    requires p == NULL || IsLive(s, p)
  {
    if p == NULL then DoMalloc(s, size)
    else if size == 0 then (DoFree(s, p), NULL)
    else
      var i := IndexOf(s.blocks, p - HEADER_SIZE);
      var b := s.blocks[i];
      if size <= b.size then (State(Shrink(s.blocks, i, size), s.lost + b.size - size), p)
      else
        var (s', q) := DoMalloc(s, size);
        if q == NULL then (s', NULL) else (DoFree(s', p), q)
  }
}
