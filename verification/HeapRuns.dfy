/** What single calls and whole runs of malloc, free and realloc guarantee about the heap. */
module HeapRuns {
  import opened Machine
  import opened Blocks
  import opened Options

  // ---------------------------------------------------------------- blocks and their payload pointers

  lemma IndexFinds(bs: seq<Block>, i: nat)
    requires Ordered(bs) && i < |bs|
    ensures IndexOf(bs, bs[i].addr) == i
  {
    var k := IndexOf(bs, bs[i].addr);
    assert k <= i;
    if k < i { OrderedPair(bs, k, i); }
  }

  lemma NullNotLive(s: State)
    requires Good(s)
    ensures !IsLive(s, NULL)
  {
    assert forall k :: 0 <= k < |s.blocks| && InArena(s.blocks[k]) ==> s.blocks[k].addr <= HEAP_SIZE;
  }

  /** A live payload pointer is 8-aligned and its payload lies inside the arena. */
  lemma LiveAligned(s: State, p: int)
    requires Good(s) && IsLive(s, p)
    ensures p % 8 == 0 && HEADER_SIZE <= p && p + BlockOf(s, p).size <= HEAP_SIZE
    ensures BlockOf(s, p) in s.blocks && BlockOf(s, p).Payload() == p && !BlockOf(s, p).free
  {
    assert InArena(s.blocks[IndexOf(s.blocks, p - HEADER_SIZE)]);
  }

  /** Payloads of different live pointers are disjoint, with a header between them. */
  lemma LiveDisjoint(s: State, p: int, q: int)
    requires Good(s) && IsLive(s, p) && IsLive(s, q) && p != q
    ensures p + BlockOf(s, p).size + HEADER_SIZE <= q || q + BlockOf(s, q).size + HEADER_SIZE <= p
  {
    var i, j := IndexOf(s.blocks, p - HEADER_SIZE), IndexOf(s.blocks, q - HEADER_SIZE);
    if i < j { OrderedPair(s.blocks, i, j); } else { OrderedPair(s.blocks, j, i); }
  }

  lemma LiveMember(s: State, b: Block)
    requires Good(s) && b in s.blocks && !b.free
    ensures IsLive(s, b.Payload()) && BlockOf(s, b.Payload()) == b
  {
    var i :| 0 <= i < |s.blocks| && s.blocks[i] == b;
    IndexFinds(s.blocks, i);
  }

  /** The live blocks of t are those of s, without `gone` and with `come`. */
  ghost predicate LiveChange(s: State, t: State, gone: set<Block>, come: set<Block>) {
    forall b: Block :: !b.free ==> (b in t.blocks <==> (b in s.blocks && b !in gone) || b in come)
  }

  // ---------------------------------------------------------------- single calls

  lemma CarveLive(s: State, i: nat, need: nat)
    requires Good(s) && i < |s.blocks| && s.blocks[i].free && need <= s.blocks[i].size && need % 8 == 0
    ensures var t := s.(blocks := Carve(s.blocks, i, need));
            && Good(t) && i < |t.blocks| && t.blocks[i].addr == s.blocks[i].addr
            && !t.blocks[i].free && need <= t.blocks[i].size <= s.blocks[i].size
            && LiveChange(s, t, {}, {t.blocks[i]})
  {
    hide Apart, Footprint, Ordered;
    CarveInv(s.blocks, s.lost, i, need);
    var bs, cs := s.blocks, Carve(s.blocks, i, need);
    assert bs == bs[..i] + [bs[i]] + bs[i + 1..];
    assert cs == bs[..i] + cs[i..|cs| - |bs| + i + 1] + bs[i + 1..];
    assert cs[i..|cs| - |bs| + i + 1] == if |cs| == |bs| then [cs[i]] else [cs[i], cs[i + 1]];
  }

  /** malloc fails exactly when no free block holds the rounded size; otherwise it takes the
      lowest-addressed free block that does, and adds one live block there. */
  lemma MallocKeeps(s: State, size: word)
    requires Good(s) && size > 0
    ensures var (t, p) := DoMalloc(s, size);
            && Good(t) && t.lost == s.lost
            && (p == NULL <==> forall b :: b in s.blocks && b.free ==> b.size < Rounded(size))
            && (p == NULL ==> t == s)
            && (p != NULL ==>
                  && IsLive(t, p) && !IsLive(s, p) && BlockOf(t, p).size >= Rounded(size)
                  && LiveChange(s, t, {}, {BlockOf(t, p)})
                  && forall b :: b in s.blocks && b.free && b.size >= Rounded(size) ==> p <= b.Payload())
  {
    hide Carve, Ordered, Apart, Footprint, LiveChange;
    var need := Rounded(size);
    RoundedCovers(size);
    match FirstFit(s.blocks, need)
    case None => NoFit(s, need);
    case Some(i) => FitTaken(s, i, need);
  }

  lemma NoFit(s: State, need: nat)
    requires FirstFit(s.blocks, need) == None
    ensures forall b :: b in s.blocks && b.free ==> b.size < need
  {
    forall b | b in s.blocks && b.free ensures b.size < need {
      var j :| 0 <= j < |s.blocks| && s.blocks[j] == b;
    }
  }

  lemma FitTaken(s: State, i: nat, need: nat)
    requires Good(s) && FirstFit(s.blocks, need) == Some(i) && need % 8 == 0
    ensures var t, p := s.(blocks := Carve(s.blocks, i, need)), s.blocks[i].Payload();
            && Good(t) && p != NULL && IsLive(t, p) && !IsLive(s, p) && BlockOf(t, p).size >= need
            && LiveChange(s, t, {}, {BlockOf(t, p)})
            && (exists b :: b in s.blocks && b.free && b.size >= need)
            && forall b :: b in s.blocks && b.free && b.size >= need ==> p <= b.Payload()
  {
    hide Carve, Ordered, Apart, Footprint, LiveChange;
    CarveLive(s, i, need);
    IndexFinds(Carve(s.blocks, i, need), i);
    IndexFinds(s.blocks, i);
    assert s.blocks[i] in s.blocks && InArena(s.blocks[i]);
    LowestFit(s, i, need);
  }

  lemma LowestFit(s: State, i: nat, need: nat)
    requires Good(s) && i < |s.blocks| && NoneFits(s.blocks, i, need)
    ensures forall b :: b in s.blocks && b.free && b.size >= need ==> s.blocks[i].Payload() <= b.Payload()
  {
    forall b | b in s.blocks && b.free && b.size >= need
      ensures s.blocks[i].addr <= b.addr
    {
      var j :| 0 <= j < |s.blocks| && s.blocks[j] == b;
      if i < j { OrderedPair(s.blocks, i, j); }
    }
  }

  /** free removes exactly that live block; freeing the same pointer again changes nothing. */
  lemma FreeKeeps(s: State, p: int)
    requires Good(s) && IsLive(s, p)
    ensures var t := DoFree(s, p);
            && Good(t) && t.lost == s.lost && LiveChange(s, t, {BlockOf(s, p)}, {})
            && !IsLive(t, p) && DoFree(t, p) == t
  {
    var i := IndexOf(s.blocks, p - HEADER_SIZE);
    var t := DoFree(s, p);
    ReleaseInv(s.blocks, s.lost, i);
    if IsLive(t, p) {
      LiveAligned(t, p);
      var b := BlockOf(t, p);
      LiveMember(s, b);
      assert false;
    }
  }

  /** realloc moves or resizes one live block and touches no other live block. */
  lemma ReallocKeeps(s: State, p: int, size: word)
    requires Good(s) && IsLive(s, p) && size > 0
    ensures var (t, q) := DoRealloc(s, p, size);
            var b := BlockOf(s, p);
            && Good(t) && t.lost == s.lost + (if size <= b.size then b.size - size else 0)
            && (q == NULL ==> t == s)
            && (q != NULL ==> IsLive(t, q) && LiveChange(s, t, {b}, {BlockOf(t, q)}))
            && (q != NULL && size <= SIZE_MAX - 7 ==> BlockOf(t, q).size >= size)
            && (size <= b.size ==> q == p && BlockOf(t, q).size == size)
  {
    var (t, q) := DoRealloc(s, p, size);
    NullNotLive(s);
    var i := IndexOf(s.blocks, p - HEADER_SIZE);
    var b := s.blocks[i];
    if size <= b.size {
      ShrinkInv(s.blocks, s.lost, i, size);
      IndexFinds(t.blocks, i);
      ShrinkLive(s, i, size);
    } else {
      var (u, q) := DoMalloc(s, size);
      MallocKeeps(s, size);
      RoundedCovers(size);
      if q != NULL {
        GrowLive(s, u, p, q);
      }
    }
  }

  lemma ShrinkLive(s: State, i: nat, size: nat)
    requires Good(s) && i < |s.blocks| && !s.blocks[i].free && size <= s.blocks[i].size
    ensures var t := State(Shrink(s.blocks, i, size), s.lost + s.blocks[i].size - size);
            LiveChange(s, t, {s.blocks[i]}, {t.blocks[i]})
  {
    var bs, cs := s.blocks, Shrink(s.blocks, i, size);
    forall b: Block | !b.free
      ensures b in cs <==> (b in bs && b != bs[i]) || b == cs[i]
    {
      if b in bs && b != bs[i] {
        var k :| 0 <= k < |bs| && bs[k] == b;
        assert cs[k] == b;
      }
      if b in cs && b != cs[i] {
        var k :| 0 <= k < |cs| && cs[k] == b;
        assert bs[k] == b;
        if k < i { OrderedPair(bs, k, i); } else { OrderedPair(bs, i, k); }
      }
    }
  }

  lemma GrowLive(s: State, u: State, p: int, q: int)
    requires Good(s) && Good(u) && IsLive(s, p) && IsLive(u, q) && !IsLive(s, q)
    requires LiveChange(s, u, {}, {BlockOf(u, q)})
    ensures IsLive(u, p) && BlockOf(u, p) == BlockOf(s, p)
    ensures var t := DoFree(u, p);
            && Good(t) && t.lost == u.lost && IsLive(t, q) && BlockOf(t, q) == BlockOf(u, q)
            && LiveChange(s, t, {BlockOf(s, p)}, {BlockOf(u, q)})
  {
    var b, c := BlockOf(s, p), BlockOf(u, q);
    LiveAligned(s, p);
    LiveMember(u, b);
    LiveAligned(u, q);
    FreeKeeps(u, p);
    var t := DoFree(u, p);
    assert c in t.blocks;
    LiveMember(t, c);
  }

  // ---------------------------------------------------------------- layouts, block by block

  /** b is the free block of at least n bytes with the lowest address. */
  ghost predicate Lowest(s: State, b: Block, n: nat) {
    && b in s.blocks && b.free && b.size >= n
    && forall c :: c in s.blocks && c.free && c.size >= n ==> b.addr <= c.addr
  }

  /** The layout of t is that of s without `gone` and with `come`. */
  ghost predicate Change(s: State, t: State, gone: set<Block>, come: set<Block>) {
    forall x: Block :: x in t.blocks <==> (x in s.blocks && x !in gone) || x in come
  }

  /** What of a free block b a request for n bytes gets: just n if a header and 8 bytes more would be left. */
  function Got(b: Block, n: nat): nat { if b.size >= n + 40 then n else b.size }

  /** b has been taken for n bytes: in front lies the live block, behind it a free one of all that is left but the 16
      bytes of its header, if anything is; every other block, free or live, is as it was. */
  ghost predicate Taken(s: State, t: State, b: Block, n: nat) {
    Change(s, t, {b}, if b.size >= n + 40 then {Block(b.addr, n, false), Block(b.addr + 16 + n, b.size - n - 16, true)}
                      else {Block(b.addr, b.size, false)})
  }

  /** malloc takes the lowest free block that holds the rounded size, and splits it exactly if it has 40 bytes more. */
  lemma MallocSplits(s: State, size: word, b: Block)
    requires Good(s) && size > 0 && Lowest(s, b, Rounded(size))
    ensures var (t, p) := DoMalloc(s, size);
            var n := Rounded(size);
      p == b.addr + 16 && IsLive(t, p) && BlockOf(t, p) == Block(b.addr, Got(b, n), false) && Taken(s, t, b, n)
  {
    hide Carve, Ordered, Apart, Footprint, Taken, Lowest, Good, Got;
    var n := Rounded(size);
    RoundedCovers(size);
    var j := LowestIndex(s, b, n);
    FirstFitIs(s.blocks, n, j);
    CarvedBlocks(s, j, n);
    GoodOrdered(s.(blocks := Carve(s.blocks, j, n)));
    IndexFinds(Carve(s.blocks, j, n), j);
  }

  lemma GoodOrdered(s: State)
    requires Good(s)
    ensures Ordered(s.blocks)
  {
  }

  lemma LowestIndex(s: State, b: Block, n: nat) returns (j: nat)
    requires Good(s) && Lowest(s, b, n)
    ensures j < |s.blocks| && s.blocks[j] == b && b.free && b.size >= n && NoneFits(s.blocks, j, n)
  {
    j :| 0 <= j < |s.blocks| && s.blocks[j] == b;
    LowestFirst(s, j, n);
  }

  lemma LowestFirst(s: State, j: nat, n: nat)
    requires Good(s) && j < |s.blocks| && Lowest(s, s.blocks[j], n)
    ensures NoneFits(s.blocks, j, n)
  {
    forall k | 0 <= k < j && s.blocks[k].free ensures s.blocks[k].size < n {
      OrderedPair(s.blocks, k, j);
    }
  }

  lemma CarvedBlocks(s: State, i: nat, n: nat)
    requires Good(s) && i < |s.blocks| && s.blocks[i].free && n <= s.blocks[i].size && n % 8 == 0
    ensures var b, t := s.blocks[i], s.(blocks := Carve(s.blocks, i, n));
      Good(t) && i < |t.blocks| && t.blocks[i] == Block(b.addr, Got(b, n), false) && Taken(s, t, b, n)
  {
    hide Apart, Footprint, Ordered;
    CarveInv(s.blocks, s.lost, i, n);
    var b := s.blocks[i];
    var x, t := Block(b.addr, Got(b, n), false), s.(blocks := Carve(s.blocks, i, n));
    hide Change;
    if b.size >= n + 40 {
      var y := Block(b.addr + 16 + n, b.size - n - 16, true);
      Replaced(s, t, i, [x, y], {x, y});
    } else {
      Replaced(s, t, i, [x], {x});
    }
  }

  lemma Replaced(s: State, t: State, i: nat, piece: seq<Block>, come: set<Block>)
    requires Good(s) && i < |s.blocks| && t.blocks == s.blocks[..i] + piece + s.blocks[i + 1..]
    requires forall x :: x in piece <==> x in come
    ensures Change(s, t, {s.blocks[i]}, come)
  {
    OnlyOnce(s.blocks, i);
    assert s.blocks == s.blocks[..i] + [s.blocks[i]] + s.blocks[i + 1..];
  }

  /** No block occurs twice in a layout. */
  lemma OnlyOnce(bs: seq<Block>, i: nat)
    requires Ordered(bs) && i < |bs|
    ensures bs[i] !in bs[..i] && bs[i] !in bs[i + 1..]
  {
    forall k | 0 <= k < |bs| && k != i ensures bs[k] != bs[i] {
      if k < i { OrderedPair(bs, k, i); } else { OrderedPair(bs, i, k); }
    }
  }

  /** The byte at address a belongs to a free block, its header included. */
  ghost predicate FreeByte(bs: seq<Block>, a: int) {
    exists b :: b in bs && b.free && b.addr <= a < b.End()
  }

  /** free makes exactly the bytes of its block free, header included, and no others; with the separation of free
      blocks that Good states, this fixes the whole new layout. */
  lemma FreeBytes(s: State, p: int, a: int)
    requires Good(s) && IsLive(s, p)
    ensures var b := BlockOf(s, p);
      FreeByte(DoFree(s, p).blocks, a) <==> FreeByte(s.blocks, a) || b.addr <= a < b.End()
  {
    hide Coalesce, Apart, Footprint, Ordered;
    var i := IndexOf(s.blocks, p - HEADER_SIZE);
    var b, fs := s.blocks[i], s.blocks[i := s.blocks[i].(free := true)];
    CoalesceBytes(fs, a);
    assert fs[i] in fs;
    if FreeByte(s.blocks, a) {
      var c :| c in s.blocks && c.free && c.addr <= a < c.End();
      var k :| 0 <= k < |s.blocks| && s.blocks[k] == c;
      assert fs[k] == c;
    }
    if FreeByte(fs, a) {
      var c :| c in fs && c.free && c.addr <= a < c.End();
      var k :| 0 <= k < |fs| && fs[k] == c;
      assert k != i ==> s.blocks[k] == c;
    }
  }

  lemma {:induction false} CoalesceBytes(bs: seq<Block>, a: int)
    ensures FreeByte(Coalesce(bs), a) <==> FreeByte(bs, a)
    decreases |bs|
  {
    hide FreeByte;
    if |bs| >= 2 {
      if Touching(bs[0], bs[1]) {
        var m := Merge(bs[0], bs[1]);
        CoalesceBytes([m] + bs[2..], a);
        FreeByteSplit([m], bs[2..], a);
        FreeByteSplit([bs[0], bs[1]], bs[2..], a);
        assert bs == [bs[0], bs[1]] + bs[2..];
        MergedBytes(bs[0], bs[1], a);
      } else {
        CoalesceBytes(bs[1..], a);
        FreeByteSplit([bs[0]], Coalesce(bs[1..]), a);
        FreeByteSplit([bs[0]], bs[1..], a);
        assert bs == [bs[0]] + bs[1..];
      }
    }
  }

  lemma FreeByteSplit(x: seq<Block>, y: seq<Block>, a: int)
    ensures FreeByte(x + y, a) <==> FreeByte(x, a) || FreeByte(y, a)
  {
  }

  lemma MergedBytes(b: Block, c: Block, a: int)
    requires Touching(b, c)
    ensures FreeByte([Merge(b, c)], a) <==> FreeByte([b, c], a)
  {
    assert b in [b, c] && c in [b, c] && Merge(b, c) in [Merge(b, c)];
  }

  /** Requests for nothing, and realloc at its edges: on NULL it is malloc, for nothing it is free, and a block that is
      shrunk keeps its address, with every other block as it was. */
  lemma EdgeCalls(s: State, p: int, size: word)
    requires Good(s)
    ensures DoMalloc(s, 0) == (s, NULL) && DoFree(s, NULL) == s
    ensures DoRealloc(s, NULL, size) == DoMalloc(s, size)
    ensures IsLive(s, p) ==> DoRealloc(s, p, 0) == (DoFree(s, p), NULL)
    ensures IsLive(s, p) && 0 < size <= BlockOf(s, p).size ==>
              var (t, q) := DoRealloc(s, p, size);
              q == p && Change(s, t, {BlockOf(s, p)}, {Block(p - 16, size, false)})
  {
    hide Apart, Footprint, Coalesce, Change;
    NullNotLive(s);
    if IsLive(s, p) && 0 < size <= BlockOf(s, p).size {
      var i := IndexOf(s.blocks, p - HEADER_SIZE);
      var c := Block(p - 16, size, false);
      Replaced(s, DoRealloc(s, p, size).0, i, [c], {c});
    }
  }

  /** A growing realloc moves to the block that malloc would hand out, and the bytes of the old one become free. */
  lemma GrowMoves(s: State, p: int, size: word, b: Block, a: int)
    requires Good(s) && IsLive(s, p) && size > BlockOf(s, p).size && Lowest(s, b, Rounded(size))
    ensures var (t, q) := DoRealloc(s, p, size);
            var had, got := BlockOf(s, p), Got(b, Rounded(size));
      && q == b.addr + 16 && IsLive(t, q) && BlockOf(t, q) == Block(b.addr, got, false)
      && (FreeByte(t.blocks, a) <==>
            (FreeByte(s.blocks, a) && !(b.addr <= a < b.addr + 16 + got)) || had.addr <= a < had.End())
  {
    hide Good, FreeByte, Carve, LiveChange, Lowest, Taken, Got, DoMalloc, DoFree, IsLive, BlockOf, IndexOf;
    NullNotLive(s);
    var (u, q) := DoMalloc(s, size);
    MallocSplits(s, size, b);
    MallocKeeps(s, size);
    LowestInArena(s, b, Rounded(size));
    GrowLive(s, u, p, q);
    FreeBytes(u, p, a);
    TakenBytes(s, u, b, Rounded(size), a);
    GrowIs(s, p, size);
  }

  lemma GrowIs(s: State, p: int, size: word)
    requires IsLive(s, p) && p != NULL && size > BlockOf(s, p).size && DoMalloc(s, size).1 != NULL
    ensures DoRealloc(s, p, size) == (DoFree(DoMalloc(s, size).0, p), DoMalloc(s, size).1)
  {
  }

  /** A growing realloc fails, and leaves everything as it was, exactly if no free block holds the rounded size. */
  lemma GrowFails(s: State, p: int, size: word)
    requires Good(s) && IsLive(s, p) && size > BlockOf(s, p).size
    ensures DoRealloc(s, p, size).1 == NULL <==> forall b :: b in s.blocks && b.free ==> b.size < Rounded(size)
    ensures DoRealloc(s, p, size).1 == NULL ==> DoRealloc(s, p, size).0 == s
  {
    NullNotLive(s);
    MallocKeeps(s, size);
  }

  lemma LowestInArena(s: State, b: Block, n: nat)
    requires Good(s) && Lowest(s, b, n)
    ensures b.addr + 16 < NULL && b in s.blocks && b.free && b.size >= n
  {
    var j :| 0 <= j < |s.blocks| && s.blocks[j] == b;
    assert InArena(s.blocks[j]);
  }

  /** The bytes that malloc takes were free, and are the only ones that no longer are. */
  lemma TakenBytes(s: State, u: State, b: Block, n: nat, a: int)
    requires Good(s) && b in s.blocks && b.free && n <= b.size && Taken(s, u, b, n)
    ensures FreeByte(u.blocks, a) <==> FreeByte(s.blocks, a) && !(b.addr <= a < b.addr + 16 + Got(b, n))
  {
    hide Ordered, Apart, Footprint;
    if FreeByte(u.blocks, a) {
      var c :| c in u.blocks && c.free && c.addr <= a < c.End();
      if c in s.blocks && c != b { Elsewhere(s, b, c, a); }
    }
    if FreeByte(s.blocks, a) && !(b.addr <= a < b.addr + 16 + Got(b, n)) {
      var c :| c in s.blocks && c.free && c.addr <= a < c.End();
      if c == b {
        assert Block(b.addr + 16 + n, b.size - n - 16, true) in u.blocks;
      } else {
        assert c in u.blocks;
      }
    }
  }

  lemma Elsewhere(s: State, b: Block, c: Block, a: int)
    requires Good(s) && b in s.blocks && c in s.blocks && b != c && c.addr <= a < c.End()
    ensures !(b.addr <= a < b.End())
  {
    var i :| 0 <= i < |s.blocks| && s.blocks[i] == b;
    var j :| 0 <= j < |s.blocks| && s.blocks[j] == c;
    if i < j { OrderedPair(s.blocks, i, j); } else { OrderedPair(s.blocks, j, i); }
  }

  const START: State := State(INITIAL, 0)

  /** The first request succeeds exactly if it is for 1 to 4194288 bytes, or is so large that its rounding wraps; the
      block starts at offset 16. */
  lemma FirstRequest(size: word)
    ensures var p := DoMalloc(START, size).1;
      && (p != NULL <==> 0 < size <= 4194288 || size > SIZE_MAX - 7)
      && (p != NULL ==> p == 16)
  {
    var b := Block(0, 4194288, true);
    assert START.blocks == [b];
    InitialInv();
    if size > 0 {
      RoundedCovers(size);
      MallocKeeps(START, size);
      if Rounded(size) <= 4194288 { MallocSplits(START, size, b); } else { assert b in START.blocks; }
    }
  }

  /** Whether the copy of a realloc stays inside the block it goes to.  It can only leave it when the request wraps:
      then 8 bytes are asked for, and a block big enough to be split gives no more. */
  predicate CopyFits(s: State, p: int, size: word)
    requires IsLive(s, p)
  {
    var had := BlockOf(s, p).size;
    || size <= had
    || size <= SIZE_MAX - 7
    || match FirstFit(s.blocks, Rounded(size))
       case None => true
       case Some(i) => had <= if s.blocks[i].size >= 8 + HEADER_SIZE + HEADER_SIZE + 8 then 8 else s.blocks[i].size
  }

  /** That condition is exact: whenever a growing realloc copies, the old payload fits the new block if and only if
      it holds. */
  lemma GrowthFits(s: State, p: int, size: word)
    requires Good(s) && IsLive(s, p) && size > BlockOf(s, p).size && DoMalloc(s, size).1 != NULL
    ensures var (t, q) := DoMalloc(s, size);
            && IsLive(t, q)
            && (BlockOf(s, p).size <= BlockOf(t, q).size <==> CopyFits(s, p, size))
  {
    MallocKeeps(s, size);
    RoundedCovers(size);
    var i := FirstFit(s.blocks, Rounded(size)).value;
    CarveLive(s, i, Rounded(size));
    IndexFinds(Carve(s.blocks, i, Rounded(size)), i);
  }

  /** A growth that does not fit: 16 bytes, to be grown to SIZE_MAX.  The new block has 8 bytes, and right behind them
      lies the header of the next free block. */
  lemma WrappedGrowthOverruns()
    ensures var s := DoMalloc(START, 16).0;
            var (t, q) := DoMalloc(s, SIZE_MAX);
            && IsLive(s, HEADER_SIZE) && BlockOf(s, HEADER_SIZE).size == 16
            && q == HEADER_SIZE + 16 + HEADER_SIZE && IsLive(t, q) && BlockOf(t, q).size == 8
            && |t.blocks| == 3 && t.blocks[2].free && t.blocks[2].addr == q + 8
            && !CopyFits(s, HEADER_SIZE, SIZE_MAX)
  {
    var s, t := DoMalloc(START, 16).0, DoMalloc(DoMalloc(START, 16).0, SIZE_MAX).0;
    assert s.blocks == [Block(0, 16, false), Block(32, HEAP_SIZE - 48, true)];
    assert t.blocks == [s.blocks[0], Block(32, 8, false), Block(56, HEAP_SIZE - 72, true)];
  }

  // ---------------------------------------------------------------- runs

  datatype Call = Malloc(size: word) | Free(p: int) | Realloc(p: int, size: word)

  /** What a caller owes: NULL or a live pointer, and no growth whose copy overruns. */
  predicate Legal(s: State, c: Call) {
    match c
    case Malloc(_) => true
    case Free(p) => p == NULL || IsLive(s, p)
    case Realloc(p, size) => p == NULL || (IsLive(s, p) && CopyFits(s, p, size))
  }

  function Next(s: State, c: Call): State
    requires Legal(s, c)
  {
    match c
    case Malloc(size) => DoMalloc(s, size).0
    case Free(p) => DoFree(s, p)
    case Realloc(p, size) => DoRealloc(s, p, size).0
  }

  predicate LegalRun(s: State, calls: seq<Call>)
    decreases |calls|
  {
    calls == [] || (Legal(s, calls[0]) && LegalRun(Next(s, calls[0]), calls[1..]))
  }

  function Run(s: State, calls: seq<Call>): State
    requires LegalRun(s, calls)
    decreases |calls|
  {
    if calls == [] then s else Run(Next(s, calls[0]), calls[1..])
  }

  /** The call asks realloc for less than a live block holds, but not for nothing. */
  predicate Cuts(s: State, c: Call)
    requires Legal(s, c)
  {
    c.Realloc? && c.p != NULL && 0 < c.size < BlockOf(s, c.p).size
  }

  /** No call of the run does. */
  predicate NeverCuts(s: State, calls: seq<Call>)
    requires LegalRun(s, calls)
    decreases |calls|
  {
    calls == [] || (!Cuts(s, calls[0]) && NeverCuts(Next(s, calls[0]), calls[1..]))
  }

  lemma NextKeeps(s: State, c: Call)
    requires Good(s) && Legal(s, c)
    ensures Good(Next(s, c)) && Next(s, c).lost >= s.lost
    ensures Next(s, c).lost == s.lost <==> !Cuts(s, c)
  {
    match c
    case Malloc(size) => if size > 0 { MallocKeeps(s, size); }
    case Free(p) => if IsLive(s, p) { FreeKeeps(s, p); }
    case Realloc(p, size) =>
      if p == NULL {
        if size > 0 { MallocKeeps(s, size); }
      } else if size == 0 {
        FreeKeeps(s, p);
      } else {
        ReallocKeeps(s, p, size);
      }
  }

  /** Every run keeps the layout, the separation of free blocks and the accounting of all bytes, and bytes are lost in
      it if and only if some call cuts a live block. */
  lemma {:induction false} RunKeeps(s: State, calls: seq<Call>)
    requires Good(s) && LegalRun(s, calls)
    ensures Good(Run(s, calls)) && Run(s, calls).lost >= s.lost
    ensures Run(s, calls).lost == s.lost <==> NeverCuts(s, calls)
    decreases |calls|
  {
    if calls != [] {
      NextKeeps(s, calls[0]);
      RunKeeps(Next(s, calls[0]), calls[1..]);
    }
  }

  /** The blocks cover the arena from its first byte to its last without a gap. */
  ghost predicate Tiles(bs: seq<Block>, low: nat) {
    if bs == [] then low == HEAP_SIZE else bs[0].addr == low && Tiles(bs[1..], bs[0].End())
  }

  lemma {:induction false} FootprintFits(bs: seq<Block>, low: nat)
    requires Laid(bs) && low <= HEAP_SIZE && (bs != [] ==> low <= bs[0].addr)
    ensures Footprint(bs) <= HEAP_SIZE - low
    ensures Footprint(bs) == HEAP_SIZE - low <==> Tiles(bs, low)
    decreases |bs|
  {
    if bs != [] {
      assert bs == [bs[0]] + bs[1..];
      LaidConcat([bs[0]], bs[1..]);
      assert InArena(bs[0]);
      FootprintFits(bs[1..], bs[0].End());
    }
  }

  /** The blocks tile the arena exactly as long as no realloc has cut anything off. */
  lemma TilingExact(s: State)
    requires Good(s)
    ensures Tiles(s.blocks, 0) <==> s.lost == 0
  {
    FootprintFits(s.blocks, 0);
  }

  ghost predicate NothingLive(s: State) {
    forall b :: b in s.blocks ==> b.free
  }

  lemma OneFreeBlock(s: State)
    requires Good(s) && NothingLive(s)
    ensures s.blocks == INITIAL <==> s.lost == 0
  {
    TilingExact(s);
    InitialInv();
    var bs := s.blocks;
    assert forall i :: 0 <= i < |bs| ==> bs[i] in bs;
    assert Apart(bs) && |bs| >= 2 ==> ApartAt(bs, 0);
    TiledTouch(bs);
    if s.lost == 0 {
      assert bs == [bs[0]] && bs[1..] == [];
    }
  }

  lemma TiledTouch(bs: seq<Block>)
    ensures |bs| >= 2 && Tiles(bs, 0) && bs[0].free && bs[1].free ==> !ApartAt(bs, 0)
  {
    assert |bs| >= 2 && Tiles(bs, 0) ==> Tiles(bs[1..], bs[0].End()) && bs[1..][0] == bs[1];
  }

  /** After a run from the start the blocks tile the arena if and only if no call cut a live block. */
  lemma RunTiles(calls: seq<Call>)
    requires LegalRun(START, calls)
    ensures Tiles(Run(START, calls).blocks, 0) <==> NeverCuts(START, calls)
  {
    InitialInv();
    RunKeeps(START, calls);
    TilingExact(Run(START, calls));
  }

  /** A run that leaves nothing live gives back the one initial block if and only if no call cut a live block. */
  lemma EmptiedHeap(calls: seq<Call>)
    requires LegalRun(START, calls) && NothingLive(Run(START, calls))
    ensures Run(START, calls).blocks == INITIAL <==> NeverCuts(START, calls)
  {
    InitialInv();
    RunKeeps(START, calls);
    OneFreeBlock(Run(START, calls));
  }

  lemma {:induction false} WithoutRealloc(s: State, calls: seq<Call>)
    requires LegalRun(s, calls) && forall c :: c in calls ==> !c.Realloc?
    ensures NeverCuts(s, calls)
    decreases |calls|
  {
    if calls != [] { WithoutRealloc(Next(s, calls[0]), calls[1..]); }
  }

  /** After a run of malloc and free alone the blocks tile the arena, and if nothing is live there is one again. */
  lemma MallocFreeRun(calls: seq<Call>)
    requires LegalRun(START, calls) && forall c :: c in calls ==> !c.Realloc?
    ensures Good(Run(START, calls)) && Tiles(Run(START, calls).blocks, 0)
    ensures NothingLive(Run(START, calls)) ==> Run(START, calls) == START
  {
    InitialInv();
    WithoutRealloc(START, calls);
    RunKeeps(START, calls);
    RunTiles(calls);
    if NothingLive(Run(START, calls)) { EmptiedHeap(calls); }
  }

  /** Such a shrink: a block of 16 bytes shrunk to 8 and freed leaves the heap in two pieces for good. */
  lemma ShrinkLosesTail()
    ensures var calls := [Malloc(16), Realloc(HEADER_SIZE, 8), Free(HEADER_SIZE)];
            && LegalRun(START, calls) && NothingLive(Run(START, calls))
            && Run(START, calls).lost == 8 && Run(START, calls).blocks != INITIAL
  {
    var s1, s2 := Next(START, Malloc(16)), State([], 0);
    assert s1.blocks == [Block(0, 16, false), Block(32, HEAP_SIZE - 48, true)];
    s2 := Next(s1, Realloc(HEADER_SIZE, 8));
    assert s2 == State([Block(0, 8, false), Block(32, HEAP_SIZE - 48, true)], 8);
    var s3 := Next(s2, Free(HEADER_SIZE));
    var fs := [Block(0, 8, true), Block(32, HEAP_SIZE - 48, true)];
    assert Coalesce(fs) == [fs[0]] + Coalesce(fs[1..]);
    assert s3 == State(fs, 8);
    var calls := [Malloc(16), Realloc(HEADER_SIZE, 8), Free(HEADER_SIZE)];
    assert calls[1..] == [Realloc(HEADER_SIZE, 8), Free(HEADER_SIZE)];
    assert calls[1..][1..] == [Free(HEADER_SIZE)];
    assert calls[1..][1..][1..] == [];
    assert IsLive(s1, HEADER_SIZE) && Legal(s1, Realloc(HEADER_SIZE, 8)) && IsLive(s2, HEADER_SIZE);
    assert LegalRun(s3, []) && Run(s3, []) == s3;
    assert LegalRun(s2, calls[1..][1..]) && Run(s2, calls[1..][1..]) == s3;
    assert LegalRun(s1, calls[1..]) && Run(s1, calls[1..]) == s3;
  }
}
