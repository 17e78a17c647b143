/**
 * The arena's bytes seen as block headers: which bytes hold which field, how the free list runs
 * through the headers, and what one stored field changes.
 */
module Arena {
  import opened Machine
  import opened Blocks

  datatype Header = Header(size: word, flag: word, next: word)

  // Field offsets in mem_block_t.
  const SIZE: nat := 0
  const FLAG: nat := 4
  const NEXT: nat := 8
  const FIELDS_END: nat := 12

  function HeaderAt(m: seq<byte>, a: nat): Header
    requires a + FIELDS_END <= |m|
  {
    Header(LoadWord(m, a + SIZE), LoadWord(m, a + FLAG), LoadWord(m, a + NEXT))
  }

  function With(h: Header, f: nat, v: word): Header {
    if f == SIZE then h.(size := v) else if f == FLAG then h.(flag := v) else h.(next := v)
  }

  function Addrs(bs: seq<Block>): set<nat> {
    set b | b in bs :: b.addr
  }

  /** Only bytes of the header fields at the addresses `hs` may differ. */
  ghost predicate Frame(m: seq<byte>, m': seq<byte>, hs: set<nat>) {
    |m| == |m'| && forall x :: 0 <= x < |m| && !InHeaders(hs, x) ==> m'[x] == m[x]
  }

  ghost predicate InHeaders(hs: set<nat>, x: int) {
    exists a :: a in hs && a <= x < a + FIELDS_END
  }

  ghost predicate InLivePayload(bs: seq<Block>, x: int) {
    exists i :: 0 <= i < |bs| && !bs[i].free && bs[i].Payload() <= x < bs[i].End()
  }

  /** Every byte of every live payload is the same in both. */
  ghost predicate KeepsLive(m: seq<byte>, m': seq<byte>, bs: seq<Block>) {
    |m| == |m'| && forall x :: 0 <= x < |m| && InLivePayload(bs, x) ==> m'[x] == m[x]
  }

  /** Size and flag words of every block but number `skip` agree with the block. */
  ghost predicate Match(m: seq<byte>, bs: seq<Block>, skip: nat)
    requires |m| == HEAP_SIZE && Laid(bs)
  {
    forall i :: 0 <= i < |bs| && i != skip ==> MatchAt(m, bs[i])
  }

  ghost predicate MatchAt(m: seq<byte>, b: Block)
    requires |m| == HEAP_SIZE && InArena(b)
  {
    var h := HeaderAt(m, b.addr);
    h.size == b.size && h.flag == if b.free then 1 else 0
  }

  // ---------------------------------------------------------------- the free list

  /** Index of the first free block at or after i, |bs| if there is none. */
  function NextFree(bs: seq<Block>, i: nat): (r: nat)
    requires i <= |bs|
    ensures i <= r <= |bs|
    ensures r < |bs| ==> bs[r].free
    ensures forall k :: i <= k < r ==> !bs[k].free
    decreases |bs| - i
  {
    if i == |bs| || bs[i].free then i else NextFree(bs, i + 1)
  }

  function AddrAt(bs: seq<Block>, i: nat): int {
    if i < |bs| then bs[i].addr else NULL
  }

  /** The link words of the blocks' headers. */
  function Links(m: seq<byte>, bs: seq<Block>): (links: seq<int>)
    requires |m| == HEAP_SIZE && Laid(bs)
    ensures |links| == |bs|
  {
    seq(|bs|, i requires 0 <= i < |bs| => HeaderAt(m, bs[i].addr).next)
  }

  /** The list headed by `head` threads the free blocks of bs in address order. */
  ghost predicate Linked(m: seq<byte>, head: int, bs: seq<Block>)
    requires |m| == HEAP_SIZE && Laid(bs)
  {
    Threads(Links(m, bs), head, bs)
  }

  ghost predicate Threads(links: seq<int>, head: int, bs: seq<Block>)
    requires |links| == |bs|
  {
    && head == AddrAt(bs, NextFree(bs, 0))
    && forall i {:trigger links[i]} :: 0 <= i < |bs| && bs[i].free ==> links[i] == AddrAt(bs, NextFree(bs, i + 1))
  }

  lemma LinkOf(m: seq<byte>, head: int, bs: seq<Block>, i: nat)
    requires |m| == HEAP_SIZE && Laid(bs) && i < |bs| && bs[i].free && Linked(m, head, bs)
    ensures bs[i].addr + FIELDS_END <= HEAP_SIZE
    ensures LoadWord(m, bs[i].addr + NEXT) == AddrAt(bs, NextFree(bs, i + 1)) == Links(m, bs)[i]
  {
    assert InArena(bs[i]);
    assert Links(m, bs)[i] == HeaderAt(m, bs[i].addr).next;
  }

  lemma AddrInArena(bs: seq<Block>, i: nat)
    requires Laid(bs)
    ensures AddrAt(bs, i) == NULL <==> i >= |bs|
    ensures i < |bs| ==> AddrAt(bs, i) == bs[i].addr <= HEAP_SIZE - HEADER_SIZE
  {
    assert i < |bs| ==> InArena(bs[i]);
  }

  /** Following `next` from p visits exactly the addresses s and ends at NULL. */
  ghost predicate Walks(m: seq<byte>, p: int, s: seq<nat>)
    decreases s
  {
    if s == [] then p == NULL
    else p == s[0] && s[0] + FIELDS_END <= |m| && Walks(m, HeaderAt(m, s[0]).next, s[1..])
  }

  function FreeAddrs(bs: seq<Block>): seq<nat> {
    if bs == [] then [] else (if bs[0].free then [bs[0].addr] else []) + FreeAddrs(bs[1..])
  }

  lemma {:induction false} FreeListWalks(m: seq<byte>, head: int, bs: seq<Block>, i: nat)
    requires |m| == HEAP_SIZE && Laid(bs) && i <= |bs| && Linked(m, head, bs)
    ensures Walks(m, AddrAt(bs, NextFree(bs, i)), FreeAddrs(bs[i..]))
    decreases |bs| - i
  {
    if i < |bs| {
      FreeListWalks(m, head, bs, i + 1);
      assert bs[i..][1..] == bs[i + 1..];
      if bs[i].free {
        assert Links(m, bs)[i] == HeaderAt(m, bs[i].addr).next;
        assert FreeAddrs(bs[i..])[1..] == FreeAddrs(bs[i + 1..]);
      } else {
        assert FreeAddrs(bs[i..]) == FreeAddrs(bs[i + 1..]);
      }
    }
  }

  lemma FreeAddrsAreFree(bs: seq<Block>, a: nat)
    ensures a in FreeAddrs(bs) <==> exists b :: b in bs && b.free && b.addr == a
  {
    if bs != [] {
      FreeAddrsAreFree(bs[1..], a);
      assert bs == [bs[0]] + bs[1..];
    }
  }

  lemma {:induction false} FreeAddrsAscend(bs: seq<Block>)
    requires Laid(bs)
    ensures forall i, j :: 0 <= i < j < |FreeAddrs(bs)| ==> FreeAddrs(bs)[i] < FreeAddrs(bs)[j]
  {
    if bs != [] {
      assert bs == [bs[0]] + bs[1..];
      LaidConcat([bs[0]], bs[1..]);
      FreeAddrsAscend(bs[1..]);
      var rest := FreeAddrs(bs[1..]);
      forall k | 0 <= k < |rest|
        ensures bs[0].addr < rest[k]
      {
        FreeAddrsAreFree(bs[1..], rest[k]);
        var j :| 0 <= j < |bs[1..]| && bs[1..][j].free && bs[1..][j].addr == rest[k];
        OrderedPair(bs, 0, j + 1);
      }
      if bs[0].free {
        assert FreeAddrs(bs) == [bs[0].addr] + rest;
      }
    }
  }

  // ---------------------------------------------------------------- what one store changes

  lemma HeaderStored(m: seq<byte>, a: nat, f: nat, v: word, b: nat)
    requires f == SIZE || f == FLAG || f == NEXT
    requires a + FIELDS_END <= |m| && b + FIELDS_END <= |m|
    requires a == b || a + FIELDS_END <= b || b + FIELDS_END <= a
    ensures HeaderAt(StoreWord(m, a + f, v), b) == if a == b then With(HeaderAt(m, a), f, v) else HeaderAt(m, b)
  {
    hide LoadWord, StoreWord;
    LoadAfterStore(m, a + f, v, b + SIZE);
    LoadAfterStore(m, a + f, v, b + FLAG);
    LoadAfterStore(m, a + f, v, b + NEXT);
  }

  /** Storing field f of block i's header changes that field and nothing else of any header. */
  lemma FieldStored(m: seq<byte>, bs: seq<Block>, i: nat, f: nat, v: word)
    requires |m| == HEAP_SIZE && Laid(bs) && i < |bs| && (f == SIZE || f == FLAG || f == NEXT)
    ensures var m' := StoreWord(m, bs[i].addr + f, v);
            forall j :: 0 <= j < |bs| ==>
              HeaderAt(m', bs[j].addr) ==
              if j == i then With(HeaderAt(m, bs[i].addr), f, v) else HeaderAt(m, bs[j].addr)
  {
    var a := bs[i].addr;
    forall j | 0 <= j < |bs|
      ensures HeaderAt(StoreWord(m, a + f, v), bs[j].addr)
           == if j == i then With(HeaderAt(m, a), f, v) else HeaderAt(m, bs[j].addr)
    {
      if j < i { OrderedPair(bs, j, i); } else if i < j { OrderedPair(bs, i, j); }
      HeaderStored(m, a, f, v, bs[j].addr);
    }
  }

  lemma LinksStored(m: seq<byte>, bs: seq<Block>, i: nat, f: nat, v: word)
    requires |m| == HEAP_SIZE && Laid(bs) && i < |bs| && (f == SIZE || f == FLAG || f == NEXT)
    ensures Links(StoreWord(m, bs[i].addr + f, v), bs)
         == if f == NEXT then Links(m, bs)[i := v] else Links(m, bs)
  {
    hide LoadWord, StoreWord, Ordered;
    FieldStored(m, bs, i, f, v);
    var m' := StoreWord(m, bs[i].addr + f, v);
    forall j | 0 <= j < |bs|
      ensures Links(m', bs)[j] == if f == NEXT && j == i then v else Links(m, bs)[j]
    {
      assert HeaderAt(m', bs[j].addr).next == Links(m', bs)[j];
    }
  }

  lemma FrameStored(m: seq<byte>, a: nat, f: nat, v: word)
    requires a + FIELDS_END <= |m| && (f == SIZE || f == FLAG || f == NEXT)
    ensures Frame(m, StoreWord(m, a + f, v), {a})
  {
    forall x | 0 <= x < |m| && !InHeaders({a}, x)
      ensures StoreWord(m, a + f, v)[x] == m[x]
    {
      assert a in {a};
    }
  }

  lemma FrameThen(m0: seq<byte>, m1: seq<byte>, m2: seq<byte>, hs: set<nat>, hs1: set<nat>)
    requires Frame(m0, m1, hs) && Frame(m1, m2, hs1) && hs1 <= hs
    ensures Frame(m0, m2, hs)
  {
    forall x | 0 <= x < |m0| && !InHeaders(hs, x)
      ensures m2[x] == m0[x]
    {
      assert !InHeaders(hs1, x);
    }
  }

  /** Headers never overlap a live payload. */
  lemma HeadersOutsidePayloads(bs: seq<Block>, x: int)
    requires Laid(bs) && InLivePayload(bs, x)
    ensures !InHeaders(Addrs(bs), x)
  {
    var i :| 0 <= i < |bs| && !bs[i].free && bs[i].Payload() <= x < bs[i].End();
    forall a | a in Addrs(bs)
      ensures !(a <= x < a + FIELDS_END)
    {
      var j :| 0 <= j < |bs| && bs[j].addr == a;
      if j < i { OrderedPair(bs, j, i); } else if i < j { OrderedPair(bs, i, j); }
    }
  }

  // ---------------------------------------------------------------- list surgery

  /** The last free block before i, if any. */
  ghost predicate IsPrev(bs: seq<Block>, i: nat, p: int) {
    && -1 <= p < i <= |bs|
    && (p >= 0 ==> bs[p].free)
    && forall k :: p < k < i ==> !bs[k].free
  }

  /** A walk down the list stands at free block i (or past the end), having come from p (or the head). */
  ghost predicate Cursor(bs: seq<Block>, i: nat, p: int, prev: int, cur: int) {
    && IsPrev(bs, i, p) && (i < |bs| ==> bs[i].free)
    && cur == AddrAt(bs, i) && (cur == NULL <==> i == |bs|)
    && prev == AddrAt(bs, if p < 0 then |bs| else p) && (prev == NULL <==> p < 0)
  }

  lemma CursorStarts(bs: seq<Block>)
    requires Laid(bs)
    ensures Cursor(bs, NextFree(bs, 0), -1, NULL, AddrAt(bs, NextFree(bs, 0)))
  {
    AddrInArena(bs, NextFree(bs, 0));
  }

  lemma CursorMoves(bs: seq<Block>, i: nat, p: int, prev: int, cur: int)
    requires Laid(bs) && Cursor(bs, i, p, prev, cur) && i < |bs|
    ensures Cursor(bs, NextFree(bs, i + 1), i, cur, AddrAt(bs, NextFree(bs, i + 1)))
  {
    AddrInArena(bs, NextFree(bs, i + 1));
  }

  /** What a cursor that is not at the end tells about its node. */
  lemma AtNode(m: seq<byte>, head: int, bs: seq<Block>, i: nat, p: int, prev: int, cur: int)
    requires |m| == HEAP_SIZE && Laid(bs) && Linked(m, head, bs)
    requires Cursor(bs, i, p, prev, cur) && cur != NULL
    ensures i < |bs| && bs[i].free && cur == bs[i].addr && cur + FIELDS_END <= HEAP_SIZE
    ensures LoadWord(m, cur + NEXT) == AddrAt(bs, NextFree(bs, i + 1))
    ensures p < i
  {
    LinkOf(m, head, bs, i);
  }

  lemma AddrOrder(bs: seq<Block>, q: nat, i: nat)
    requires Laid(bs) && q < |bs| && i < |bs|
    ensures bs[q].addr < bs[i].addr <==> q < i
    ensures bs[i].addr + FIELDS_END <= HEAP_SIZE
  {
    assert InArena(bs[i]);
    if q < i { OrderedPair(bs, q, i); } else if i < q { OrderedPair(bs, i, q); }
  }

  /** A cursor that has passed all listed addresses below block i stands where i belongs. */
  lemma CursorStops(bs: seq<Block>, q: nat, p: int, prev: int, pos: int, i: nat)
    requires Laid(bs) && Cursor(bs, q, p, prev, pos) && p < i < |bs| && !bs[i].free
    requires pos == NULL || pos >= bs[i].addr
    ensures IsPrev(bs, i, p) && (prev == NULL <==> p < 0) && (p >= 0 ==> prev == bs[p].addr)
    ensures pos == AddrAt(bs, NextFree(bs, i))
  {
    if q < |bs| { AddrOrder(bs, q, i); }
    NextFreeIs(bs, i, q);
  }

  lemma HeadOf(m: seq<byte>, head: int, bs: seq<Block>)
    requires |m| == HEAP_SIZE && Laid(bs) && Linked(m, head, bs)
    ensures head == AddrAt(bs, NextFree(bs, 0))
  {
  }

  lemma MatchOf(m: seq<byte>, bs: seq<Block>, i: nat)
    requires |m| == HEAP_SIZE && Laid(bs) && i < |bs| && Match(m, bs, |bs|)
    ensures bs[i].addr + FIELDS_END <= HEAP_SIZE
    ensures LoadWord(m, bs[i].addr + SIZE) == bs[i].size
    ensures LoadWord(m, bs[i].addr + FLAG) == if bs[i].free then 1 else 0
  {
    assert MatchAt(m, bs[i]);
  }

  lemma CursorEnd(bs: seq<Block>, i: nat, p: int, prev: int, cur: int)
    requires Cursor(bs, i, p, prev, cur)
    ensures cur == NULL <==> i == |bs|
    ensures i < |bs| ==> bs[i].free && cur == bs[i].addr
    ensures IsPrev(bs, i, p) && (prev == NULL <==> p < 0) && (p >= 0 ==> prev == bs[p].addr)
  {
  }

  lemma NoneFitsYet(bs: seq<Block>, i: nat, j: nat, need: nat)
    requires i <= j <= |bs| && NoneFits(bs, i, need)
    requires i < j && bs[i].free ==> bs[i].size < need
    requires forall k :: i < k < j ==> !bs[k].free
    ensures NoneFits(bs, j, need)
  {
  }

  lemma NextFreeIs(bs: seq<Block>, i: nat, r: nat)
    requires i <= r <= |bs| && (r < |bs| ==> bs[r].free) && forall k :: i <= k < r ==> !bs[k].free
    ensures NextFree(bs, i) == r
  {
  }

  ghost predicate SameButFlag(bs: seq<Block>, cs: seq<Block>, i: nat) {
    && i < |bs| == |cs|
    && (forall k :: 0 <= k < |bs| && k != i ==> cs[k] == bs[k])
    && cs[i] == bs[i].(free := !bs[i].free)
  }

  lemma FlagLaid(bs: seq<Block>, cs: seq<Block>, i: nat)
    requires Laid(bs) && SameButFlag(bs, cs, i)
    ensures Laid(cs)
  {
    SameExtents(bs, cs);
  }

  lemma SameAddrs(bs: seq<Block>, cs: seq<Block>)
    requires |bs| == |cs| && forall j :: 0 <= j < |bs| ==> bs[j].addr == cs[j].addr
    ensures Addrs(bs) == Addrs(cs)
  {
    assert forall a :: a in Addrs(bs) ==> exists j :: 0 <= j < |bs| && cs[j].addr == a;
    assert forall a :: a in Addrs(cs) ==> exists j :: 0 <= j < |cs| && bs[j].addr == a;
  }

  lemma FlagLinks(m: seq<byte>, bs: seq<Block>, cs: seq<Block>, i: nat)
    requires |m| == HEAP_SIZE && Laid(bs) && Laid(cs) && SameButFlag(bs, cs, i)
    ensures Links(m, cs) == Links(m, bs)
  {
  }

  /** Size and flag words of the headers of bs are the same in both. */
  ghost predicate OnlyLinks(m: seq<byte>, m': seq<byte>, bs: seq<Block>)
    requires |m| == |m'| == HEAP_SIZE && Laid(bs)
  {
    forall j :: 0 <= j < |bs| ==> SameSizeAndFlag(m, m', bs[j].addr)
  }

  ghost predicate SameSizeAndFlag(m: seq<byte>, m': seq<byte>, a: nat)
    requires |m| == |m'| && a + FIELDS_END <= |m|
  {
    LoadWord(m', a + SIZE) == LoadWord(m, a + SIZE) && LoadWord(m', a + FLAG) == LoadWord(m, a + FLAG)
  }

  lemma OnlyLinksThen(m0: seq<byte>, m1: seq<byte>, m2: seq<byte>, bs: seq<Block>)
    requires |m0| == |m1| == |m2| == HEAP_SIZE && Laid(bs) && OnlyLinks(m0, m1, bs) && OnlyLinks(m1, m2, bs)
    ensures OnlyLinks(m0, m2, bs)
  {
    forall j | 0 <= j < |bs|
      ensures SameSizeAndFlag(m0, m2, bs[j].addr)
    {
      assert SameSizeAndFlag(m0, m1, bs[j].addr) && SameSizeAndFlag(m1, m2, bs[j].addr);
    }
  }

  lemma OnlyLinksNone(m: seq<byte>, bs: seq<Block>)
    requires |m| == HEAP_SIZE && Laid(bs)
    ensures OnlyLinks(m, m, bs)
  {
  }

  /** A store into one block's header, or no store at all, stays within the headers of bs. */
  lemma FrameWider(m: seq<byte>, m': seq<byte>, bs: seq<Block>, i: int)
    requires i < |bs|
    requires if i < 0 then m == m' else Frame(m, m', {bs[i].addr})
    ensures Frame(m, m', Addrs(bs))
  {
    if i >= 0 {
      assert bs[i].addr in Addrs(bs);
      FrameThen(m, m, m', Addrs(bs), {bs[i].addr});
    }
  }

  lemma MatchAfterLinks(m: seq<byte>, m': seq<byte>, bs: seq<Block>, cs: seq<Block>, skip: nat)
    requires |m| == |m'| == HEAP_SIZE && Laid(bs) && Laid(cs) && OnlyLinks(m, m', bs) && Match(m, cs, skip)
    requires |bs| == |cs| && forall j :: 0 <= j < |bs| ==> bs[j].addr == cs[j].addr
    ensures Match(m', cs, skip)
    ensures forall j :: 0 <= j < |bs| ==> SameSizeAndFlag(m, m', bs[j].addr)
  {
    forall j | 0 <= j < |bs| && j != skip
      ensures MatchAt(m', cs[j])
    {
      assert MatchAt(m, cs[j]) && SameSizeAndFlag(m, m', bs[j].addr);
    }
  }

  /** A store into block i's own header leaves the other headers matching. */
  lemma MatchAfterStore(m: seq<byte>, m': seq<byte>, bs: seq<Block>, i: nat)
    requires |m| == |m'| == HEAP_SIZE && Laid(bs) && Match(m, bs, i)
    requires forall j :: 0 <= j < |bs| && j != i ==> HeaderAt(m', bs[j].addr) == HeaderAt(m, bs[j].addr)
    ensures Match(m', bs, i)
    ensures i < |bs| && MatchAt(m', bs[i]) ==> Match(m', bs, |bs|)
  {
    forall j | 0 <= j < |bs| && j != i
      ensures MatchAt(m', bs[j])
    {
      assert MatchAt(m, bs[j]);
    }
  }

  lemma NextFreeWithout(bs: seq<Block>, cs: seq<Block>, i: nat, j: nat)
    requires SameButFlag(bs, cs, i) && bs[i].free && j <= |bs|
    ensures NextFree(cs, j) == if NextFree(bs, j) == i then NextFree(bs, i + 1) else NextFree(bs, j)
  {
    NextFreeIs(cs, j, if NextFree(bs, j) == i then NextFree(bs, i + 1) else NextFree(bs, j));
  }

  lemma NextFreeWith(bs: seq<Block>, cs: seq<Block>, i: nat, j: nat)
    requires SameButFlag(bs, cs, i) && !bs[i].free && j <= |bs|
    ensures NextFree(cs, j) == if j <= i < NextFree(bs, j) then i else NextFree(bs, j)
  {
    NextFreeIs(cs, j, if j <= i < NextFree(bs, j) then i else NextFree(bs, j));
  }

  /** Taking block i out of the list: its predecessor's link (or the head) now skips it. */
  lemma Unlinked(links: seq<int>, head: int, bs: seq<Block>, i: nat, p: int,
                 links': seq<int>, head': int, cs: seq<Block>)
    requires |links| == |links'| == |bs| && Threads(links, head, bs)
    requires i < |bs| && bs[i].free && IsPrev(bs, i, p) && SameButFlag(bs, cs, i)
    requires if p < 0 then head' == links[i] && links' == links
             else head' == head && links' == links[p := links[i]]
    ensures Threads(links', head', cs)
  {
    hide NextFree;
    forall j | 0 <= j < |cs| && cs[j].free
      ensures links'[j] == AddrAt(cs, NextFree(cs, j + 1))
    {
      NextFreeWithout(bs, cs, i, j + 1);
      NextFreeSkips(bs, i, p, j + 1);
    }
    NextFreeWithout(bs, cs, i, 0);
    NextFreeSkips(bs, i, p, 0);
  }

  /** Of the free blocks, only the predecessor of i has i as the next free one. */
  lemma NextFreeSkips(bs: seq<Block>, i: nat, p: int, j: nat)
    requires i < |bs| && bs[i].free && IsPrev(bs, i, p) && j <= |bs| && (j == 0 || (bs[j - 1].free && j - 1 != i))
    ensures NextFree(bs, j) == i <==> j == p + 1
  {
    if j == p + 1 { NextFreeIs(bs, j, i); }
  }

  /** Putting block i into the list between its predecessor and the next free block. */
  lemma Inserted(links: seq<int>, head: int, bs: seq<Block>, i: nat, p: int,
                 links': seq<int>, head': int, cs: seq<Block>)
    requires |links| == |links'| == |bs| && Threads(links, head, bs)
    requires i < |bs| && !bs[i].free && IsPrev(bs, i, p) && SameButFlag(bs, cs, i)
    requires var ls := links[i := AddrAt(bs, NextFree(bs, i))];
             if p < 0 then head' == bs[i].addr && links' == ls
             else head' == head && links' == ls[p := bs[i].addr]
    ensures Threads(links', head', cs)
  {
    forall j | 0 <= j < |cs| && cs[j].free
      ensures links'[j] == AddrAt(cs, NextFree(cs, j + 1))
    {
      NextFreeInserted(bs, cs, i, p, j);
    }
    NextFreeWith(bs, cs, i, 0);
    if p >= 0 { assert NextFree(bs, 0) <= p; } else { assert NextFree(bs, 0) > i; }
  }

  /** Only the predecessor's successor changes, and it becomes i. */
  lemma NextFreeInserted(bs: seq<Block>, cs: seq<Block>, i: nat, p: int, j: nat)
    requires SameButFlag(bs, cs, i) && !bs[i].free && IsPrev(bs, i, p) && j < |bs| && cs[j].free
    ensures NextFree(cs, j + 1) == if j == p then i else if j == i then NextFree(bs, i) else NextFree(bs, j + 1)
  {
    NextFreeWith(bs, cs, i, j + 1);
    if j == p {
      assert NextFree(bs, p + 1) > i;
    } else if j < i {
      assert NextFree(bs, j + 1) <= p;
    } else if j == i {
      NextFreeIs(bs, i, NextFree(bs, i + 1));
    }
  }

  // ---------------------------------------------------------------- splitting a block

  /** Block i of bs has become the blocks i and i+1 of ds, none of the three listed. */
  ghost predicate IsSplit(bs: seq<Block>, ds: seq<Block>, i: nat) {
    && i < |bs| && |ds| == |bs| + 1
    && (forall k :: 0 <= k < i ==> ds[k] == bs[k])
    && (forall k :: i + 1 < k < |ds| ==> ds[k] == bs[k - 1])
    && ds[i].addr == bs[i].addr && !bs[i].free && !ds[i].free && !ds[i + 1].free
  }

  lemma SplitThreads(links: seq<int>, head: int, bs: seq<Block>, links': seq<int>, ds: seq<Block>, i: nat)
    requires IsSplit(bs, ds, i) && |links| == |bs| && |links'| == |ds| && Threads(links, head, bs)
    requires forall k :: 0 <= k < |ds| && k != i && k != i + 1 ==> links'[k] == links[Unsplit(i, k)]
    ensures Threads(links', head, ds)
  {
    hide NextFree, AddrAt;
    SplitNextFree(bs, ds, i, 0);
    forall j | 0 <= j < |ds| && ds[j].free
      ensures links'[j] == AddrAt(ds, NextFree(ds, j + 1))
    {
      SplitNextFree(bs, ds, i, j + 1);
      assert bs[Unsplit(i, j)].free;
    }
  }

  function Unsplit(i: nat, k: nat): nat {
    if k <= i then k else k - 1
  }

  lemma SplitNextFree(bs: seq<Block>, ds: seq<Block>, i: nat, j: nat)
    requires IsSplit(bs, ds, i) && j <= |ds|
    ensures AddrAt(ds, NextFree(ds, j)) == AddrAt(bs, NextFree(bs, Unsplit(i, j)))
  {
    var r := NextFree(bs, Unsplit(i, j));
    NextFreeIs(ds, j, if r <= i then r else r + 1);
  }

  lemma SplitReflects(m: seq<byte>, m': seq<byte>, head: int, bs: seq<Block>, ds: seq<Block>, cs: seq<Block>, i: nat)
    requires |m| == |m'| == HEAP_SIZE && Laid(bs) && Laid(ds) && Laid(cs)
    requires IsSplit(bs, ds, i) && SameButFlag(ds, cs, i + 1)
    requires Linked(m, head, bs) && Match(m, bs, i)
    requires forall j :: 0 <= j < |ds| && j != i + 1 ==> HeaderAt(m', ds[j].addr) == HeaderAt(m, ds[j].addr)
    requires MatchAt(m', cs[i + 1])
    ensures Linked(m', head, ds) && Match(m', cs, i)
  {
    hide Ordered, Threads, NextFree, LoadWord;
    var links, links' := Links(m, bs), Links(m', ds);
    forall k | 0 <= k < |ds| && k != i && k != i + 1
      ensures links'[k] == links[Unsplit(i, k)] && MatchAt(m', cs[k])
    {
      var b := Unsplit(i, k);
      assert ds[k] == bs[b] == cs[k] && MatchAt(m, bs[b]);
      assert HeaderAt(m', ds[k].addr) == HeaderAt(m, ds[k].addr);
    }
    SplitThreads(links, head, bs, links', ds, i);
  }

  lemma LinkedAfterStore(m: seq<byte>, m': seq<byte>, head: int, bs: seq<Block>)
    requires |m| == |m'| == HEAP_SIZE && Laid(bs) && Linked(m, head, bs) && Links(m, bs) == Links(m', bs)
    ensures Linked(m', head, bs)
  {
  }

  /** Links of unlisted blocks do not matter. */
  lemma UnlistedLink(links: seq<int>, head: int, bs: seq<Block>, i: nat, v: int)
    requires |links| == |bs| && Threads(links, head, bs) && i < |bs| && !bs[i].free
    ensures Threads(links[i := v], head, bs)
  {
  }

  // ---------------------------------------------------------------- merging two blocks

  /** Blocks c and c+1 of bs, both listed, have become block c of ds. */
  ghost predicate IsMerge(bs: seq<Block>, ds: seq<Block>, c: nat) {
    && c + 1 < |bs| && |ds| == |bs| - 1 && Touching(bs[c], bs[c + 1]) && ds[c] == Merge(bs[c], bs[c + 1])
    && (forall k :: 0 <= k < c ==> ds[k] == bs[k])
    && (forall k :: c < k < |ds| ==> ds[k] == bs[k + 1])
  }

  function Merged(bs: seq<Block>, c: nat): (ds: seq<Block>)
    requires c + 1 < |bs| && Touching(bs[c], bs[c + 1])
  {
    bs[..c] + [Merge(bs[c], bs[c + 1])] + bs[c + 2..]
  }

  function Unmerged(c: nat, k: nat): nat {
    if k <= c then k else k + 1
  }

  lemma MergeNextFree(bs: seq<Block>, ds: seq<Block>, c: nat, j: nat)
    requires IsMerge(bs, ds, c) && j <= |ds|
    ensures AddrAt(ds, NextFree(ds, j)) == AddrAt(bs, NextFree(bs, Unmerged(c, j)))
  {
    var r := NextFree(bs, Unmerged(c, j));
    assert j <= c ==> r <= c;
    NextFreeIs(ds, j, if r <= c then r else r - 1);
  }

  lemma MergeThreads(links: seq<int>, head: int, bs: seq<Block>, links': seq<int>, ds: seq<Block>, c: nat)
    requires IsMerge(bs, ds, c) && |links| == |bs| && |links'| == |ds| && Threads(links, head, bs)
    requires forall k :: 0 <= k < |ds| ==> links'[k] == links[if k == c then c + 1 else Unmerged(c, k)]
    ensures Threads(links', head, ds)
  {
    hide NextFree, AddrAt;
    MergeNextFree(bs, ds, c, 0);
    forall j | 0 <= j < |ds| && ds[j].free
      ensures links'[j] == AddrAt(ds, NextFree(ds, j + 1))
    {
      MergeNextFree(bs, ds, c, j + 1);
      assert bs[Unmerged(c, j)].free;
    }
  }

  lemma MergeReflects(m: seq<byte>, m': seq<byte>, head: int, bs: seq<Block>, ds: seq<Block>, c: nat)
    requires |m| == |m'| == HEAP_SIZE && Laid(bs) && Laid(ds) && IsMerge(bs, ds, c)
    requires Linked(m, head, bs) && Match(m, bs, |bs|)
    requires forall j :: 0 <= j < |bs| && j != c ==> HeaderAt(m', bs[j].addr) == HeaderAt(m, bs[j].addr)
    requires HeaderAt(m', bs[c].addr) == Header(ds[c].size, 1, HeaderAt(m, bs[c + 1].addr).next)
    ensures Linked(m', head, ds) && Match(m', ds, |ds|)
  {
    var links, links' := Links(m, bs), Links(m', ds);
    forall k | 0 <= k < |ds|
      ensures links'[k] == links[if k == c then c + 1 else Unmerged(c, k)] && MatchAt(m', ds[k])
    {
      var b := Unmerged(c, k);
      assert ds[k].addr == bs[b].addr && MatchAt(m, bs[b]);
    }
    MergeThreads(links, head, bs, links', ds, c);
  }

  lemma MergedKeeps(bs: seq<Block>, c: nat)
    requires Laid(bs) && c + 1 < |bs| && Touching(bs[c], bs[c + 1])
    ensures var ds := Merged(bs, c);
            && Laid(ds) && IsMerge(bs, ds, c) && Addrs(ds) <= Addrs(bs)
            && ds[..c] == bs[..c] && Coalesce(ds[c..]) == Coalesce(bs[c..])
  {
    hide Ordered;
    var ds := Merged(bs, c);
    var a, b := bs[..c], bs[c..];
    assert bs == a + b;
    LaidConcat(a, b);
    MergeKeeps(b);
    var ms := [Merge(b[0], b[1])] + b[2..];
    assert ds == a + ms;
    LaidConcat(a, ms);
    assert ds[c..] == ms;
    MergedAddrs(bs, ds, c);
  }

  lemma MergedAddrs(bs: seq<Block>, ds: seq<Block>, c: nat)
    requires IsMerge(bs, ds, c)
    ensures Addrs(ds) <= Addrs(bs)
  {
    forall x | x in Addrs(ds)
      ensures x in Addrs(bs)
    {
      var k :| 0 <= k < |ds| && ds[k].addr == x;
      assert bs[Unmerged(c, k)].addr == x;
    }
  }

  /** The pass leaves a stretch alone whose blocks touch no free successor. */
  lemma {:induction false} CoalesceSkips(bs: seq<Block>, k: nat, n: nat)
    requires k <= n <= |bs|
    requires forall t :: k <= t < n ==> ApartAt(bs, t)
    ensures Coalesce(bs[k..]) == bs[k..n] + Coalesce(bs[n..])
    decreases n - k
  {
    if k < n {
      CoalesceSkips(bs, k + 1, n);
      assert bs[k..][1..] == bs[k + 1..];
      assert bs[k..n] == [bs[k]] + bs[k + 1..n];
      assert ApartAt(bs, k);
    }
  }

  /** The next free block is touched only if it is the next block. */
  lemma TouchIsNext(bs: seq<Block>, c: nat, n: nat)
    requires Laid(bs) && c < n <= |bs| && n == NextFree(bs, c + 1) && bs[c].free
    ensures if n < |bs| && bs[c].End() == bs[n].addr then n == c + 1 && Touching(bs[c], bs[c + 1])
            else forall t :: c <= t < n ==> ApartAt(bs, t)
  {
    if n < |bs| && c + 1 < n {
      OrderedPair(bs, c, c + 1);
      OrderedPair(bs, c + 1, n);
    }
  }

  ghost predicate SameFlags(m: seq<byte>, m': seq<byte>, bs: seq<Block>)
    requires |m| == |m'| == HEAP_SIZE && Laid(bs)
  {
    forall j :: 0 <= j < |bs| ==> SameFlagAt(m, m', bs[j].addr)
  }

  ghost predicate SameFlagAt(m: seq<byte>, m': seq<byte>, a: nat)
    requires |m| == |m'| && a + FIELDS_END <= |m|
  {
    LoadWord(m', a + FLAG) == LoadWord(m, a + FLAG)
  }

  lemma FlagsAfter(m: seq<byte>, m': seq<byte>, bs: seq<Block>, a: nat)
    requires |m| == |m'| == HEAP_SIZE && Laid(bs) && a in Addrs(bs)
    requires Frame(m, m', {a}) && a + FIELDS_END <= HEAP_SIZE && SameFlagAt(m, m', a)
    ensures SameFlags(m, m', bs)
  {
    var k :| 0 <= k < |bs| && bs[k].addr == a;
    forall j | 0 <= j < |bs|
      ensures SameFlagAt(m, m', bs[j].addr)
    {
      if j < k { OrderedPair(bs, j, k); } else if k < j { OrderedPair(bs, k, j); }
      if j != k {
        assert forall x :: bs[j].addr <= x < bs[j].addr + FIELDS_END ==> !InHeaders({a}, x);
      }
    }
  }

  lemma SameFlagsThen(m0: seq<byte>, m1: seq<byte>, m2: seq<byte>, bs: seq<Block>)
    requires |m0| == |m1| == |m2| == HEAP_SIZE && Laid(bs) && SameFlags(m0, m1, bs) && SameFlags(m1, m2, bs)
    ensures SameFlags(m0, m2, bs)
  {
    forall j | 0 <= j < |bs|
      ensures SameFlagAt(m0, m2, bs[j].addr)
    {
      assert SameFlagAt(m0, m1, bs[j].addr) && SameFlagAt(m1, m2, bs[j].addr);
    }
  }

  // ---------------------------------------------------------------- payloads are out of reach

  lemma MatchUnlisted(m: seq<byte>, m': seq<byte>, bs: seq<Block>, us: seq<Block>, i: nat)
    requires |m| == |m'| == HEAP_SIZE && Laid(bs) && Laid(us) && SameButFlag(bs, us, i)
    requires Match(m, bs, |bs|) && OnlyLinks(m, m', bs)
    ensures Match(m', us, i)
    ensures LoadWord(m', bs[i].addr + SIZE) == bs[i].size
  {
    forall j | 0 <= j < |bs|
      ensures SameSizeAndFlag(m, m', bs[j].addr) && MatchAt(m, bs[j])
    {
    }
  }

  /** The three stages of carving write headers only, and none lies in a payload that was live. */
  lemma CarveFrames(m: seq<byte>, m1: seq<byte>, m2: seq<byte>, m3: seq<byte>, bs: seq<Block>, i: nat, need: nat)
    requires |m| == |m1| == |m2| == |m3| == HEAP_SIZE && Laid(bs)
    requires i < |bs| && bs[i].free && need <= bs[i].size
    requires var cs := Addrs(Carve(bs, i, need));
             Frame(m, m1, Addrs(bs)) && (m1 == m2 || Frame(m1, m2, cs)) && Frame(m2, m3, cs)
    ensures KeepsLive(m, m3, bs)
  {
    forall x | 0 <= x < |m| && InLivePayload(bs, x)
      ensures m3[x] == m[x]
    {
      HeadersOutsidePayloads(bs, x);
      CarvedHeaders(bs, i, need, x);
    }
  }

  lemma CarvedHeaders(bs: seq<Block>, i: nat, need: nat, x: int)
    requires Laid(bs) && i < |bs| && bs[i].free && need <= bs[i].size && InLivePayload(bs, x)
    ensures !InHeaders(Addrs(Carve(bs, i, need)), x)
  {
    var cs := Carve(bs, i, need);
    HeadersOutsidePayloads(bs, x);
    var j :| 0 <= j < |bs| && !bs[j].free && bs[j].Payload() <= x < bs[j].End();
    forall a | a in Addrs(cs)
      ensures !(a <= x < a + FIELDS_END)
    {
      var k :| 0 <= k < |cs| && cs[k].addr == a;
      if |cs| == |bs| || k <= i {
        assert bs[k].addr == a && a in Addrs(bs);
      } else if k > i + 1 {
        assert bs[k - 1].addr == a && a in Addrs(bs);
      } else {
        if i < j { OrderedPair(bs, i, j); } else { OrderedPair(bs, j, i); }
      }
    }
  }

  // ---------------------------------------------------------------- the coalescing pass

  /** The pass has settled the blocks before c; what remains to be done of the whole is to do the rest. */
  ghost predicate Settled(fs: seq<Block>, cs: seq<Block>, c: nat) {
    c <= |cs| && (c < |cs| ==> cs[c].free) && Addrs(cs) <= Addrs(fs) && Coalesce(fs) == cs[..c] + Coalesce(cs[c..])
  }

  lemma SettledStart(fs: seq<Block>)
    ensures Settled(fs, fs, NextFree(fs, 0))
  {
    assert fs[0..] == fs;
    CoalesceSkips(fs, 0, NextFree(fs, 0));
    assert fs[0..NextFree(fs, 0)] == fs[..NextFree(fs, 0)];
  }

  lemma SettledMerge(fs: seq<Block>, cs: seq<Block>, c: nat)
    requires Laid(cs) && Settled(fs, cs, c) && c + 1 < |cs| && Touching(cs[c], cs[c + 1])
    ensures Settled(fs, Merged(cs, c), c)
  {
    MergedKeeps(cs, c);
  }

  lemma SettledStep(fs: seq<Block>, cs: seq<Block>, c: nat, n: nat)
    requires Laid(cs) && Settled(fs, cs, c) && c < n <= |cs| && n == NextFree(cs, c + 1)
    requires n == |cs| || cs[c].End() != cs[n].addr
    ensures Settled(fs, cs, n)
    ensures n == |cs| ==> Coalesce(fs) == cs
  {
    hide Coalesce, Ordered, Addrs;
    TouchIsNext(cs, c, n);
    CoalesceSkips(cs, c, n);
    assert cs[..n] == cs[..c] + cs[c..n];
    if n == |cs| { assert cs[..n] == cs && cs[n..] == []; NothingToCoalesce(cs[n..]); }
  }

  lemma NothingToCoalesce(bs: seq<Block>)
    requires bs == []
    ensures Coalesce(bs) == []
  {
  }

  lemma SettledNone(fs: seq<Block>, c: nat)
    requires Laid(fs) && c == NextFree(fs, 0)
    ensures c == |fs| ==> Coalesce(fs) == fs
    ensures c < |fs| ==> fs[c].addr + FIELDS_END <= HEAP_SIZE
  {
    if c == |fs| {
      CoalesceSkips(fs, 0, c);
      assert fs[0..] == fs && fs[0..c] == fs && fs[c..] == [];
    } else {
      assert InArena(fs[c]);
    }
  }

  lemma Untouched(m: seq<byte>, bs: seq<Block>)
    requires |m| == HEAP_SIZE && Laid(bs)
    ensures Frame(m, m, Addrs(bs)) && SameFlags(m, m, bs)
  {
  }

  lemma SettledAddr(fs: seq<Block>, cs: seq<Block>, c: nat)
    requires Laid(cs) && Settled(fs, cs, c) && c < |cs|
    ensures cs[c].addr in Addrs(fs) && cs[c].addr + FIELDS_END <= HEAP_SIZE
  {
    assert cs[c].addr in Addrs(cs) && InArena(cs[c]);
  }

  lemma MergedShape(cs: seq<Block>, c: nat)
    requires c + 1 < |cs| && Touching(cs[c], cs[c + 1])
    ensures var ds := Merged(cs, c); |ds| == |cs| - 1 && ds[c].addr == cs[c].addr && ds[c].free
  {
  }

  /** Bytes outside every header do not matter for what the arena represents. */
  lemma PayloadWritten(m: seq<byte>, m': seq<byte>, head: int, bs: seq<Block>)
    requires |m| == |m'| == HEAP_SIZE && Laid(bs) && Match(m, bs, |bs|) && Linked(m, head, bs)
    requires forall x :: 0 <= x < HEAP_SIZE && InHeaders(Addrs(bs), x) ==> m'[x] == m[x]
    ensures Match(m', bs, |bs|) && Linked(m', head, bs)
  {
    forall j | 0 <= j < |bs|
      ensures HeaderAt(m', bs[j].addr) == HeaderAt(m, bs[j].addr)
    {
      assert bs[j].addr in Addrs(bs) && InArena(bs[j]);
      SameHeader(m, m', Addrs(bs), bs[j].addr);
    }
    HeadersDecide(m, m', head, bs);
  }

  lemma SameHeader(m: seq<byte>, m': seq<byte>, hs: set<nat>, a: nat)
    requires |m| == |m'| && a in hs && a + FIELDS_END <= |m|
    requires forall x :: 0 <= x < |m| && InHeaders(hs, x) ==> m'[x] == m[x]
    ensures HeaderAt(m', a) == HeaderAt(m, a)
  {
    assert forall x :: a <= x < a + FIELDS_END ==> InHeaders(hs, x);
  }

  lemma HeadersDecide(m: seq<byte>, m': seq<byte>, head: int, bs: seq<Block>)
    requires |m| == |m'| == HEAP_SIZE && Laid(bs) && Match(m, bs, |bs|) && Linked(m, head, bs)
    requires forall j :: 0 <= j < |bs| ==> HeaderAt(m', bs[j].addr) == HeaderAt(m, bs[j].addr)
    ensures Match(m', bs, |bs|) && Linked(m', head, bs)
  {
    hide LoadWord, Ordered, Threads;
    forall j | 0 <= j < |bs|
      ensures MatchAt(m', bs[j])
    {
      assert MatchAt(m, bs[j]);
    }
    assert Links(m', bs) == Links(m, bs);
  }

  /** A pass of header stores leaves the live payloads of bs alone. */
  lemma FramedPayloads(m: seq<byte>, m': seq<byte>, bs: seq<Block>)
    requires |m| == |m'| == HEAP_SIZE && Laid(bs) && Frame(m, m', Addrs(bs))
    ensures KeepsLive(m, m', bs)
  {
    forall x | 0 <= x < |m| && InLivePayload(bs, x)
      ensures m'[x] == m[x]
    {
      HeadersOutsidePayloads(bs, x);
    }
  }
}
