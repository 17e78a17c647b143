/**
 * src/allocator.c over one byte arena: headers are four-byte fields inside the same bytes as the
 * payloads.  Every call is proved to do to the block sequence what Blocks says it does.
 */
module Allocator {
  import opened Machine
  import opened Blocks
  import opened Options
  import opened Arena
  import opened HeapRuns

  class Heap {
    const mem: array<byte>
    var freeListHead: word
    var initialized: bool
    ghost var blocks: seq<Block>
    ghost var lost: nat

    ghost predicate Valid()
      reads this, mem
    {
      && mem.Length == HEAP_SIZE
      && Inv(blocks, lost)
      && if initialized then Reflects(blocks) else blocks == INITIAL && lost == 0
    }

    /** The bytes and the list head represent bs. */
    ghost predicate Reflects(bs: seq<Block>)
      requires mem.Length == HEAP_SIZE && Laid(bs)
      reads this, mem
    {
      Match(mem[..], bs, |bs|) && Linked(mem[..], freeListHead, bs)
    }

    ghost function Abstract(): State
      reads this
    {
      State(blocks, lost)
    }

    /** The static arena before its first use. */
    constructor ()
      ensures Valid() && !initialized && fresh(mem)
    {
      mem := new byte[HEAP_SIZE];
      initialized, freeListHead := false, NULL;
      blocks, lost := INITIAL, 0;
      new;
      InitialInv();
    }

    function Field(a: nat, f: nat): word
      requires a + f + 4 <= mem.Length
      reads mem
    {
      LoadWord(mem[..], a + f)
    }

    method SetField(a: nat, f: nat, v: word, ghost bs: seq<Block>, ghost i: nat)
      requires mem.Length == HEAP_SIZE && Laid(bs) && i < |bs| && a == bs[i].addr
      requires f == SIZE || f == FLAG || f == NEXT
      modifies mem
      ensures forall j :: 0 <= j < |bs| ==>
                HeaderAt(mem[..], bs[j].addr) ==
                if j == i then With(HeaderAt(old(mem[..]), a), f, v) else HeaderAt(old(mem[..]), bs[j].addr)
      ensures f == NEXT ==> OnlyLinks(old(mem[..]), mem[..], bs)
      ensures Links(mem[..], bs) == if f == NEXT then Links(old(mem[..]), bs)[i := v] else Links(old(mem[..]), bs)
      ensures Frame(old(mem[..]), mem[..], {a})
    {
      ghost var m := mem[..];
      var bytes := WordBytes(v);
      mem[a + f], mem[a + f + 1], mem[a + f + 2], mem[a + f + 3] := bytes[0], bytes[1], bytes[2], bytes[3];
      assert mem[..] == StoreWord(m, a + f, v);
      FieldStored(m, bs, i, f, v);
      LinksStored(m, bs, i, f, v);
      FrameStored(m, a, f, v);
    }

    method InitHeap()
      requires Valid()
      modifies this, mem
      ensures Valid() && initialized
      ensures blocks == old(blocks) && lost == old(lost)
      ensures old(initialized) ==> freeListHead == old(freeListHead) && mem[..] == old(mem[..])
    {
      if initialized { return; }
      freeListHead := 0;
      WriteHeader(0, HEAP_SIZE - HEADER_SIZE, INITIAL, 0);
      initialized := true;
    }

    /** The first-fit walk: the lowest free block that can hold `need`, and its list predecessor. */
    method FindFit(need: word) returns (prev: int, cur: int, ghost i: nat, ghost p: int)
      requires mem.Length == HEAP_SIZE && Laid(blocks) && Reflects(blocks)
      ensures Cursor(blocks, i, p, prev, cur) && i <= |blocks|
      ensures FirstFit(blocks, need) == if cur == NULL then None else Some(i)
      ensures match FirstFit(blocks, need) case None => cur == NULL case Some(k) => cur == blocks[k].addr
    {
      hide LoadWord, Linked, Match, Cursor, NoneFits;
      cur, prev := freeListHead, NULL;
      i, p := NextFree(blocks, 0), -1;
      CursorStarts(blocks);
      HeadOf(mem[..], freeListHead, blocks);
      NoneFitsYet(blocks, 0, i, need);
      while cur != NULL
        invariant i <= |blocks| && Cursor(blocks, i, p, prev, cur)
        invariant NoneFits(blocks, i, need)
        decreases |blocks| - i
      {
        AtNode(mem[..], freeListHead, blocks, i, p, prev, cur);
        MatchOf(mem[..], blocks, i);
        if Field(cur, FLAG) != 0 && Field(cur, SIZE) >= need {
          break;
        }
        CursorMoves(blocks, i, p, prev, cur);
        NoneFitsYet(blocks, i, NextFree(blocks, i + 1), need);
        prev, cur := cur, Field(cur, NEXT);
        p, i := i, NextFree(blocks, i + 1);
      }
      CursorEnd(blocks, i, p, prev, cur);
      FirstFitIs(blocks, need, i);
    }

    /** `prev->next = current->next`, or the same on the head. */
    method RemoveLink(prev: int, cur: int, ghost bs: seq<Block>, ghost cs: seq<Block>, ghost i: nat, ghost p: int)
      requires mem.Length == HEAP_SIZE && Laid(bs) && Linked(mem[..], freeListHead, bs)
      requires i < |bs| && Cursor(bs, i, p, prev, cur) && SameButFlag(bs, cs, i)
      modifies mem, this`freeListHead
      ensures Laid(cs) && Linked(mem[..], freeListHead, cs)
      ensures OnlyLinks(old(mem[..]), mem[..], bs)
      ensures Frame(old(mem[..]), mem[..], Addrs(bs))
    {
      hide LoadWord, Links, Cursor, SameButFlag, OnlyLinks, Frame, Laid, Match, Threads, IsPrev, AddrAt;
      ghost var m, links, head := mem[..], Links(mem[..], bs), freeListHead;
      CursorEnd(bs, i, p, prev, cur);
      LinkOf(m, head, bs, i);
      var after := Field(cur, NEXT);
      if prev != NULL {
        SetField(prev, NEXT, after, bs, p);
      } else {
        freeListHead := after;
        OnlyLinksNone(m, bs);
      }
      FrameWider(m, mem[..], bs, p);
      FlagLaid(bs, cs, i);
      FlagLinks(mem[..], bs, cs, i);
      Unlinked(links, head, bs, i, p, Links(mem[..], bs), freeListHead, cs);
    }

    /** The insertion walk: stop before the first listed block above a. */
    method FindPlace(a: int, ghost bs: seq<Block>, ghost i: nat)
      returns (prev: int, pos: int, ghost p: int)
      requires mem.Length == HEAP_SIZE && Laid(bs) && Linked(mem[..], freeListHead, bs)
      requires i < |bs| && a == bs[i].addr && !bs[i].free
      ensures IsPrev(bs, i, p) && (prev == NULL <==> p < 0) && (p >= 0 ==> prev == bs[p].addr)
      ensures pos == AddrAt(bs, NextFree(bs, i))
    {
      hide LoadWord, Linked, Cursor, Laid, IsPrev, AddrAt;
      prev, pos := NULL, freeListHead;
      p := -1;
      ghost var q := NextFree(bs, 0);
      CursorStarts(bs);
      HeadOf(mem[..], freeListHead, bs);
      while pos != NULL && pos < a
        invariant q <= |bs| && Cursor(bs, q, p, prev, pos) && p < i
        decreases |bs| - q
      {
        AtNode(mem[..], freeListHead, bs, q, p, prev, pos);
        AddrOrder(bs, q, i);
        CursorMoves(bs, q, p, prev, pos);
        prev, pos := pos, Field(pos, NEXT);
        p, q := q, NextFree(bs, q + 1);
      }
      CursorStops(bs, q, p, prev, pos, i);
    }

    /** Insertion in address order. */
    method InsertSorted(a: int, ghost bs: seq<Block>, ghost cs: seq<Block>, ghost i: nat)
      requires mem.Length == HEAP_SIZE && Laid(bs) && Linked(mem[..], freeListHead, bs)
      requires i < |bs| && a == bs[i].addr && !bs[i].free && SameButFlag(bs, cs, i)
      modifies mem, this`freeListHead
      ensures Laid(cs) && Linked(mem[..], freeListHead, cs)
      ensures OnlyLinks(old(mem[..]), mem[..], bs)
      ensures Frame(old(mem[..]), mem[..], Addrs(bs))
    {
      hide LoadWord, Links, SameButFlag, OnlyLinks, Frame, Laid, Match, Threads, AddrAt;
      ghost var m, links, head := mem[..], Links(mem[..], bs), freeListHead;
      ghost var p;
      var prev, pos;
      prev, pos, p := FindPlace(a, bs, i);
      AddrInArena(bs, NextFree(bs, i));
      AddrInArena(bs, i);
      SetField(a, NEXT, pos, bs, i);
      ghost var m1 := mem[..];
      if prev != NULL {
        SetField(prev, NEXT, a, bs, p);
      } else {
        freeListHead := a;
        OnlyLinksNone(m1, bs);
      }
      OnlyLinksThen(m, m1, mem[..], bs);
      FrameWider(m, m1, bs, i);
      FrameWider(m1, mem[..], bs, p);
      FrameThen(m, m1, mem[..], Addrs(bs), Addrs(bs));
      FlagLaid(bs, cs, i);
      FlagLinks(mem[..], bs, cs, i);
      Inserted(links, head, bs, i, p, Links(mem[..], bs), freeListHead, cs);
    }

    /** Turn the tail of unlisted block i into a listed free block of its own. */
    method SplitOff(cur: int, need: word, ghost bs: seq<Block>, ghost ds: seq<Block>, ghost cs: seq<Block>,
                    ghost i: nat)
      requires mem.Length == HEAP_SIZE && Laid(bs) && Linked(mem[..], freeListHead, bs) && Match(mem[..], bs, i)
      requires Laid(ds) && IsSplit(bs, ds, i) && SameButFlag(ds, cs, i + 1) && Laid(cs)
      requires cur == bs[i].addr && cur + FIELDS_END <= HEAP_SIZE
      requires LoadWord(mem[..], cur + SIZE) == bs[i].size && need + HEADER_SIZE <= bs[i].size
      requires ds[i].size == need && cs[i + 1] == Block(cur + need + HEADER_SIZE, bs[i].size - need - HEADER_SIZE, true)
      modifies mem, this`freeListHead
      ensures Linked(mem[..], freeListHead, cs) && Match(mem[..], cs, i)
      ensures LoadWord(mem[..], cur + SIZE) == need
      ensures Frame(old(mem[..]), mem[..], Addrs(cs))
    {
      hide LoadWord, Links, OnlyLinks, Frame, Threads, AddrAt, Ordered, Linked, Match;
      ghost var m := mem[..];
      AddrInArena(ds, i + 1);
      var total := need + HEADER_SIZE;
      var rest := Field(cur, SIZE) - total;
      WriteHeader(cur + total, rest, ds, i + 1);
      ghost var m1 := mem[..];
      SplitReflects(m, m1, freeListHead, bs, ds, cs, i);
      InsertSorted(cur + total, ds, cs, i + 1);
      ghost var m2 := mem[..];
      MatchAfterLinks(m1, m2, ds, cs, i);
      SetField(cur, SIZE, need, cs, i);
      MatchAfterStore(m2, mem[..], cs, i);
      FrameWider(m2, mem[..], cs, i);
      SameAddrs(ds, cs);
      FrameThen(m, m1, m2, Addrs(cs), Addrs(cs));
      FrameThen(m, m2, mem[..], Addrs(cs), Addrs(cs));
      LinkedAfterStore(m2, mem[..], freeListHead, cs);
    }

    method WriteHeader(a: int, size: int, ghost bs: seq<Block>, ghost i: nat)
      requires mem.Length == HEAP_SIZE && Laid(bs) && i < |bs| && a == bs[i].addr && 0 <= size <= SIZE_MAX
      modifies mem
      ensures forall j :: 0 <= j < |bs| ==>
                HeaderAt(mem[..], bs[j].addr) ==
                if j == i then Header(size, 1, NULL) else HeaderAt(old(mem[..]), bs[j].addr)
      ensures Frame(old(mem[..]), mem[..], Addrs(bs))
    {
      hide LoadWord, Frame, Ordered, OnlyLinks;
      ghost var m := mem[..];
      SetField(a, SIZE, size, bs, i);
      ghost var m1 := mem[..];
      SetField(a, FLAG, 1, bs, i);
      ghost var m2 := mem[..];
      SetField(a, NEXT, NULL, bs, i);
      FrameWider(m, m1, bs, i);
      FrameWider(m1, m2, bs, i);
      FrameWider(m2, mem[..], bs, i);
      FrameThen(m, m1, m2, Addrs(bs), Addrs(bs));
      FrameThen(m, m2, mem[..], Addrs(bs), Addrs(bs));
    }

    /** `current->is_free = 0; current->next = NULL`. */
    method Seal(cur: int, ghost bs: seq<Block>, ghost i: nat)
      requires mem.Length == HEAP_SIZE && Laid(bs) && Linked(mem[..], freeListHead, bs) && Match(mem[..], bs, i)
      requires i < |bs| && !bs[i].free && cur == bs[i].addr && cur + FIELDS_END <= HEAP_SIZE
      requires LoadWord(mem[..], cur + SIZE) == bs[i].size
      modifies mem
      ensures Reflects(bs) && Frame(old(mem[..]), mem[..], Addrs(bs))
    {
      hide LoadWord, Links, OnlyLinks, Frame, AddrAt, Ordered, Match, Threads;
      ghost var m, links := mem[..], Links(mem[..], bs);
      SetField(cur, FLAG, 0, bs, i);
      ghost var m1 := mem[..];
      MatchAfterStore(m, m1, bs, i);
      SetField(cur, NEXT, NULL, bs, i);
      MatchAfterStore(m1, mem[..], bs, i);
      UnlistedLink(links, freeListHead, bs, i, NULL);
      FrameWider(m, m1, bs, i);
      FrameWider(m1, mem[..], bs, i);
      FrameThen(m, m1, mem[..], Addrs(bs), Addrs(bs));
    }

    method Malloc(size: word) returns (p: int)
      requires Valid()
      modifies this, mem
      ensures Valid()
      ensures (Abstract(), p) == DoMalloc(old(Abstract()), size)
      ensures KeepsLive(old(mem[..]), mem[..], old(blocks))
    {
      hide LoadWord, Linked, Match, Links, Cursor, Carve, Rounded, FirstFit, Frame, Apart, Footprint, Ordered;
      if size == 0 { return NULL; }
      InitHeap();
      var need := Rounded(size);
      RoundedCovers(size);
      var prev, cur;
      ghost var i, q;
      prev, cur, i, q := FindFit(need);
      CursorEnd(blocks, i, q, prev, cur);
      if cur == NULL { return NULL; }
      CarveBlock(prev, cur, need, i, q);
      p := cur + HEADER_SIZE;
    }

    /** Take block i off the list, split it if enough is left, and mark it allocated. */
    method CarveBlock(prev: int, cur: int, need: word, ghost i: nat, ghost q: int)
      requires Valid() && initialized
      requires i < |blocks| && Cursor(blocks, i, q, prev, cur) && need % 8 == 0
      requires blocks[i].free && need <= blocks[i].size
      modifies this`blocks, this`freeListHead, mem
      ensures Valid()
      ensures blocks == Carve(old(blocks), i, need)
      ensures KeepsLive(old(mem[..]), mem[..], old(blocks))
    {
      hide LoadWord, Linked, Match, Links, Cursor, Frame, Apart, Footprint, Ordered, Addrs, OnlyLinks;
      ghost var m, bs := mem[..], blocks;
      ghost var us := bs[i := bs[i].(free := false)];
      CursorEnd(bs, i, q, prev, cur);
      MatchOf(m, bs, i);
      RemoveLink(prev, cur, bs, us, i, q);
      ghost var m1 := mem[..];
      MatchUnlisted(m, m1, bs, us, i);
      CarveInv(bs, lost, i, need);
      ghost var cs := Carve(bs, i, need);
      if Field(cur, SIZE) >= need + HEADER_SIZE + HEADER_SIZE + 8 {
        ghost var ds := cs[i + 1 := cs[i + 1].(free := false)];
        FlagLaid(cs, ds, i + 1);
        SplitOff(cur, need, us, ds, cs, i);
      } else {
        assert cs == us;
      }
      ghost var m2 := mem[..];
      Seal(cur, cs, i);
      blocks := cs;
      CarveFrames(m, m1, m2, mem[..], bs, i, need);
    }

    /** `curr->size += HEADER_SIZE + curr->next->size; curr->next = curr->next->next`. */
    method Absorb(curr: int, next: int, ghost cs: seq<Block>, ghost c: nat)
      requires mem.Length == HEAP_SIZE && Laid(cs) && Reflects(cs)
      requires c + 1 < |cs| && Touching(cs[c], cs[c + 1]) && curr == cs[c].addr && next == cs[c + 1].addr
      modifies mem
      ensures Laid(Merged(cs, c)) && Reflects(Merged(cs, c))
      ensures Frame(old(mem[..]), mem[..], {cs[c].addr})
      ensures SameFlagAt(old(mem[..]), mem[..], cs[c].addr)
    {
      hide LoadWord, Linked, Links, Frame, Threads, Ordered, OnlyLinks;
      ghost var m, ds := mem[..], Merged(cs, c);
      MergedKeeps(cs, c);
      MatchOf(m, cs, c);
      MatchOf(m, cs, c + 1);
      SetField(curr, SIZE, Field(curr, SIZE) + (HEADER_SIZE + Field(next, SIZE)), cs, c);
      ghost var m1 := mem[..];
      SetField(curr, NEXT, Field(next, NEXT), cs, c);
      FrameThen(m, m1, mem[..], {cs[c].addr}, {cs[c].addr});
      MergeReflects(m, mem[..], freeListHead, cs, ds, c);
    }

    /** One pass over the list that merges every free block with the free block it touches. */
    method CoalescePass(ghost fs: seq<Block>)
      requires mem.Length == HEAP_SIZE && Laid(fs) && Reflects(fs)
      modifies mem
      ensures Laid(Coalesce(fs)) && Reflects(Coalesce(fs))
      ensures Frame(old(mem[..]), mem[..], Addrs(fs)) && SameFlags(old(mem[..]), mem[..], fs)
    {
      hide LoadWord, Linked, Match, Links, Frame, Ordered, Settled, Coalesce, Merged, SameFlags, Addrs;
      var curr: int := freeListHead;
      ghost var m, cs := mem[..], fs;
      ghost var c: nat := NextFree(fs, 0);
      Untouched(m, fs);
      HeadOf(m, freeListHead, fs);
      SettledStart(fs);
      SettledNone(fs, c);
      while curr != NULL && Field(curr, NEXT) != NULL
        invariant Laid(cs) && Reflects(cs) && Settled(fs, cs, c) && c <= |cs|
        invariant curr == AddrAt(cs, c) && (c < |cs| ==> cs[c].free)
        invariant curr != NULL ==> c < |cs| && curr + FIELDS_END <= HEAP_SIZE
        invariant c == |cs| ==> Coalesce(fs) == cs
        invariant Frame(m, mem[..], Addrs(fs)) && SameFlags(m, mem[..], fs)
        decreases |cs| - c + |cs|
      {
        var next: int := Field(curr, NEXT);
        ghost var m1 := mem[..];
        ghost var n: nat := NextFree(cs, c + 1);
        LinkOf(m1, freeListHead, cs, c);
        AddrInArena(cs, n);
        MatchOf(m1, cs, c);
        TouchIsNext(cs, c, n);
        if curr + HEADER_SIZE + Field(curr, SIZE) == next {
          Absorb(curr, next, cs, c);
          SettledAddr(fs, cs, c);
          FlagsAfter(m1, mem[..], fs, curr);
          SameFlagsThen(m, m1, mem[..], fs);
          FrameThen(m, m1, mem[..], Addrs(fs), {cs[c].addr});
          SettledMerge(fs, cs, c);
          MergedShape(cs, c);
          cs := Merged(cs, c);
        } else {
          SettledStep(fs, cs, c, n);
          curr, c := next, n;
        }
      }
      if c < |cs| {
        LinkOf(mem[..], freeListHead, cs, c);
        AddrInArena(cs, NextFree(cs, c + 1));
        SettledStep(fs, cs, c, NextFree(cs, c + 1));
      }
    }

    /** What free accepts: NULL, a live payload pointer, or one whose header still says free. */
    ghost predicate Freeable(p: int)
      requires mem.Length == HEAP_SIZE
      reads this, mem
    {
      || p == NULL
      || IsLive(Abstract(), p)
      || (initialized && HEADER_SIZE <= p && p - HEADER_SIZE + FIELDS_END <= HEAP_SIZE
          && Field(p - HEADER_SIZE, FLAG) != 0)
    }

    method Free(p: int)
      requires Valid() && Freeable(p)
      modifies this`blocks, this`freeListHead, mem
      ensures Valid()
      ensures Abstract() == DoFree(old(Abstract()), p)
      ensures old(IsLive(Abstract(), p)) ==> Freeable(p) && !IsLive(Abstract(), p)
      ensures KeepsLive(old(mem[..]), mem[..], old(blocks))
    {
      hide LoadWord, Linked, Match, Links, Apart, Footprint, Ordered, IsLive, DoFree;
      NullNotLive(Abstract());
      if p == NULL { NotLiveFree(Abstract(), p); return; }
      var block := p - HEADER_SIZE;
      if IsLive(Abstract(), p) { LiveHeader(p); }
      if Field(block, FLAG) != 0 {
        NotLiveFree(Abstract(), p);
        return;
      }
      ReleaseBlock(block, IndexOf(blocks, block));
    }

    /** A live pointer's header lies in the arena and says so. */
    lemma LiveHeader(p: int)
      requires Valid() && IsLive(Abstract(), p)
      ensures initialized && HEADER_SIZE <= p && p - HEADER_SIZE + FIELDS_END <= HEAP_SIZE
      ensures Field(p - HEADER_SIZE, FLAG) == 0 && Field(p - HEADER_SIZE, SIZE) == BlockOf(Abstract(), p).size
      ensures var i := IndexOf(blocks, p - HEADER_SIZE);
        i < |blocks| && blocks[i] == BlockOf(Abstract(), p) && !blocks[i].free
    {
      LiveAligned(Abstract(), p);
      MatchOf(mem[..], blocks, IndexOf(blocks, p - HEADER_SIZE));
    }

    method ReleaseBlock(block: int, ghost i: nat)
      requires Valid() && initialized && i < |blocks| && !blocks[i].free && block == blocks[i].addr
      requires IsLive(Abstract(), block + HEADER_SIZE) && i == IndexOf(blocks, block)
      modifies this`blocks, this`freeListHead, mem
      ensures Valid() && block + FIELDS_END <= HEAP_SIZE
      ensures Abstract() == DoFree(old(Abstract()), block + HEADER_SIZE)
      ensures Field(block, FLAG) != 0 && !IsLive(Abstract(), block + HEADER_SIZE)
      ensures KeepsLive(old(mem[..]), mem[..], old(blocks))
    {
      hide LoadWord, Linked, Match, Links, Apart, Footprint, Ordered, Frame, Coalesce, OnlyLinks, Addrs, SameFlags;
      ghost var m, bs := mem[..], blocks;
      ghost var fs := bs[i := bs[i].(free := true)];
      ReleaseInv(bs, lost, i);
      FreeKeeps(Abstract(), block + HEADER_SIZE);
      FlagLaid(bs, fs, i);
      AddrInArena(bs, i);
      SetField(block, FLAG, 1, bs, i);
      ghost var m1 := mem[..];
      SetField(block, NEXT, NULL, bs, i);
      ghost var m2 := mem[..];
      MarkedFree(m, m1, m2, freeListHead, bs, fs, i);
      InsertSorted(block, bs, fs, i);
      ghost var m3 := mem[..];
      MatchAfterLinks(m2, m3, bs, fs, |fs|);
      CoalescePass(fs);
      blocks := Coalesce(fs);
      FrameWider(m, m1, bs, i);
      FrameWider(m1, m2, bs, i);
      SameAddrs(bs, fs);
      FrameThen(m, m1, m2, Addrs(bs), Addrs(bs));
      FrameThen(m, m2, m3, Addrs(bs), Addrs(bs));
      FrameThen(m, m3, mem[..], Addrs(bs), Addrs(bs));
      FramedPayloads(m, mem[..], bs);
      FlagStays(m3, mem[..], fs, i);
    }

    /** memcpy between two live payloads: the headers and all other payloads stay. */
    method CopyPayload(dst: int, src: int, n: nat)
      requires Valid() && initialized && IsLive(Abstract(), dst) && IsLive(Abstract(), src) && dst != src
      requires n <= BlockOf(Abstract(), dst).size && n <= BlockOf(Abstract(), src).size
      modifies mem
      ensures Valid()
      ensures 0 <= dst && 0 <= src && dst + n <= HEAP_SIZE && src + n <= HEAP_SIZE
      ensures mem[dst..dst + n] == old(mem[src..src + n])
      ensures forall x :: 0 <= x < HEAP_SIZE && !(dst <= x < dst + n) ==> mem[x] == old(mem[x])
    {
      hide LoadWord, Linked, Match, Links, Apart, Footprint, Ordered, IsLive, BlockOf;
      LiveAligned(Abstract(), dst);
      LiveAligned(Abstract(), src);
      LiveDisjoint(Abstract(), dst, src);
      CopyBytes(dst, src, n);
      LivePayloadNoHeader(blocks, BlockOf(Abstract(), dst));
      PayloadWritten(old(mem[..]), mem[..], freeListHead, blocks);
    }

    method CopyBytes(dst: nat, src: nat, n: nat)
      requires dst + n <= mem.Length && src + n <= mem.Length && (dst + n <= src || src + n <= dst)
      modifies mem
      ensures mem[dst..dst + n] == old(mem[src..src + n])
      ensures forall x :: 0 <= x < mem.Length && !(dst <= x < dst + n) ==> mem[x] == old(mem[x])
    {
      ghost var m := mem[..];
      for k := 0 to n
        invariant forall x :: 0 <= x < mem.Length && !(dst <= x < dst + k) ==> mem[x] == m[x]
        invariant mem[dst..dst + k] == m[src..src + k]
      {
        mem[dst + k] := mem[src + k];
      }
    }

    method Realloc(p: int, size: word) returns (q: int)
      requires Valid() && (p == NULL || (IsLive(Abstract(), p) && CopyFits(Abstract(), p, size)))
      modifies this, mem
      ensures Valid()
      ensures (Abstract(), q) == DoRealloc(old(Abstract()), p, size)
      ensures old(IsLive(Abstract(), p)) && size > 0 && q != NULL ==>
                var n := Least(size, old(BlockOf(Abstract(), p).size));
                && IsLive(Abstract(), q) && 0 <= p <= HEAP_SIZE - n && 0 <= q <= HEAP_SIZE - n
                && mem[q..q + n] == old(mem[p..p + n])
      ensures KeepsLive(old(mem[..]), mem[..], old(blocks))
    {
      hide LoadWord, Linked, Match, Links, Apart, Footprint, Ordered, IsLive, BlockOf, DoMalloc, DoFree, Rounded;
      hide KeepsLive, CopyFits;
      NullNotLive(Abstract());
      if p == NULL {
        q := Malloc(size);
      } else if size == 0 {
        Free(p);
        q := NULL;
      } else {
        q := Resize(p, size);
      }
    }

    method Resize(p: int, size: word) returns (q: int)
      requires Valid() && IsLive(Abstract(), p) && p != NULL && size > 0 && CopyFits(Abstract(), p, size)
      modifies this, mem
      ensures Valid()
      ensures (Abstract(), q) == DoRealloc(old(Abstract()), p, size)
      ensures q != NULL ==>
                var n := Least(size, old(BlockOf(Abstract(), p).size));
                && IsLive(Abstract(), q) && 0 <= p <= HEAP_SIZE - n && 0 <= q <= HEAP_SIZE - n
                && mem[q..q + n] == old(mem[p..p + n])
      ensures KeepsLive(old(mem[..]), mem[..], old(blocks))
    {
      hide LoadWord, Linked, Match, Links, Apart, Footprint, Ordered, IsLive, BlockOf, DoMalloc, DoFree, DoRealloc,
        Rounded, KeepsLive, Shrink, CopyFits, Reflects, Laid, Frame;
      ghost var s, m := Abstract(), mem[..];
      LiveHeader(p);
      LiveAligned(s, p);
      ReallocCases(s, p, size);
      var block := p - HEADER_SIZE;
      var current := Field(block, SIZE);
      if size <= current {
        ShrinkInPlace(block, size, IndexOf(blocks, block));
        q := p;
        SourceKept(m, mem[..], s.blocks, BlockOf(s, p), size);
      } else {
        q := Grow(p, size, current);
      }
    }

    method ShrinkInPlace(block: int, size: word, ghost i: nat)
      requires Valid() && initialized && i < |blocks| && !blocks[i].free && block == blocks[i].addr
      requires size <= blocks[i].size
      modifies this`blocks, this`lost, mem
      ensures Valid()
      ensures blocks == Shrink(old(blocks), i, size) && lost == old(lost) + old(blocks)[i].size - size
      ensures KeepsLive(old(mem[..]), mem[..], old(blocks))
    {
      hide LoadWord, Linked, Match, Links, Apart, Footprint, Ordered, Frame;
      ghost var m, bs := mem[..], blocks;
      ghost var cs := Shrink(bs, i, size);
      ShrinkInv(bs, lost, i, size);
      AddrInArena(bs, i);
      SetField(block, SIZE, size, bs, i);
      ShrunkReflects(m, mem[..], freeListHead, bs, i, size);
      FrameWider(m, mem[..], bs, i);
      FramedPayloads(m, mem[..], bs);
      blocks, lost := cs, lost + bs[i].size - size;
    }

    method Grow(p: int, size: word, current: int) returns (q: int)
      requires Valid() && IsLive(Abstract(), p) && BlockOf(Abstract(), p).size == current < size
      requires CopyFits(Abstract(), p, size)
      modifies this, mem
      ensures Valid()
      ensures var (t, r) := DoMalloc(old(Abstract()), size);
              q == r && Abstract() == if r == NULL then t else DoFree(t, p)
      ensures q != NULL ==>
                && IsLive(Abstract(), q) && 0 <= p <= HEAP_SIZE - current && 0 <= q <= HEAP_SIZE - current
                && mem[q..q + current] == old(mem[p..p + current])
      ensures KeepsLive(old(mem[..]), mem[..], old(blocks))
    {
      hide LoadWord, Linked, Match, Links, Apart, Footprint, Ordered, IsLive, BlockOf, DoMalloc, DoFree;
      hide InLivePayload, CopyFits;
      ghost var s, m, bs := Abstract(), mem[..], blocks;
      MallocKeeps(s, size);
      RoundedCovers(size);
      LiveAligned(s, p);
      q := Malloc(size);
      if q == NULL { return; }
      GrowthFits(s, p, size);
      ghost var u, m1 := Abstract(), mem[..];
      GrowLive(s, u, p, q);
      LiveAligned(u, q);
      SourceKept(m, m1, bs, BlockOf(s, p), current);
      CopyPayload(q, p, current);
      ghost var m2 := mem[..];
      Free(p);
      LiveAligned(Abstract(), q);
      SourceKept(m2, mem[..], u.blocks, BlockOf(u, q), current);
      forall x | 0 <= x < HEAP_SIZE && InLivePayload(bs, x)
        ensures mem[x] == m[x]
      {
        GrowApart(s, u, q, current, x);
        LiveStays(s, u, x);
      }
    }

    /** Any call of a legal run, made on the bytes, is the step of the run. */
    method Perform(c: Call)
      requires Valid() && Legal(Abstract(), c)
      modifies this, mem
      ensures Valid() && Abstract() == Next(old(Abstract()), c)
      ensures KeepsLive(old(mem[..]), mem[..], old(blocks))
    {
      hide IsLive, DoMalloc, DoFree, DoRealloc, CopyFits, KeepsLive, Inv, Reflects;
      match c {
        case Malloc(size) => var _ := Malloc(size);
        case Free(p) => Free(p);
        case Realloc(p, size) => var _ := Realloc(p, size);
      }
    }
  }

  lemma ReallocCases(s: State, p: int, size: word)
    requires Good(s) && IsLive(s, p) && p != NULL && size > 0
    ensures var i, b, (t, r) := IndexOf(s.blocks, p - HEADER_SIZE), BlockOf(s, p), DoMalloc(s, size);
            && i < |s.blocks|
            && DoRealloc(s, p, size) ==
               (if size <= b.size then (State(Shrink(s.blocks, i, size), s.lost + b.size - size), p)
                else if r == NULL then (t, r) else (DoFree(t, p), r))
    ensures size <= BlockOf(s, p).size ==> IsLive(DoRealloc(s, p, size).0, p)
  {
    ReallocKeeps(s, p, size);
  }

  lemma NotLiveFree(s: State, p: int)
    requires !IsLive(s, p)
    ensures DoFree(s, p) == s
  {
  }

  lemma MarkedFree(m: seq<byte>, m1: seq<byte>, m2: seq<byte>, head: int, bs: seq<Block>, fs: seq<Block>, i: nat)
    requires |m| == |m1| == |m2| == HEAP_SIZE && Laid(bs) && Laid(fs) && SameButFlag(bs, fs, i) && !bs[i].free
    requires Match(m, bs, |bs|) && Linked(m, head, bs)
    requires forall j :: 0 <= j < |bs| && j != i ==> HeaderAt(m1, bs[j].addr) == HeaderAt(m, bs[j].addr)
    requires forall j :: 0 <= j < |bs| && j != i ==> HeaderAt(m2, bs[j].addr) == HeaderAt(m1, bs[j].addr)
    requires HeaderAt(m1, bs[i].addr) == HeaderAt(m, bs[i].addr).(flag := 1)
    requires HeaderAt(m2, bs[i].addr) == HeaderAt(m1, bs[i].addr).(next := NULL)
    ensures Match(m2, fs, |fs|) && Linked(m2, head, bs)
  {
    forall j | 0 <= j < |fs|
      ensures MatchAt(m2, fs[j])
    {
      assert MatchAt(m, bs[j]);
    }
    var links := Links(m, bs);
    assert Links(m2, bs) == links[i := NULL] by {
      forall j | 0 <= j < |bs|
        ensures Links(m2, bs)[j] == links[i := NULL][j]
      {
        assert Links(m2, bs)[j] == HeaderAt(m2, bs[j].addr).next && links[j] == HeaderAt(m, bs[j].addr).next;
      }
    }
    UnlistedLink(links, head, bs, i, NULL);
  }

  lemma FlagStays(m: seq<byte>, m': seq<byte>, fs: seq<Block>, i: nat)
    requires |m| == |m'| == HEAP_SIZE && Laid(fs) && i < |fs| && fs[i].free
    requires Match(m, fs, |fs|) && SameFlags(m, m', fs)
    ensures fs[i].addr + FIELDS_END <= HEAP_SIZE && LoadWord(m', fs[i].addr + FLAG) == 1
  {
    assert MatchAt(m, fs[i]) && SameFlagAt(m, m', fs[i].addr);
  }

  lemma LivePayloadNoHeader(bs: seq<Block>, b: Block)
    requires Laid(bs) && b in bs && !b.free
    ensures forall x :: b.Payload() <= x < b.End() ==> !InHeaders(Addrs(bs), x)
  {
    var i :| 0 <= i < |bs| && bs[i] == b;
    forall x | b.Payload() <= x < b.End()
      ensures !InHeaders(Addrs(bs), x)
    {
      assert InLivePayload(bs, x);
      HeadersOutsidePayloads(bs, x);
    }
  }

  lemma ShrunkReflects(m: seq<byte>, m': seq<byte>, head: int, bs: seq<Block>, i: nat, n: word)
    requires |m| == |m'| == HEAP_SIZE && Laid(bs) && i < |bs| && !bs[i].free && n <= bs[i].size
    requires Laid(Shrink(bs, i, n))
    requires Match(m, bs, |bs|) && Linked(m, head, bs) && Links(m', bs) == Links(m, bs)
    requires forall j :: 0 <= j < |bs| && j != i ==> HeaderAt(m', bs[j].addr) == HeaderAt(m, bs[j].addr)
    requires HeaderAt(m', bs[i].addr) == HeaderAt(m, bs[i].addr).(size := n)
    ensures Match(m', Shrink(bs, i, n), |bs|) && Linked(m', head, Shrink(bs, i, n))
  {
    var cs := Shrink(bs, i, n);
    forall j | 0 <= j < |cs|
      ensures MatchAt(m', cs[j])
    {
      assert MatchAt(m, bs[j]);
    }
    assert Links(m', cs) == Links(m', bs);
    ShrunkThreads(Links(m, bs), head, bs, i, n);
  }

  lemma ShrunkThreads(links: seq<int>, head: int, bs: seq<Block>, i: nat, n: nat)
    requires i < |bs| == |links| && n <= bs[i].size && Threads(links, head, bs)
    ensures Threads(links, head, Shrink(bs, i, n))
  {
    var cs := Shrink(bs, i, n);
    forall j | 0 <= j <= |bs|
      ensures NextFree(cs, j) == NextFree(bs, j)
    {
      NextFreeIs(cs, j, NextFree(bs, j));
    }
  }

  lemma SourceKept(m: seq<byte>, m': seq<byte>, bs: seq<Block>, b: Block, n: nat)
    requires n <= b.size && |m| == HEAP_SIZE && Laid(bs) && b in bs && !b.free && KeepsLive(m, m', bs)
    ensures b.End() <= |m| == |m'| && m'[b.Payload()..b.Payload() + n] == m[b.Payload()..b.Payload() + n]
  {
    var i :| 0 <= i < |bs| && bs[i] == b;
    assert InArena(bs[i]);
    assert forall x :: b.Payload() <= x < b.End() ==> InLivePayload(bs, x);
  }

  /** A byte of a payload that was live before is not in the block malloc has just made. */
  lemma GrowApart(s: State, u: State, q: int, n: nat, x: int)
    requires Good(s) && Good(u) && IsLive(u, q) && !IsLive(s, q) && n <= BlockOf(u, q).size
    requires LiveChange(s, u, {}, {BlockOf(u, q)}) && InLivePayload(s.blocks, x)
    ensures !(q <= x < q + n)
  {
    var i :| 0 <= i < |s.blocks| && !s.blocks[i].free && s.blocks[i].Payload() <= x < s.blocks[i].End();
    var b := s.blocks[i];
    LiveMember(s, b);
    assert b in u.blocks;
    LiveMember(u, b);
    LiveDisjoint(u, b.Payload(), q);
  }

  lemma LiveStays(s: State, u: State, x: int)
    requires InLivePayload(s.blocks, x) && forall b: Block :: !b.free && b in s.blocks ==> b in u.blocks
    ensures InLivePayload(u.blocks, x)
  {
    var i :| 0 <= i < |s.blocks| && !s.blocks[i].free && s.blocks[i].Payload() <= x < s.blocks[i].End();
    var j :| 0 <= j < |u.blocks| && u.blocks[j] == s.blocks[i];
  }
}
