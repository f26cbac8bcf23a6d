/** malloc and free on whole heaps, and what holds over every sequence of them. */
module HeapRuns {
  import opened Basics
  import opened Rounding
  import opened HeapModel

  /** The block list, the mapped arenas and the mapped_bytes counter. */
  datatype Heap = Heap(blocks: seq<Block>, arenas: seq<Arena>, mapped: nat)

  function ArenaBytes(arenas: seq<Arena>): (r: nat) {
    if arenas == [] then 0 else ArenaBytes(arenas[..|arenas| - 1]) + arenas[|arenas| - 1].length
  }

  ghost predicate WellFormed(h: Heap) {
    && Ordered(h.blocks) && AllAligned(h.blocks)
    && Tiles(h.blocks, h.arenas) && Coalesced(h.blocks, h.arenas)
    && Bytes(h.blocks) == h.mapped == ArenaBytes(h.arenas)
  }

  // ----- Arithmetic of a request -----

  predicate ValidPage(page: nat) { 0 < page < WORD && page % ALIGNMENT == 0 }

  /** Bytes map_arena asks the kernel for. */
  function ArenaTotal(size: nat, page: nat): (r: nat)
    requires ValidPage(page)
    ensures r >= HEADER + size && r >= ARENA_MIN && r % page == 0
  {
    RoundUp(if HEADER + size < ARENA_MIN then ARENA_MIN else HEADER + size, page)
  }

  /** The request's roundings stay below 2^64. */
  predicate Representable(n: nat, page: nat)
    requires ValidPage(page)
    ensures Representable(n, page) ==> n < WORD
  {
    ArenaTotal(RoundUp(n, ALIGNMENT), page) < WORD
  }

  function ArenaTotal64(size: nat, page: nat): (r: nat)
    requires size < WORD && ValidPage(page)
    ensures r < WORD
  {
    var total := (HEADER + size) % WORD;
    RoundUp64(if total < ARENA_MIN then ARENA_MIN else total, page)
  }

  /** The 64-bit code computes the intended sizes exactly for representable requests. */
  lemma SizesExact(n: nat, page: nat)
    requires n < WORD && ValidPage(page)
    ensures Representable(n, page) <==>
      && RoundUp64(n, ALIGNMENT) == RoundUp(n, ALIGNMENT)
      && ArenaTotal64(RoundUp64(n, ALIGNMENT), page) == ArenaTotal(RoundUp(n, ALIGNMENT), page)
  {
    RoundUp64Exact(n, ALIGNMENT);
    if RoundUp(n, ALIGNMENT) < WORD {
      ArenaTotalExact(RoundUp(n, ALIGNMENT), page);
    }
  }

  lemma SmallMod(x: nat)
    requires x < WORD
    ensures x % WORD == x
  {
  }

  lemma ArenaTotalExact(size: nat, page: nat)
    requires size < WORD && ValidPage(page)
    ensures ArenaTotal(size, page) < WORD <==> ArenaTotal64(size, page) == ArenaTotal(size, page)
  {
    if HEADER + size < WORD {
      SmallMod(HEADER + size);
      ArenaRounds(if HEADER + size < ARENA_MIN then ARENA_MIN else HEADER + size, page);
    }
  }

  lemma ArenaRounds(total: nat, page: nat)
    requires total < WORD && page < WORD
    ensures RoundUp(total, page) < WORD <==> RoundUp64(total, page) == RoundUp(total, page)
  {
    RoundUp64Exact(total, page);
  }

  /** Outside that range the promise breaks: the largest request rounds to zero bytes. */
  lemma LargestRequestRoundsToZero()
    ensures RoundUp64(WORD - 1, ALIGNMENT) == 0
  {
    assert (WORD - 1) % ALIGNMENT == 15;
  }

  // ----- malloc -----

  /** Block i is handed out, trimmed to `size` if the rest can stand alone. */
  function Take(h: Heap, i: nat, size: nat): (r: Heap)
    requires i < |h.blocks| && size <= h.blocks[i].size
  {
    h.(blocks := SetFree(Split(h.blocks, i, size), i, false))
  }

  function Grow(h: Heap, base: nat, total: nat): (r: Heap)
    requires total >= HEADER
  {
    Heap(Insert(h.blocks, Rank(h.blocks, base), Block(base, total - HEADER, true)),
         h.arenas + [Arena(base, total)], h.mapped + total)
  }

  /** What the kernel promises when it maps `total` bytes at the granted base. */
  ghost predicate KernelMaps(h: Heap, total: nat, page: nat, grant: Option<nat>)
    requires page > 0
  {
    grant.Some? ==> grant.value > 0 && grant.value % page == 0 && Fresh(h.arenas, Arena(grant.value, total))
  }

  /** my_malloc once the size is rounded. */
  function MallocSized(h: Heap, size: nat, page: nat, grant: Option<nat>): (r: (Heap, nat))
    requires ValidPage(page)
  {
    var i := FindFit(h.blocks, size, 0);
    if i < |h.blocks| then (Take(h, i, size), h.blocks[i].addr + HEADER)
    else if grant.None? then (h, 0)
    else
      var total := ArenaTotal(size, page);
      var j := Rank(h.blocks, grant.value);
      (Take(Grow(h, grant.value, total), j, size), grant.value + HEADER)
  }

  /** my_malloc; `grant` is the kernel's answer should an arena be needed. A null pointer is 0. */
  function Malloc(h: Heap, n: nat, page: nat, grant: Option<nat>): (r: (Heap, nat))
    requires ValidPage(page)
  {
    if n == 0 then (h, 0) else MallocSized(h, RoundUp(n, ALIGNMENT), page, grant)
  }

  // ----- free -----

  /** Index of the block whose payload starts at ptr, or |blocks|. */
  function IndexOf(blocks: seq<Block>, ptr: nat): (i: nat)
    ensures i <= |blocks|
    ensures i < |blocks| ==> blocks[i].addr + HEADER == ptr
    ensures i == |blocks| ==> forall b :: b in blocks ==> b.addr + HEADER != ptr
  {
    if blocks == [] then 0
    else if blocks[0].addr + HEADER == ptr then 0
    else 1 + IndexOf(blocks[1..], ptr)
  }

  /** ptr was returned by malloc and not freed since. */
  predicate IsLive(h: Heap, ptr: nat) {
    var i := IndexOf(h.blocks, ptr);
    i < |h.blocks| && !h.blocks[i].free
  }

  /** my_free of a null or live pointer. */
  function Free(h: Heap, ptr: nat): (r: Heap)
    requires ptr == 0 || IsLive(h, ptr)
  {
    if ptr == 0 then h else h.(blocks := Release(h.blocks, IndexOf(h.blocks, ptr)))
  }

  // ----- Live blocks -----

  lemma SplitLive(blocks: seq<Block>, i: nat, size: nat)
    requires i < |blocks| && size <= blocks[i].size && blocks[i].free
    ensures Live(Split(blocks, i, size)) == Live(blocks)
  {
    var split := Split(blocks, i, size);
    forall b | b in Live(blocks)
      ensures b in Live(split)
    {
      var k :| 0 <= k < |blocks| && blocks[k] == b;
      assert split[if k < i || split == blocks then k else k + 1] == b;
    }
    forall b | b in Live(split)
      ensures b in Live(blocks)
    {
      var k :| 0 <= k < |split| && split[k] == b;
      assert blocks[if k < i || split == blocks then k else k - 1] == b;
    }
  }

  lemma CoalesceLive(blocks: seq<Block>, i: nat)
    requires i < |blocks| && blocks[i].free
    ensures Live(Coalesce(blocks, i)) == Live(blocks)
  {
    var merged := Coalesce(blocks, i);
    if Absorbs(blocks, i) {
      forall b | b in Live(blocks)
        ensures b in Live(merged)
      {
        var k :| 0 <= k < |blocks| && blocks[k] == b;
        assert merged[if k < i then k else k - 1] == b;
      }
      forall b | b in Live(merged)
        ensures b in Live(blocks)
      {
        var k :| 0 <= k < |merged| && merged[k] == b;
        assert blocks[if k < i then k else k + 1] == b;
      }
    }
  }

  lemma SetFreeLive(blocks: seq<Block>, i: nat, free: bool)
    requires Ordered(blocks) && i < |blocks|
    ensures free && !blocks[i].free ==> Live(SetFree(blocks, i, free)) == Live(blocks) - {blocks[i]}
    ensures !free && blocks[i].free ==> Live(SetFree(blocks, i, free)) == Live(blocks) + {blocks[i].(free := false)}
  {
    var after := SetFree(blocks, i, free);
    forall k | 0 <= k < |blocks| && k != i
      ensures after[k] == blocks[k] && blocks[k].addr != blocks[i].addr
    {
    }
    forall b | b in Live(after)
      ensures b in Live(blocks) + {blocks[i].(free := false)}
      ensures free ==> b != blocks[i]
    {
      var k :| 0 <= k < |after| && after[k] == b;
      assert k != i ==> blocks[k] == b;
    }
    forall b | b in Live(blocks) && b != blocks[i]
      ensures b in Live(after)
    {
      var k :| 0 <= k < |blocks| && blocks[k] == b;
      assert after[k] == b;
    }
    assert after[i] in after;
  }

  lemma InsertLive(blocks: seq<Block>, i: nat, b: Block)
    requires i <= |blocks| && b.free
    ensures Live(Insert(blocks, i, b)) == Live(blocks)
  {
    var more := Insert(blocks, i, b);
    forall x | x in Live(blocks)
      ensures x in Live(more)
    {
      var k :| 0 <= k < |blocks| && blocks[k] == x;
      assert more[if k < i then k else k + 1] == x;
    }
    forall x | x in Live(more)
      ensures x in Live(blocks)
    {
      var k :| 0 <= k < |more| && more[k] == x;
      assert blocks[if k < i then k else k - 1] == x;
    }
  }

  // ----- Well-formedness -----

  lemma TakeWellFormed(h: Heap, i: nat, size: nat)
    requires WellFormed(h) && i < |h.blocks| && h.blocks[i].free && size <= h.blocks[i].size && size % ALIGNMENT == 0
    ensures WellFormed(Take(h, i, size))
  {
    var split := Split(h.blocks, i, size);
    SplitOrdered(h.blocks, i, size);
    SplitAligned(h.blocks, i, size);
    SplitCoalesced(h.blocks, h.arenas, i, size);
    SplitBytes(h.blocks, i, size);
    SetFreeBytes(split, i, false);
    forall a: int
      ensures InBlocks(SetFree(split, i, false), a) <==> InArenas(h.arenas, a)
    {
      SplitCovers(h.blocks, i, size, a);
      SetFreeCovers(split, i, false, a);
    }
  }

  /** The block at the new base slots in between blocks without touching them. */
  lemma FreshBlockFits(h: Heap, base: nat, total: nat, k: nat)
    requires WellFormed(h) && total >= HEADER && Fresh(h.arenas, Arena(base, total)) && k < |h.blocks|
    ensures k < Rank(h.blocks, base) ==> h.blocks[k].End() <= base
    ensures k >= Rank(h.blocks, base) ==> base + total <= h.blocks[k].addr
  {
    var b, arena, rank := h.blocks[k], Arena(base, total), Rank(h.blocks, base);
    if k < rank && b.End() > base {
      assert b.Covers(base);
      assert InBlocks(h.blocks, base);
      assert arena.Covers(base);
      assert false;
    }
    if k >= rank && base + total > b.addr {
      assert rank < k ==> h.blocks[rank].End() <= b.addr;
      assert b.Covers(b.addr);
      assert InBlocks(h.blocks, b.addr);
      assert arena.Covers(b.addr);
      assert false;
    }
  }

  lemma GrowSeparates(h: Heap, base: nat, total: nat)
    requires WellFormed(h) && total >= HEADER && Fresh(h.arenas, Arena(base, total))
    ensures var rank := Rank(h.blocks, base);
      forall k :: 0 <= k < |h.blocks| ==>
        (k < rank ==> h.blocks[k].End() <= base) && (k >= rank ==> base + total <= h.blocks[k].addr)
  {
    var rank := Rank(h.blocks, base);
    forall k | 0 <= k < |h.blocks|
      ensures (k < rank ==> h.blocks[k].End() <= base) && (k >= rank ==> base + total <= h.blocks[k].addr)
    {
      FreshBlockFits(h, base, total, k);
    }
  }

  lemma GrowTiles(h: Heap, base: nat, total: nat)
    requires Tiles(h.blocks, h.arenas) && total >= HEADER
    ensures Tiles(Grow(h, base, total).blocks, Grow(h, base, total).arenas)
  {
    var rank, b, arena := Rank(h.blocks, base), Block(base, total - HEADER, true), Arena(base, total);
    forall a: int
      ensures InBlocks(Insert(h.blocks, rank, b), a) <==> InArenas(h.arenas + [arena], a)
    {
      InsertCovers(h.blocks, rank, b, a);
      ArenaCovers(h.arenas, arena, a);
    }
  }

  lemma InsertAligned(blocks: seq<Block>, i: nat, b: Block)
    requires AllAligned(blocks) && i <= |blocks| && b.Aligned()
    ensures AllAligned(Insert(blocks, i, b))
  {
  }

  lemma GrowOrdered(h: Heap, base: nat, total: nat)
    requires WellFormed(h) && total >= HEADER && Fresh(h.arenas, Arena(base, total))
    ensures Ordered(Grow(h, base, total).blocks)
  {
    GrowSeparates(h, base, total);
    InsertOrdered(h.blocks, Rank(h.blocks, base), Block(base, total - HEADER, true));
  }

  lemma GrowAligned(h: Heap, base: nat, total: nat)
    requires AllAligned(h.blocks) && total >= HEADER && base > 0 && base % ALIGNMENT == 0 && total % ALIGNMENT == 0
    ensures AllAligned(Grow(h, base, total).blocks)
  {
    DivUnique(total - HEADER, ALIGNMENT, total / ALIGNMENT - 3, 0);
    InsertAligned(h.blocks, Rank(h.blocks, base), Block(base, total - HEADER, true));
  }

  lemma GrowCoalesced(h: Heap, base: nat, total: nat)
    requires Coalesced(h.blocks, h.arenas) && Tiles(h.blocks, h.arenas) && total >= HEADER && Fresh(h.arenas, Arena(base, total))
    ensures Coalesced(Grow(h, base, total).blocks, Grow(h, base, total).arenas)
  {
    InsertCoalesced(h.blocks, h.arenas, Rank(h.blocks, base), Block(base, total - HEADER, true), Arena(base, total));
  }

  lemma GrowBytes(h: Heap, base: nat, total: nat)
    requires Bytes(h.blocks) == h.mapped == ArenaBytes(h.arenas) && total >= HEADER
    ensures var r := Grow(h, base, total); Bytes(r.blocks) == r.mapped == ArenaBytes(r.arenas)
  {
    InsertBytes(h.blocks, Rank(h.blocks, base), Block(base, total - HEADER, true));
    assert (h.arenas + [Arena(base, total)])[..|h.arenas|] == h.arenas;
  }

  lemma GrowWellFormed(h: Heap, base: nat, total: nat)
    requires WellFormed(h) && total >= HEADER && Fresh(h.arenas, Arena(base, total))
    requires base > 0 && base % ALIGNMENT == 0 && total % ALIGNMENT == 0
    ensures WellFormed(Grow(h, base, total))
  {
    GrowOrdered(h, base, total);
    GrowAligned(h, base, total);
    GrowTiles(h, base, total);
    GrowCoalesced(h, base, total);
    GrowBytes(h, base, total);
  }

  lemma ReleaseOrdered(blocks: seq<Block>, i: nat)
    requires Ordered(blocks) && i < |blocks|
    ensures Ordered(Release(blocks, i))
  {
    var freed := SetFree(blocks, i, true);
    CoalesceOrdered(freed, i);
    if i > 0 {
      CoalesceOrdered(Coalesce(freed, i), i - 1);
    }
  }

  lemma ReleaseAligned(blocks: seq<Block>, i: nat)
    requires AllAligned(blocks) && i < |blocks|
    ensures AllAligned(Release(blocks, i))
  {
    var freed := SetFree(blocks, i, true);
    assert freed[i].Aligned();
    CoalesceAligned(freed, i);
    if i > 0 {
      CoalesceAligned(Coalesce(freed, i), i - 1);
    }
  }

  lemma ReleaseBytes(blocks: seq<Block>, i: nat)
    requires i < |blocks|
    ensures Bytes(Release(blocks, i)) == Bytes(blocks)
  {
    var freed := SetFree(blocks, i, true);
    SetFreeBytes(blocks, i, true);
    CoalesceBytes(freed, i);
    if i > 0 {
      CoalesceBytes(Coalesce(freed, i), i - 1);
    }
  }

  lemma ReleaseCovers(blocks: seq<Block>, i: nat, a: int)
    requires i < |blocks|
    ensures InBlocks(Release(blocks, i), a) <==> InBlocks(blocks, a)
  {
    var freed := SetFree(blocks, i, true);
    SetFreeCovers(blocks, i, true, a);
    CoalesceCovers(freed, i, a);
    if i > 0 {
      CoalesceCovers(Coalesce(freed, i), i - 1, a);
    }
  }

  lemma ReleaseWellFormed(h: Heap, i: nat)
    requires WellFormed(h) && i < |h.blocks| && !h.blocks[i].free
    ensures WellFormed(h.(blocks := Release(h.blocks, i)))
  {
    ReleaseOrdered(h.blocks, i);
    ReleaseAligned(h.blocks, i);
    ReleaseCoalesced(h.blocks, h.arenas, i);
    ReleaseBytes(h.blocks, i);
    forall a: int
      ensures InBlocks(Release(h.blocks, i), a) <==> InArenas(h.arenas, a)
    {
      ReleaseCovers(h.blocks, i, a);
    }
  }

  // ----- malloc and free, as promised -----

  /** What a malloc that returned ptr gave the caller: n bytes, rounded to size, and less than a smallest block more. */
  ghost predicate Grants(h: Heap, h': Heap, n: nat, size: nat, ptr: nat) {
    exists b: Block ::
      && b in h'.blocks && !b.free && b.addr + HEADER == ptr && ptr % ALIGNMENT == 0
      && n <= size <= b.size < size + HEADER + ALIGNMENT
      && b !in h.blocks && Live(h'.blocks) == Live(h.blocks) + {b}
  }

  lemma TakeGrants(h: Heap, i: nat, n: nat, size: nat)
    requires WellFormed(h) && i < |h.blocks| && h.blocks[i].free && n <= size <= h.blocks[i].size
    ensures Grants(h, Take(h, i, size), n, size, h.blocks[i].addr + HEADER)
  {
    var b := h.blocks[i].(free := false, size := if Splits(h.blocks[i], size) then size else h.blocks[i].size);
    TakeLive(h.blocks, i, size, b);
    TakenIsNew(h.blocks, i, b);
    assert h.blocks[i].Aligned();
  }

  lemma TakeLive(blocks: seq<Block>, i: nat, size: nat, b: Block)
    requires Ordered(blocks) && i < |blocks| && blocks[i].free && size <= blocks[i].size
    requires b == blocks[i].(free := false, size := if Splits(blocks[i], size) then size else blocks[i].size)
    ensures var taken := SetFree(Split(blocks, i, size), i, false); b in taken && Live(taken) == Live(blocks) + {b}
  {
    var split := Split(blocks, i, size);
    SplitOrdered(blocks, i, size);
    SplitLive(blocks, i, size);
    SetFreeLive(split, i, false);
    assert SetFree(split, i, false)[i] == b;
  }

  lemma TakenIsNew(blocks: seq<Block>, i: nat, b: Block)
    requires Ordered(blocks) && i < |blocks| && blocks[i].free && b.addr == blocks[i].addr && !b.free
    ensures b !in blocks
  {
    forall k | 0 <= k < |blocks|
      ensures blocks[k] != b
    {
      assert k < i ==> blocks[k].End() <= blocks[i].addr;
      assert k > i ==> blocks[i].End() <= blocks[k].addr;
    }
  }

  lemma PageAligned(base: nat, page: nat)
    requires ValidPage(page) && base % page == 0
    ensures base % ALIGNMENT == 0
  {
    assert base == (base / page) * page;
    MultipleOf16(base / page, page);
  }

  lemma RankFindsNew(h: Heap, base: nat, total: nat)
    requires total >= HEADER
    ensures Grow(h, base, total).blocks[Rank(h.blocks, base)] == Block(base, total - HEADER, true)
  {
  }

  /** What malloc promises about the heap h' and pointer it returns. */
  ghost predicate Serves(h: Heap, n: nat, size: nat, grant: Option<nat>, h': Heap, ptr: nat) {
    var noFit := forall b :: b in h.blocks ==> !(b.free && b.size >= size);
    && WellFormed(h')
    && (ptr == 0 <==> n == 0 || (noFit && grant.None?))
    && (ptr == 0 ==> h' == h)
    && (ptr != 0 ==> Grants(h, h', n, size, ptr))
    && (h'.arenas != h.arenas ==> noFit && ptr != 0)
  }

  /**
   malloc keeps the heap well formed. It returns null exactly for an empty request or when no
   block fits and the kernel refuses, and then nothing changed; otherwise the caller gets a
   fresh aligned block of at least n bytes, less than 80 more, and every other live block stays as it was.
   */
  lemma MallocCorrect(h: Heap, n: nat, page: nat, grant: Option<nat>)
    requires WellFormed(h) && ValidPage(page)
    requires KernelMaps(h, ArenaTotal(RoundUp(n, ALIGNMENT), page), page, grant)
    ensures var (h', ptr) := Malloc(h, n, page, grant); Serves(h, n, RoundUp(n, ALIGNMENT), grant, h', ptr)
  {
    if n > 0 {
      MallocSizedCorrect(h, n, RoundUp(n, ALIGNMENT), page, grant);
    }
  }

  lemma FitServes(h: Heap, n: nat, size: nat, grant: Option<nat>, i: nat)
    requires WellFormed(h) && 0 < n <= size && size % ALIGNMENT == 0 && i == FindFit(h.blocks, size, 0) < |h.blocks|
    ensures Serves(h, n, size, grant, Take(h, i, size), h.blocks[i].addr + HEADER)
  {
    FitsSomewhere(h.blocks, size);
    TakeWellFormed(h, i, size);
    TakeGrants(h, i, n, size);
  }

  lemma ArenaServes(h: Heap, n: nat, size: nat, total: nat, page: nat, base: nat)
    requires WellFormed(h) && ValidPage(page) && 0 < n <= size && size % ALIGNMENT == 0 && base > 0 && base % page == 0
    requires total >= HEADER + size && total % page == 0 && Fresh(h.arenas, Arena(base, total))
    requires FindFit(h.blocks, size, 0) == |h.blocks|
    ensures var j, grown := Rank(h.blocks, base), Grow(h, base, total);
      && j < |grown.blocks| && size <= grown.blocks[j].size
      && Serves(h, n, size, Some(base), Take(grown, j, size), base + HEADER)
  {
    FitsSomewhere(h.blocks, size);
    GrowThenTake(h, n, size, total, page, base);
  }

  lemma RefusalServes(h: Heap, n: nat, size: nat)
    requires WellFormed(h) && 0 < n && FindFit(h.blocks, size, 0) == |h.blocks|
    ensures Serves(h, n, size, None, h, 0)
  {
    FitsSomewhere(h.blocks, size);
  }

  lemma MallocGrows(h: Heap, n: nat, size: nat, page: nat, base: nat)
    requires WellFormed(h) && ValidPage(page) && 0 < n <= size && size % ALIGNMENT == 0
    requires KernelMaps(h, ArenaTotal(size, page), page, Some(base)) && FindFit(h.blocks, size, 0) == |h.blocks|
    ensures var (h', ptr) := MallocSized(h, size, page, Some(base)); Serves(h, n, size, Some(base), h', ptr)
  {
    ArenaServes(h, n, size, ArenaTotal(size, page), page, base);
  }

  lemma MallocSizedCorrect(h: Heap, n: nat, size: nat, page: nat, grant: Option<nat>)
    requires WellFormed(h) && ValidPage(page) && 0 < n <= size && size % ALIGNMENT == 0
    requires KernelMaps(h, ArenaTotal(size, page), page, grant)
    ensures var (h', ptr) := MallocSized(h, size, page, grant); Serves(h, n, size, grant, h', ptr)
  {
    var i := FindFit(h.blocks, size, 0);
    if i < |h.blocks| {
      FitServes(h, n, size, grant, i);
    } else if grant.None? {
      RefusalServes(h, n, size);
    } else {
      MallocGrows(h, n, size, page, grant.value);
    }
  }

  lemma FitsSomewhere(blocks: seq<Block>, size: nat)
    ensures FindFit(blocks, size, 0) == |blocks| <==> forall b :: b in blocks ==> !(b.free && b.size >= size)
  {
    var i := FindFit(blocks, size, 0);
    if i < |blocks| {
      assert blocks[i] in blocks;
    }
  }

  lemma GrowThenTake(h: Heap, n: nat, size: nat, total: nat, page: nat, base: nat)
    requires WellFormed(h) && ValidPage(page) && n <= size && size % ALIGNMENT == 0 && base > 0 && base % page == 0
    requires total >= HEADER + size && total % page == 0 && Fresh(h.arenas, Arena(base, total))
    ensures var j, grown := Rank(h.blocks, base), Grow(h, base, total);
      && j < |grown.blocks| && size <= grown.blocks[j].size
      && WellFormed(Take(grown, j, size))
      && Grants(h, Take(grown, j, size), n, size, base + HEADER)
  {
    var j, grown := Rank(h.blocks, base), Grow(h, base, total);
    PageAligned(base, page);
    PageAligned(total, page);
    GrowWellFormed(h, base, total);
    RankFindsNew(h, base, total);
    TakeWellFormed(grown, j, size);
    TakeGrants(grown, j, n, size);
    InsertLive(h.blocks, j, Block(base, total - HEADER, true));
    InsertKeepsBlocks(h.blocks, j, Block(base, total - HEADER, true));
  }

  lemma InsertKeepsBlocks(blocks: seq<Block>, i: nat, b: Block)
    requires i <= |blocks|
    ensures forall x :: x in blocks ==> x in Insert(blocks, i, b)
  {
    forall x | x in blocks
      ensures x in Insert(blocks, i, b)
    {
      var k :| 0 <= k < |blocks| && blocks[k] == x;
      assert Insert(blocks, i, b)[if k < i then k else k + 1] == x;
    }
  }

  /** free keeps the heap well formed and ends the life of exactly the one block. */
  lemma FreeCorrect(h: Heap, ptr: nat)
    requires WellFormed(h) && (ptr == 0 || IsLive(h, ptr))
    ensures WellFormed(Free(h, ptr)) && Free(h, ptr).arenas == h.arenas
    ensures ptr == 0 ==> Free(h, ptr) == h
    ensures ptr != 0 ==> Live(Free(h, ptr).blocks) == Live(h.blocks) - {h.blocks[IndexOf(h.blocks, ptr)]}
  {
    if ptr != 0 {
      var i := IndexOf(h.blocks, ptr);
      ReleaseWellFormed(h, i);
      ReleaseLive(h.blocks, i);
    }
  }

  lemma ReleaseLive(blocks: seq<Block>, i: nat)
    requires Ordered(blocks) && i < |blocks| && !blocks[i].free
    ensures Live(Release(blocks, i)) == Live(blocks) - {blocks[i]}
  {
    var freed := SetFree(blocks, i, true);
    var merged := Coalesce(freed, i);
    SetFreeLive(blocks, i, true);
    CoalesceLive(freed, i);
    if i > 0 && merged[i - 1].free {
      CoalesceLive(merged, i - 1);
    }
  }

  /** Live blocks never overlap. */
  lemma LiveDisjoint(h: Heap, b: Block, c: Block, a: int)
    requires WellFormed(h) && b in Live(h.blocks) && c in Live(h.blocks) && b != c
    ensures !(b.Covers(a) && c.Covers(a))
  {
    var i :| 0 <= i < |h.blocks| && h.blocks[i] == b;
    var j :| 0 <= j < |h.blocks| && h.blocks[j] == c;
    assert i < j || j < i;
  }

  // ----- Every sequence of calls -----

  datatype Call = Alloc(n: nat, grant: Option<nat>) | Dealloc(ptr: nat)

  function Step(h: Heap, c: Call, page: nat): (r: Heap)
    requires ValidPage(page)
  {
    match c
    case Alloc(n, grant) => Malloc(h, n, page, grant).0
    case Dealloc(ptr) => if ptr == 0 || IsLive(h, ptr) then Free(h, ptr) else h
  }

  /** The kernel keeps its promise and only null or live pointers are freed. */
  ghost predicate Legal(h: Heap, c: Call, page: nat)
    requires ValidPage(page)
  {
    match c
    case Alloc(n, grant) => KernelMaps(h, ArenaTotal(RoundUp(n, ALIGNMENT), page), page, grant)
    case Dealloc(ptr) => ptr == 0 || IsLive(h, ptr)
  }

  function Run(h: Heap, calls: seq<Call>, page: nat): (r: Heap)
    requires ValidPage(page)
  {
    if calls == [] then h else Step(Run(h, calls[..|calls| - 1], page), calls[|calls| - 1], page)
  }

  ghost predicate LegalRun(h: Heap, calls: seq<Call>, page: nat)
    requires ValidPage(page)
  {
    calls == [] ||
    (LegalRun(h, calls[..|calls| - 1], page) && Legal(Run(h, calls[..|calls| - 1], page), calls[|calls| - 1], page))
  }

  const EMPTY: Heap := Heap([], [], 0)

  lemma {:induction false} RunWellFormed(calls: seq<Call>, page: nat)
    requires ValidPage(page) && LegalRun(EMPTY, calls, page)
    ensures WellFormed(Run(EMPTY, calls, page))
  {
    if calls == [] {
      assert forall a: int :: !InBlocks(EMPTY.blocks, a) && !InArenas(EMPTY.arenas, a);
    } else {
      var prefix, last := calls[..|calls| - 1], calls[|calls| - 1];
      RunWellFormed(prefix, page);
      var h := Run(EMPTY, prefix, page);
      match last
      case Alloc(n, grant) => MallocCorrect(h, n, page, grant);
      case Dealloc(ptr) => FreeCorrect(h, ptr);
    }
  }

  // ----- Statistics -----

  datatype Stats = Stats(allocatedBytes: nat, allocatedBlocks: nat, freeBytes: nat, freeBlocks: nat)

  /** What my_allocator_get_stats adds up over the first k blocks. */
  function StatsOf(blocks: seq<Block>, k: nat): (r: Stats)
    requires k <= |blocks|
  {
    if k == 0 then Stats(0, 0, 0, 0)
    else
      var s, b := StatsOf(blocks, k - 1), blocks[k - 1];
      if b.free then s.(freeBytes := s.freeBytes + b.size, freeBlocks := s.freeBlocks + 1)
      else s.(allocatedBytes := s.allocatedBytes + b.size, allocatedBlocks := s.allocatedBlocks + 1)
  }

  lemma {:induction false} StatsAddUp(blocks: seq<Block>, k: nat)
    requires k <= |blocks|
    ensures var s := StatsOf(blocks, k);
      s.allocatedBytes + s.freeBytes + HEADER * (s.allocatedBlocks + s.freeBlocks) == Bytes(blocks[..k])
  {
    if k > 0 {
      StatsAddUp(blocks, k - 1);
      BytesConcat(blocks[..k - 1], [blocks[k - 1]]);
      BytesOfTwo(blocks[k - 1], blocks[k - 1]);
      assert blocks[..k] == blocks[..k - 1] + [blocks[k - 1]];
    }
  }

  lemma StatsConserved(h: Heap)
    requires WellFormed(h)
    ensures var s := StatsOf(h.blocks, |h.blocks|);
      s.allocatedBytes + s.freeBytes + HEADER * (s.allocatedBlocks + s.freeBlocks) == h.mapped
  {
    StatsAddUp(h.blocks, |h.blocks|);
    assert h.blocks[..|h.blocks|] == h.blocks;
  }

  /** Every mapped byte is in a header, in a live payload or free, whatever was called. */
  lemma BytesConserved(calls: seq<Call>, page: nat)
    requires ValidPage(page) && LegalRun(EMPTY, calls, page)
    ensures var h := Run(EMPTY, calls, page); var s := StatsOf(h.blocks, |h.blocks|);
      s.allocatedBytes + s.freeBytes + HEADER * (s.allocatedBlocks + s.freeBlocks) == h.mapped
  {
    var h := Run(EMPTY, calls, page);
    RunWellFormed(calls, page);
    StatsConserved(h);
  }

  // ----- Single arenas -----

  /** In one arena there are no gaps between blocks. */
  lemma SingleArenaHasNoGaps(h: Heap, i: nat)
    requires WellFormed(h) && |h.arenas| == 1 && i + 1 < |h.blocks|
    ensures h.blocks[i].End() == h.blocks[i + 1].addr
  {
    var b, next, arena := h.blocks[i], h.blocks[i + 1], h.arenas[0];
    assert b.Covers(b.addr) && next.Covers(next.addr);
    assert InBlocks(h.blocks, b.addr) && InBlocks(h.blocks, next.addr);
    assert arena.Covers(b.addr) && arena.Covers(next.addr);
    assert b.End() < next.addr ==> arena.Covers(b.End());
    assert b.End() < next.addr ==> InArenas(h.arenas, b.End());
    if b.End() < next.addr {
      GapIsOutside(h.blocks, i, b.End());
    }
  }

  lemma GapIsOutside(blocks: seq<Block>, i: nat, a: int)
    requires Ordered(blocks) && i + 1 < |blocks| && blocks[i].End() <= a < blocks[i + 1].addr
    ensures !InBlocks(blocks, a)
  {
    forall k | 0 <= k < |blocks|
      ensures !blocks[k].Covers(a)
    {
      assert k < i ==> blocks[k].End() <= blocks[i].addr;
      assert k > i + 1 ==> blocks[i + 1].End() <= blocks[k].addr;
    }
  }

  lemma FreeBlocksMeet(h: Heap)
    requires WellFormed(h) && |h.arenas| == 1 && |h.blocks| > 1 && h.blocks[0].free && h.blocks[1].free
    ensures FreePair(h.blocks, 0)
  {
    SingleArenaHasNoGaps(h, 0);
  }

  /** Nothing lives in a single arena: it is one free block from end to end. */
  lemma IdleSingleArenaIsOneBlock(h: Heap)
    requires WellFormed(h) && |h.arenas| == 1 && h.arenas[0].length > 0 && Live(h.blocks) == {}
    ensures |h.blocks| == 1 && h.blocks[0].free
    ensures h.blocks[0].addr == h.arenas[0].base && h.blocks[0].End() == h.arenas[0].base + h.arenas[0].length
  {
    var arena := h.arenas[0];
    assert arena.Covers(arena.base);
    assert InArenas(h.arenas, arena.base);
    assert InBlocks(h.blocks, arena.base);
    forall k | 0 <= k < |h.blocks|
      ensures h.blocks[k].free && arena.Covers(h.blocks[k].addr)
    {
      assert h.blocks[k] in h.blocks;
      assert h.blocks[k] !in Live(h.blocks);
      assert h.blocks[k].Covers(h.blocks[k].addr);
      assert InBlocks(h.blocks, h.blocks[k].addr);
    }
    if |h.blocks| > 1 {
      FreeBlocksMeet(h);
    } else {
      assert h.blocks[0].addr == arena.base;
      assert Bytes(h.blocks) == HEADER + h.blocks[0].size by {
        BytesOfTwo(h.blocks[0], h.blocks[0]);
        assert h.blocks == [h.blocks[0]];
      }
      assert ArenaBytes(h.arenas[..0]) == 0;
    }
  }

  /** The pointers of all live blocks, each once, in the order they will be freed. */
  ghost predicate Frees(h: Heap, order: seq<nat>) {
    && |order| == |Live(h.blocks)|
    && (forall i, j :: 0 <= i < j < |order| ==> order[i] != order[j])
    && (forall i :: 0 <= i < |order| ==> IsLive(h, order[i]))
  }

  function FreeAll(h: Heap, order: seq<nat>): (r: Heap)
    decreases |order|
  {
    if order == [] then h
    else FreeAll(if order[0] == 0 || IsLive(h, order[0]) then Free(h, order[0]) else h, order[1..])
  }

  lemma IndexOfUnique(blocks: seq<Block>, i: nat)
    requires Ordered(blocks) && i < |blocks|
    ensures IndexOf(blocks, blocks[i].addr + HEADER) == i
  {
    var k := IndexOf(blocks, blocks[i].addr + HEADER);
    assert blocks[i] in blocks;
    assert k < |blocks|;
    assert k < i || k == i || i < k;
  }

  /** A pointer is live exactly when some live block has it as its payload. */
  lemma LivePointer(h: Heap, ptr: nat)
    requires Ordered(h.blocks)
    ensures IsLive(h, ptr) <==> exists b :: b in Live(h.blocks) && b.addr + HEADER == ptr
    ensures IsLive(h, ptr) ==> h.blocks[IndexOf(h.blocks, ptr)] in Live(h.blocks)
  {
    var i := IndexOf(h.blocks, ptr);
    if IsLive(h, ptr) {
      assert h.blocks[i] in h.blocks;
    }
    forall b | b in Live(h.blocks) && b.addr + HEADER == ptr
      ensures IsLive(h, ptr)
    {
      var k :| 0 <= k < |h.blocks| && h.blocks[k] == b;
      IndexOfUnique(h.blocks, k);
    }
  }

  /** A pointer other than the freed one stays live. */
  lemma StaysLive(h: Heap, ptr: nat, other: nat)
    requires WellFormed(h) && IsLive(h, ptr) && ptr != 0 && IsLive(h, other) && other != ptr
    ensures IsLive(Free(h, ptr), other)
  {
    FreeCorrect(h, ptr);
    LivePointer(h, other);
    LivePointer(Free(h, ptr), other);
    assert h.blocks[IndexOf(h.blocks, other)] in Live(Free(h, ptr).blocks);
  }

  lemma LiveIsNotNull(h: Heap, ptr: nat)
    requires WellFormed(h) && IsLive(h, ptr)
    ensures ptr != 0
  {
    assert h.blocks[IndexOf(h.blocks, ptr)].addr > 0;
  }

  /** Freeing ends one life, keeps the others, and keeps the heap well formed. */
  lemma FreeShrinks(h: Heap, ptr: nat)
    requires WellFormed(h) && IsLive(h, ptr)
    ensures ptr != 0 && WellFormed(Free(h, ptr)) && |Live(Free(h, ptr).blocks)| == |Live(h.blocks)| - 1
  {
    LiveIsNotNull(h, ptr);
    FreeCorrect(h, ptr);
    LivePointer(h, ptr);
  }

  lemma OthersStayLive(h: Heap, order: seq<nat>)
    requires WellFormed(h) && Frees(h, order) && order != [] && order[0] != 0
    ensures forall k :: 0 <= k < |order[1..]| ==> IsLive(Free(h, order[0]), order[1..][k])
  {
    forall k | 0 <= k < |order[1..]|
      ensures IsLive(Free(h, order[0]), order[1..][k])
    {
      assert order[1..][k] == order[k + 1] && order[0] != order[k + 1];
      StaysLive(h, order[0], order[k + 1]);
    }
  }

  lemma DistinctTail(order: seq<nat>)
    requires order != [] && forall i, j :: 0 <= i < j < |order| ==> order[i] != order[j]
    ensures forall i, j :: 0 <= i < j < |order[1..]| ==> order[1..][i] != order[1..][j]
  {
  }

  /** Freeing one pointer leaves the others to be freed. */
  lemma FreesRest(h: Heap, order: seq<nat>)
    requires WellFormed(h) && Frees(h, order) && order != []
    ensures WellFormed(Free(h, order[0])) && Frees(Free(h, order[0]), order[1..])
  {
    FreeShrinks(h, order[0]);
    OthersStayLive(h, order);
    DistinctTail(order);
  }

  /** Freeing every live block of a single-arena heap, in any order, leaves one block spanning the arena. */
  lemma {:induction false} FreeAllRestoresArena(h: Heap, order: seq<nat>)
    requires WellFormed(h) && |h.arenas| == 1 && h.arenas[0].length > 0 && Frees(h, order)
    ensures var r := FreeAll(h, order);
      && r.arenas == h.arenas && |r.blocks| == 1 && r.blocks[0].free
      && r.blocks[0].addr == h.arenas[0].base && r.blocks[0].End() == h.arenas[0].base + h.arenas[0].length
    decreases |order|
  {
    if order == [] {
      IdleSingleArenaIsOneBlock(h);
    } else {
      FreesRest(h, order);
      FreeAllRestoresArena(Free(h, order[0]), order[1..]);
    }
  }

  // ----- malloc undone by free -----

  /** Block i touches a free neighbour that freeing it again would absorb, or be absorbed by. */
  predicate MergesBack(blocks: seq<Block>, i: nat, size: nat)
    requires i < |blocks|
  {
    || (i > 0 && blocks[i - 1].free && blocks[i - 1].End() == blocks[i].addr)
    || (!Splits(blocks[i], size) && Absorbs(blocks, i))
  }

  lemma ReleaseTaken(blocks: seq<Block>, i: nat, size: nat)
    requires i < |blocks| && blocks[i].free && size <= blocks[i].size
    ensures Release(SetFree(Split(blocks, i, size), i, false), i) == blocks <==> !MergesBack(blocks, i, size)
  {
    var taken := SetFree(Split(blocks, i, size), i, false);
    var freed := SetFree(taken, i, true);
    assert freed == Split(blocks, i, size);
    var merged := Coalesce(freed, i);
    if Splits(blocks[i], size) {
      assert Absorbs(freed, i);
      assert merged == blocks;
    } else {
      assert freed == blocks;
      assert Absorbs(blocks, i) ==> |merged| == |blocks| - 1;
    }
  }

  /** Handing block i out makes its payload live, and freeing it again restores the heap unless it merges. */
  lemma TakeThenFree(h: Heap, i: nat, size: nat)
    requires WellFormed(h) && i < |h.blocks| && h.blocks[i].free && size <= h.blocks[i].size && size % ALIGNMENT == 0
    ensures var h', ptr := Take(h, i, size), h.blocks[i].addr + HEADER;
      IsLive(h', ptr) && (Free(h', ptr) == h <==> !MergesBack(h.blocks, i, size))
  {
    TakeWellFormed(h, i, size);
    IndexOfUnique(Take(h, i, size).blocks, i);
    ReleaseTaken(h.blocks, i, size);
  }

  lemma MallocTakes(h: Heap, n: nat, page: nat, size: nat, i: nat)
    requires ValidPage(page) && n > 0 && size == RoundUp(n, ALIGNMENT) && i == FindFit(h.blocks, size, 0) < |h.blocks|
    ensures Malloc(h, n, page, None) == (Take(h, i, size), h.blocks[i].addr + HEADER)
  {
  }

  /** malloc served from an existing block, then free: the heap is restored exactly unless the block borders a free one. */
  lemma MallocThenFree(h: Heap, n: nat, page: nat)
    requires WellFormed(h) && ValidPage(page) && n > 0
    requires FindFit(h.blocks, RoundUp(n, ALIGNMENT), 0) < |h.blocks|
    ensures var (h', ptr) := Malloc(h, n, page, None);
      var size, i := RoundUp(n, ALIGNMENT), FindFit(h.blocks, RoundUp(n, ALIGNMENT), 0);
      && IsLive(h', ptr)
      && (Free(h', ptr) == h <==> !MergesBack(h.blocks, i, size))
  {
    var size, i := RoundUp(n, ALIGNMENT), FindFit(h.blocks, RoundUp(n, ALIGNMENT), 0);
    MallocTakes(h, n, page, size, i);
    TakeThenFree(h, i, size);
  }

  /** Such borders exist only at arena seams, so in a single arena free always undoes malloc. */
  lemma SingleArenaMallocThenFree(h: Heap, n: nat, page: nat)
    requires WellFormed(h) && ValidPage(page) && n > 0 && |h.arenas| == 1
    requires FindFit(h.blocks, RoundUp(n, ALIGNMENT), 0) < |h.blocks|
    ensures var (h', ptr) := Malloc(h, n, page, None); IsLive(h', ptr) && Free(h', ptr) == h
  {
    var i: int := FindFit(h.blocks, RoundUp(n, ALIGNMENT), 0);
    MallocThenFree(h, n, page);
    NoPairInSingleArena(h, i - 1);
    NoPairInSingleArena(h, i);
  }

  lemma NoPairInSingleArena(h: Heap, k: int)
    requires WellFormed(h) && |h.arenas| == 1
    ensures !FreePair(h.blocks, k)
  {
    if FreePair(h.blocks, k) {
      assert h.blocks[k].Covers(h.blocks[k].addr);
      assert InBlocks(h.blocks, h.blocks[k].addr);
    }
  }
}
