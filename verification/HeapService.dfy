/** Where malloc finds its blocks, and what the statistics count. */
module HeapService {
  import opened Basics
  import opened Rounding
  import opened HeapModel
  import opened HeapRuns

  // ----- Placement -----

  predicate Fitting(b: Block, size: nat) { b.free && b.size >= size }

  /** The lowest free block that is large enough. */
  ghost predicate LowestFit(blocks: seq<Block>, size: nat, b: Block) {
    && b in blocks && Fitting(b, size)
    && forall c :: c in blocks && Fitting(c, size) ==> b.addr <= c.addr
  }

  lemma FirstIsLowest(blocks: seq<Block>, size: nat)
    requires Ordered(blocks) && FindFit(blocks, size, 0) < |blocks|
    ensures LowestFit(blocks, size, blocks[FindFit(blocks, size, 0)])
  {
    var i := FindFit(blocks, size, 0);
    forall c | c in blocks && Fitting(c, size)
      ensures blocks[i].addr <= c.addr
    {
      var k :| 0 <= k < |blocks| && blocks[k] == c;
      assert k > i ==> blocks[i].End() <= blocks[k].addr;
    }
  }

  /** An arena for a request: whole pages, no more than needed to hold it and to be of the least size. */
  predicate JustLargeEnough(length: nat, size: nat, page: nat)
    requires page > 0
  {
    && length % page == 0
    && length >= 65536 && length >= 48 + size
    && (length < 65536 + page || length < 48 + size + page)
  }

  /**
   A request is served from the lowest free block that fits; the arenas then stay as they were. If none fits, the
   kernel is asked for just enough, and the request is served from the start of the new arena.
   */
  lemma MallocPlaced(h: Heap, n: nat, page: nat, grant: Option<nat>)
    requires WellFormed(h) && ValidPage(page) && n > 0
    ensures var (h', ptr) := Malloc(h, n, page, grant); var size := RoundUp(n, ALIGNMENT);
      && (forall b :: LowestFit(h.blocks, size, b) ==> ptr == b.addr + 48 && h'.arenas == h.arenas && h'.mapped == h.mapped)
      && ((forall b :: b in h.blocks ==> !Fitting(b, size)) && grant.Some? ==>
            var length := ArenaTotal(size, page);
            && ptr == grant.value + 48 && JustLargeEnough(length, size, page)
            && h'.arenas == h.arenas + [Arena(grant.value, length)] && h'.mapped == h.mapped + length)
  {
    var size := RoundUp(n, ALIGNMENT);
    FitsSomewhere(h.blocks, size);
    if FindFit(h.blocks, size, 0) < |h.blocks| {
      FirstIsLowest(h.blocks, size);
    }
  }

  // ----- Statistics -----

  function Idle(blocks: seq<Block>): (r: set<Block>) { set b | b in blocks && b.free }

  ghost function Sum(bs: set<Block>): (r: nat) {
    if bs == {} then 0
    else
      var b :| b in bs;
      b.size + Sum(bs - {b})
  }

  lemma {:induction false} SumRemove(bs: set<Block>, b: Block)
    requires b in bs
    ensures Sum(bs) == b.size + Sum(bs - {b})
    decreases |bs|
  {
    var c :| c in bs && Sum(bs) == c.size + Sum(bs - {c});
    if c != b {
      SumRemove(bs - {c}, b);
      SumRemove(bs - {b}, c);
      assert bs - {c} - {b} == bs - {b} - {c};
    }
  }

  lemma SumAdd(bs: set<Block>, b: Block)
    requires b !in bs
    ensures Sum(bs + {b}) == Sum(bs) + b.size && |bs + {b}| == |bs| + 1
  {
    SumRemove(bs + {b}, b);
    assert bs + {b} - {b} == bs;
  }

  lemma PrefixSets(blocks: seq<Block>, k: nat)
    requires Ordered(blocks) && 0 < k <= |blocks|
    ensures blocks[k - 1] !in blocks[..k - 1]
    ensures Live(blocks[..k]) == Live(blocks[..k - 1]) + if blocks[k - 1].free then {} else {blocks[k - 1]}
    ensures Idle(blocks[..k]) == Idle(blocks[..k - 1]) + if blocks[k - 1].free then {blocks[k - 1]} else {}
  {
    assert blocks[..k] == blocks[..k - 1] + [blocks[k - 1]];
    forall i | 0 <= i < k - 1
      ensures blocks[i] != blocks[k - 1]
    {
      assert blocks[i].End() <= blocks[k - 1].addr;
    }
  }

  ghost function Totals(live: set<Block>, idle: set<Block>): (r: Stats) {
    Stats(Sum(live), |live|, Sum(idle), |idle|)
  }

  lemma TotalsAdd(live: set<Block>, idle: set<Block>, b: Block)
    requires b !in live && b !in idle
    ensures var s := Totals(live, idle);
      Totals(live + (if b.free then {} else {b}), idle + (if b.free then {b} else {}))
      == if b.free then s.(freeBytes := s.freeBytes + b.size, freeBlocks := s.freeBlocks + 1)
        else s.(allocatedBytes := s.allocatedBytes + b.size, allocatedBlocks := s.allocatedBlocks + 1)
  {
    assert live + {} == live && idle + {} == idle;
    if b.free {
      SumAdd(idle, b);
    } else {
      SumAdd(live, b);
    }
  }

  lemma StatsStep(blocks: seq<Block>, k: nat, live: set<Block>, idle: set<Block>, b: Block)
    requires 0 < k <= |blocks| && b == blocks[k - 1] && b !in live && b !in idle && StatsOf(blocks, k - 1) == Totals(live, idle)
    ensures StatsOf(blocks, k) == Totals(live + (if b.free then {} else {b}), idle + (if b.free then {b} else {}))
  {
    TotalsAdd(live, idle, b);
  }

  lemma NoBlocks(blocks: seq<Block>)
    ensures StatsOf(blocks, 0) == Totals(Live(blocks[..0]), Idle(blocks[..0]))
  {
    assert Live(blocks[..0]) == {} && Idle(blocks[..0]) == {};
  }

  lemma {:induction false} StatsOfPrefix(blocks: seq<Block>, k: nat)
    requires Ordered(blocks) && k <= |blocks|
    ensures StatsOf(blocks, k) == Totals(Live(blocks[..k]), Idle(blocks[..k]))
  {
    if k == 0 {
      NoBlocks(blocks);
    } else {
      StatsOfPrefix(blocks, k - 1);
      PrefixSets(blocks, k);
      StatsStep(blocks, k, Live(blocks[..k - 1]), Idle(blocks[..k - 1]), blocks[k - 1]);
    }
  }

  /** The statistics count the live blocks and their bytes as allocated, and the others as free. */
  lemma StatsExact(h: Heap)
    requires WellFormed(h)
    ensures var s := StatsOf(h.blocks, |h.blocks|); var live, idle := Live(h.blocks), Idle(h.blocks);
      && s.allocatedBlocks == |live| && s.allocatedBytes == Sum(live)
      && s.freeBlocks == |idle| && s.freeBytes == Sum(idle)
  {
    assert h.blocks[..|h.blocks|] == h.blocks;
    StatsOfPrefix(h.blocks, |h.blocks|);
  }
}
