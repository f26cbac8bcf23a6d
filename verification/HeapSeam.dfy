/**
 A run of malloc and free after which free does not undo malloc: two arenas come to lie side by side, both
 wholly free, and taking the first and giving it back fuses them.
 */
module HeapSeam {
  import opened Basics
  import opened Rounding
  import opened HeapModel
  import opened HeapRuns

  const PAGE: nat := 4096

  const LOW: Arena := Arena(65536, 65536)
  const HIGH: Arena := Arena(131072, 65536)

  // The heaps after each of the calls.
  const H1: Heap := Heap([Block(131072, 16, false), Block(131136, 65424, true)], [HIGH], 65536)
  const H2: Heap := Heap([Block(131072, 16, false), Block(131136, 16, false), Block(131200, 65360, true)], [HIGH], 65536)
  const H3: Heap := Heap([Block(131072, 16, true), Block(131136, 16, false), Block(131200, 65360, true)], [HIGH], 65536)
  const H4: Heap := Heap([Block(65536, 65392, false), Block(130976, 48, true), Block(131072, 16, true),
                          Block(131136, 16, false), Block(131200, 65360, true)], [HIGH, LOW], 131072)
  const H5: Heap := Heap([Block(65536, 65392, false), Block(130976, 48, true), Block(131072, 65488, true)], [HIGH, LOW], 131072)
  const H6: Heap := Heap([Block(65536, 65488, true), Block(131072, 65488, true)], [HIGH, LOW], 131072)

  const C1: Call := Alloc(16, Some(131072))
  const C2: Call := Alloc(16, None)
  const C3: Call := Dealloc(131120)
  const C4: Call := Alloc(65392, Some(65536))
  const C5: Call := Dealloc(131184)
  const C6: Call := Dealloc(65584)

  const SEAM_RUN: seq<Call> := [C1, C2, C3, C4, C5, C6]

  /** A call takes one heap to the next, with the kernel and the caller keeping their promises. */
  ghost predicate Leads(h: Heap, c: Call, h': Heap) { Legal(h, c, PAGE) && Step(h, c, PAGE) == h' }

  lemma Totals()
    ensures ArenaTotal(16, PAGE) == 65536 && ArenaTotal(65392, PAGE) == 65536
    ensures RoundUp(16, ALIGNMENT) == 16 && RoundUp(65392, ALIGNMENT) == 65392 && RoundUp(65488, ALIGNMENT) == 65488
  {
    assert 65536 % PAGE == 0;
  }

  /** Malloc from the block at index i, which leaves a free tail. */
  lemma TakeSplits(h: Heap, i: nat, size: nat)
    requires i < |h.blocks| && Splits(h.blocks[i], size)
    ensures var b := h.blocks[i];
      Take(h, i, size).blocks == h.blocks[..i]
        + [Block(b.addr, size, false), Block(b.addr + HEADER + size, b.size - size - HEADER, true)] + h.blocks[i + 1..]
  {
  }

  lemma First()
    ensures Leads(EMPTY, C1, H1)
  {
    Totals();
    var grown := Grow(EMPTY, 131072, 65536);
    assert FindFit([], 16, 0) == 0;
    assert grown.blocks == [Block(131072, 65488, true)];
    TakeSplits(grown, 0, 16);
    assert Take(grown, 0, 16).blocks == H1.blocks;
    assert grown.arenas == [HIGH];
  }

  lemma Second()
    ensures Leads(H1, C2, H2)
  {
    Totals();
    assert FindFit(H1.blocks, 16, 1) == 1;
    TakeSplits(H1, 1, 16);
    assert Take(H1, 1, 16).blocks == H2.blocks;
  }

  lemma Third()
    ensures Leads(H2, C3, H3)
  {
    assert IndexOf(H2.blocks, 131120) == 0;
    assert Release(H2.blocks, 0) == H3.blocks;
  }

  lemma Fourth()
    ensures Leads(H3, C4, H4)
  {
    Totals();
    assert FindFit(H3.blocks, 65392, 3) == 3;
    assert FindFit(H3.blocks, 65392, 2) == 3;
    assert FindFit(H3.blocks, 65392, 1) == 3;
    var grown := Grow(H3, 65536, 65536);
    assert Rank(H3.blocks, 65536) == 0;
    assert grown.blocks == [Block(65536, 65488, true)] + H3.blocks;
    TakeSplits(grown, 0, 65392);
    assert Take(grown, 0, 65392).blocks == H4.blocks;
  }

  lemma Fifth()
    ensures Leads(H4, C5, H5)
  {
    var blocks := H4.blocks;
    assert IndexOf(blocks[3..], 131184) == 0;
    assert IndexOf(blocks[2..], 131184) == 1;
    assert IndexOf(blocks[1..], 131184) == 2;
    assert IndexOf(blocks, 131184) == 3;
    var freed := SetFree(blocks, 3, true);
    var merged := Coalesce(freed, 3);
    assert merged == blocks[..3] + [Block(131136, 65424, true)];
    assert Coalesce(merged, 2) == H5.blocks;
  }

  lemma Sixth()
    ensures Leads(H5, C6, H6)
  {
    assert IndexOf(H5.blocks, 65584) == 0;
    assert Coalesce(SetFree(H5.blocks, 0, true), 0) == H6.blocks;
  }

  /** The calls, made from the empty heap, lead to h. */
  ghost predicate Reaches(calls: seq<Call>, h: Heap) {
    ValidPage(PAGE) && LegalRun(EMPTY, calls, PAGE) && Run(EMPTY, calls, PAGE) == h
  }

  lemma Extend(calls: seq<Call>, c: Call, h: Heap, h': Heap)
    requires Reaches(calls, h) && Leads(h, c, h')
    ensures Reaches(calls + [c], h')
  {
    assert (calls + [c])[..|calls|] == calls;
  }

  lemma Reach1()
    ensures Reaches([C1], H1)
  {
    First();
    Extend([], C1, EMPTY, H1);
    assert [] + [C1] == [C1];
  }

  lemma Reach2()
    ensures Reaches([C1, C2], H2)
  {
    Reach1();
    Second();
    Extend([C1], C2, H1, H2);
    assert [C1] + [C2] == [C1, C2];
  }

  lemma Reach3()
    ensures Reaches([C1, C2, C3], H3)
  {
    Reach2();
    Third();
    Extend([C1, C2], C3, H2, H3);
    assert [C1, C2] + [C3] == [C1, C2, C3];
  }

  lemma Reach4()
    ensures Reaches([C1, C2, C3, C4], H4)
  {
    Reach3();
    Fourth();
    Extend([C1, C2, C3], C4, H3, H4);
    assert [C1, C2, C3] + [C4] == [C1, C2, C3, C4];
  }

  lemma Reach5()
    ensures Reaches([C1, C2, C3, C4, C5], H5)
  {
    Reach4();
    Fifth();
    Extend([C1, C2, C3, C4], C5, H4, H5);
    assert [C1, C2, C3, C4] + [C5] == [C1, C2, C3, C4, C5];
  }

  lemma Reach6()
    ensures Reaches([C1, C2, C3, C4, C5, C6], H6)
  {
    Reach5();
    Sixth();
    Extend([C1, C2, C3, C4, C5], C6, H5, H6);
    assert [C1, C2, C3, C4, C5] + [C6] == [C1, C2, C3, C4, C5, C6];
  }

  /** The allocator gets there. */
  lemma SeamIsReached()
    ensures Reaches(SEAM_RUN, H6)
  {
    Reach6();
  }

  /** There, free does not undo malloc. */
  lemma SeamIsLost()
    ensures var h := Run(EMPTY, SEAM_RUN, PAGE);
      var (h', ptr) := Malloc(h, 65488, PAGE, None);
      && LegalRun(EMPTY, SEAM_RUN, PAGE) && IsLive(h', ptr)
      && Free(h', ptr) != h && Free(h', ptr).blocks == [Block(65536, 131024, true)]
  {
    SeamIsReached();
    Totals();
    assert FindFit(H6.blocks, 65488, 0) == 0;
    var taken := SetFree(H6.blocks, 0, false);
    assert Malloc(H6, 65488, PAGE, None) == (H6.(blocks := taken), 65584);
    assert IndexOf(taken, 65584) == 0;
    assert Coalesce(SetFree(taken, 0, true), 0) == [Block(65536, 131024, true)];
  }
}
