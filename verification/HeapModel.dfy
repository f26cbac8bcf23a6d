/**
 The allocator's heap as blocks in address order: first fit, split, coalesce and
 arena growth, and what each of these keeps.
 */
module HeapModel {
  import opened Basics
  import opened Rounding

  const ALIGNMENT: nat := 16
  const HEADER: nat := 48        // sizeof(BlockHeader) is 40; aligned_size rounds it to 48
  const ARENA_MIN: nat := 65536

  datatype Block = Block(addr: nat, size: nat, free: bool) {
    function End(): (r: nat) { addr + HEADER + size }
    predicate Covers(a: int) { addr <= a < End() }
    predicate Aligned() { addr > 0 && addr % ALIGNMENT == 0 && size % ALIGNMENT == 0 }
  }

  datatype Arena = Arena(base: nat, length: nat) {
    predicate Covers(a: int) { base <= a < base + length }
  }

  // ----- Operations -----

  /** Index of the first free block of at least `size` bytes at or after `from`, or |blocks|. */
  function FindFit(blocks: seq<Block>, size: nat, from: nat): (i: nat)
    requires from <= |blocks|
    ensures from <= i <= |blocks|
    ensures i < |blocks| ==> blocks[i].free && blocks[i].size >= size
    ensures forall k :: from <= k < i ==> !(blocks[k].free && blocks[k].size >= size)
    decreases |blocks| - from
  {
    if from == |blocks| then from
    else if blocks[from].free && blocks[from].size >= size then from
    else FindFit(blocks, size, from + 1)
  }

  /** Number of blocks that lie before `addr`: where insert_sorted puts a block. */
  function Rank(blocks: seq<Block>, addr: nat): (i: nat)
    ensures i <= |blocks|
    ensures forall k :: 0 <= k < i ==> blocks[k].addr < addr
    ensures i < |blocks| ==> blocks[i].addr >= addr
  {
    if blocks == [] || blocks[0].addr >= addr then 0 else 1 + Rank(blocks[1..], addr)
  }

  function Insert(blocks: seq<Block>, i: nat, b: Block): (r: seq<Block>)
    requires i <= |blocks|
  {
    blocks[..i] + [b] + blocks[i..]
  }

  predicate Splits(b: Block, size: nat) { b.size >= size + HEADER + ALIGNMENT }

  /** split_block: a block with room to spare keeps `size` bytes and a free tail follows it. */
  function Split(blocks: seq<Block>, i: nat, size: nat): (r: seq<Block>)
    requires i < |blocks| && size <= blocks[i].size
  {
    var b := blocks[i];
    if Splits(b, size) then
      blocks[..i] + [b.(size := size), Block(b.addr + HEADER + size, b.size - size - HEADER, true)] + blocks[i + 1..]
    else blocks
  }

  function SetFree(blocks: seq<Block>, i: nat, free: bool): (r: seq<Block>)
    requires i < |blocks|
  {
    blocks[i := blocks[i].(free := free)]
  }

  /** Block i is followed, without a gap, by a free block. */
  predicate Absorbs(blocks: seq<Block>, i: int) {
    0 <= i && i + 1 < |blocks| && blocks[i + 1].free && blocks[i].End() == blocks[i + 1].addr
  }

  /** coalesce_with_next. */
  function Coalesce(blocks: seq<Block>, i: nat): (r: seq<Block>)
    requires i < |blocks|
    ensures i < |r|
  {
    if Absorbs(blocks, i) then
      blocks[..i] + [blocks[i].(size := blocks[i].size + HEADER + blocks[i + 1].size)] + blocks[i + 2..]
    else blocks
  }

  /** my_free of block i. */
  function Release(blocks: seq<Block>, i: nat): (r: seq<Block>)
    requires i < |blocks|
  {
    var merged := Coalesce(SetFree(blocks, i, true), i);
    if i > 0 && merged[i - 1].free && merged[i - 1].End() == merged[i].addr then Coalesce(merged, i - 1) else merged
  }

  // ----- Well-formed heaps -----

  ghost predicate Ordered(blocks: seq<Block>) {
    forall i, j :: 0 <= i < j < |blocks| ==> blocks[i].End() <= blocks[j].addr
  }

  ghost predicate AllAligned(blocks: seq<Block>) {
    forall i :: 0 <= i < |blocks| ==> blocks[i].Aligned()
  }

  ghost predicate InBlocks(blocks: seq<Block>, a: int) {
    exists i :: 0 <= i < |blocks| && blocks[i].Covers(a)
  }

  ghost predicate InArenas(arenas: seq<Arena>, a: int) {
    exists i :: 0 <= i < |arenas| && arenas[i].Covers(a)
  }

  /** The blocks tile the mapped arenas exactly. */
  ghost predicate Tiles(blocks: seq<Block>, arenas: seq<Arena>) {
    forall a: int {:trigger InBlocks(blocks, a)} {:trigger InArenas(arenas, a)} :: InBlocks(blocks, a) <==> InArenas(arenas, a)
  }

  predicate IsBase(arenas: seq<Arena>, a: nat) {
    exists i :: 0 <= i < |arenas| && arenas[i].base == a
  }

  /** Two free neighbours without a gap. */
  predicate FreePair(blocks: seq<Block>, i: int) {
    0 <= i < |blocks| && blocks[i].free && Absorbs(blocks, i)
  }

  /** Coalescing is maximal, except that a block at an arena's base may stay apart. */
  ghost predicate Coalesced(blocks: seq<Block>, arenas: seq<Arena>) {
    forall i {:trigger FreePair(blocks, i)} :: FreePair(blocks, i) ==> IsBase(arenas, blocks[i + 1].addr)
  }

  function Bytes(blocks: seq<Block>): (r: nat) {
    if blocks == [] then 0 else HEADER + blocks[0].size + Bytes(blocks[1..])
  }

  function Live(blocks: seq<Block>): (r: set<Block>) {
    set b | b in blocks && !b.free
  }

  // ----- Split -----

  lemma SplitOrdered(blocks: seq<Block>, i: nat, size: nat)
    requires Ordered(blocks) && i < |blocks| && size <= blocks[i].size
    ensures Ordered(Split(blocks, i, size))
  {
  }

  lemma SplitAligned(blocks: seq<Block>, i: nat, size: nat)
    requires AllAligned(blocks) && i < |blocks| && size <= blocks[i].size && size % ALIGNMENT == 0
    ensures AllAligned(Split(blocks, i, size))
  {
    if Splits(blocks[i], size) {
      var b, split := blocks[i], Split(blocks, i, size);
      assert b.Aligned();
      AlignedCut(b.addr, b.size, size);
      forall k | 0 <= k < |split|
        ensures split[k].Aligned()
      {
        if k != i && k != i + 1 {
          assert split[k] == blocks[if k < i then k else k - 1];
        }
      }
    }
  }

  lemma AlignedCut(addr: nat, whole: nat, part: nat)
    requires addr % ALIGNMENT == 0 && whole % ALIGNMENT == 0 && part % ALIGNMENT == 0 && whole >= part + HEADER
    ensures (addr + HEADER + part) % ALIGNMENT == 0 && (whole - part - HEADER) % ALIGNMENT == 0
  {
    AlignedSum(addr, part);
    DivUnique(whole - part - HEADER, ALIGNMENT, whole / ALIGNMENT - part / ALIGNMENT - 3, 0);
  }

  lemma SplitCovers(blocks: seq<Block>, i: nat, size: nat, a: int)
    requires i < |blocks| && size <= blocks[i].size
    ensures InBlocks(Split(blocks, i, size), a) <==> InBlocks(blocks, a)
  {
    var split := Split(blocks, i, size);
    if Splits(blocks[i], size) {
      if InBlocks(blocks, a) {
        var k :| 0 <= k < |blocks| && blocks[k].Covers(a);
        var k' := if k < i then k else if k > i then k + 1 else if split[i].Covers(a) then i else i + 1;
        assert split[k'].Covers(a);
      }
      if InBlocks(split, a) {
        var k :| 0 <= k < |split| && split[k].Covers(a);
        var k' := if k <= i then k else k - 1;
        assert blocks[k'].Covers(a);
      }
    }
  }

  lemma {:induction false} BytesConcat(a: seq<Block>, b: seq<Block>)
    ensures Bytes(a + b) == Bytes(a) + Bytes(b)
  {
    if a == [] {
      assert a + b == b;
    } else {
      assert (a + b)[1..] == a[1..] + b;
      BytesConcat(a[1..], b);
    }
  }

  lemma BytesMiddle(pre: seq<Block>, mid: seq<Block>, post: seq<Block>)
    ensures Bytes(pre + mid + post) == Bytes(pre) + Bytes(mid) + Bytes(post)
  {
    BytesConcat(pre + mid, post);
    BytesConcat(pre, mid);
  }

  /** Replacing a run of blocks by one of the same extent. */
  lemma ReplaceBytes(pre: seq<Block>, old': seq<Block>, new': seq<Block>, post: seq<Block>)
    requires Bytes(old') == Bytes(new')
    ensures Bytes(pre + old' + post) == Bytes(pre + new' + post)
  {
    BytesMiddle(pre, old', post);
    BytesMiddle(pre, new', post);
  }

  lemma BytesOfTwo(a: Block, b: Block)
    ensures Bytes([a]) == HEADER + a.size
    ensures Bytes([a, b]) == HEADER + a.size + HEADER + b.size
  {
    assert [a, b] == [a] + [b];
    BytesConcat([a], [b]);
    assert [b][1..] == [] && [a][1..] == [];
  }

  lemma {:induction false} SplitBytes(blocks: seq<Block>, i: nat, size: nat)
    requires i < |blocks| && size <= blocks[i].size
    ensures Bytes(Split(blocks, i, size)) == Bytes(blocks)
  {
    var b := blocks[i];
    if Splits(b, size) {
      var kept, tail := b.(size := size), Block(b.addr + HEADER + size, b.size - size - HEADER, true);
      var pre, post := blocks[..i], blocks[i + 1..];
      assert Bytes([b]) == Bytes([kept, tail]) by {
        BytesOfTwo(kept, tail);
        BytesOfTwo(b, tail);
      }
      ReplaceBytes(pre, [b], [kept, tail], post);
      assert blocks == pre + [b] + post;
    }
  }

  /** Taking a block and splitting it: the only new free pair starts where an old one did. */
  lemma SplitCoalesced(blocks: seq<Block>, arenas: seq<Arena>, i: nat, size: nat)
    requires Coalesced(blocks, arenas) && i < |blocks| && size <= blocks[i].size && blocks[i].free
    ensures Coalesced(SetFree(Split(blocks, i, size), i, false), arenas)
  {
    var taken := SetFree(Split(blocks, i, size), i, false);
    forall k | FreePair(taken, k)
      ensures IsBase(arenas, taken[k + 1].addr)
    {
      var k' := if Splits(blocks[i], size) && k > i then k - 1 else k;
      assert FreePair(blocks, k');
    }
  }

  // ----- Coalesce -----

  lemma CoalesceOrdered(blocks: seq<Block>, i: nat)
    requires Ordered(blocks) && i < |blocks|
    ensures Ordered(Coalesce(blocks, i))
  {
  }

  lemma CoalesceAligned(blocks: seq<Block>, i: nat)
    requires AllAligned(blocks) && i < |blocks|
    ensures AllAligned(Coalesce(blocks, i))
  {
    if Absorbs(blocks, i) {
      var merged := Coalesce(blocks, i);
      AlignedSum(blocks[i].size, blocks[i + 1].size);
      forall k | 0 <= k < |merged|
        ensures merged[k].Aligned()
      {
        if k != i {
          assert merged[k] == blocks[if k < i then k else k + 1];
        }
      }
    }
  }

  lemma AlignedSum(a: nat, b: nat)
    requires a % ALIGNMENT == 0 && b % ALIGNMENT == 0
    ensures (a + HEADER + b) % ALIGNMENT == 0
  {
    DivUnique(a + HEADER + b, ALIGNMENT, a / ALIGNMENT + 3 + b / ALIGNMENT, 0);
  }

  lemma CoalesceCovers(blocks: seq<Block>, i: nat, a: int)
    requires i < |blocks|
    ensures InBlocks(Coalesce(blocks, i), a) <==> InBlocks(blocks, a)
  {
    var merged := Coalesce(blocks, i);
    if Absorbs(blocks, i) {
      if InBlocks(blocks, a) {
        var k :| 0 <= k < |blocks| && blocks[k].Covers(a);
        assert merged[if k <= i then k else k - 1].Covers(a);
      }
      if InBlocks(merged, a) {
        var k :| 0 <= k < |merged| && merged[k].Covers(a);
        var k' := if k < i then k else if k > i then k + 1 else if blocks[i].Covers(a) then i else i + 1;
        assert blocks[k'].Covers(a);
      }
    }
  }

  lemma {:induction false} CoalesceBytes(blocks: seq<Block>, i: nat)
    requires i < |blocks|
    ensures Bytes(Coalesce(blocks, i)) == Bytes(blocks)
  {
    if Absorbs(blocks, i) {
      var b, next := blocks[i], blocks[i + 1];
      var whole := b.(size := b.size + HEADER + next.size);
      var pre, post := blocks[..i], blocks[i + 2..];
      assert Bytes([b, next]) == Bytes([whole]) by {
        BytesOfTwo(whole, next);
        BytesOfTwo(b, next);
      }
      ReplaceBytes(pre, [b, next], [whole], post);
      assert blocks == pre + [b, next] + post;
    }
  }

  lemma {:induction false} SetFreeBytes(blocks: seq<Block>, i: nat, free: bool)
    requires i < |blocks|
    ensures Bytes(SetFree(blocks, i, free)) == Bytes(blocks)
  {
    var b := blocks[i];
    BytesOfTwo(b, b);
    BytesOfTwo(b.(free := free), b);
    ReplaceBytes(blocks[..i], [b], [b.(free := free)], blocks[i + 1..]);
    assert blocks == blocks[..i] + [b] + blocks[i + 1..];
    assert SetFree(blocks, i, free) == blocks[..i] + [b.(free := free)] + blocks[i + 1..];
  }

  lemma SetFreeCovers(blocks: seq<Block>, i: nat, free: bool, a: int)
    requires i < |blocks|
    ensures InBlocks(SetFree(blocks, i, free), a) <==> InBlocks(blocks, a)
  {
    var set' := SetFree(blocks, i, free);
    if InBlocks(blocks, a) {
      var k :| 0 <= k < |blocks| && blocks[k].Covers(a);
      assert set'[k].Covers(a);
    }
    if InBlocks(set', a) {
      var k :| 0 <= k < |set'| && set'[k].Covers(a);
      assert blocks[k].Covers(a);
    }
  }

  // ----- Release -----

  /** Freeing block i and merging it with its neighbours leaves no new free pair behind. */
  lemma ReleaseCoalesced(blocks: seq<Block>, arenas: seq<Arena>, i: nat)
    requires Coalesced(blocks, arenas) && i < |blocks| && !blocks[i].free
    ensures Coalesced(Release(blocks, i), arenas)
  {
    var freed := SetFree(blocks, i, true);
    var merged := Coalesce(freed, i);
    forall k | FreePair(merged, k) && k != i - 1
      ensures IsBase(arenas, merged[k + 1].addr)
    {
      var k' := if Absorbs(freed, i) && k >= i then k + 1 else k;
      assert FreePair(blocks, k');
    }
    var released := Release(blocks, i);
    if i > 0 && merged[i - 1].free && merged[i - 1].End() == merged[i].addr {
      forall k | FreePair(released, k)
        ensures IsBase(arenas, released[k + 1].addr)
      {
        var k' := if k >= i - 1 then k + 1 else k;
        assert FreePair(merged, k');
      }
    }
  }

  // ----- A new arena -----

  lemma InsertOrdered(blocks: seq<Block>, i: nat, b: Block)
    requires Ordered(blocks) && i <= |blocks|
    requires forall k :: 0 <= k < i ==> blocks[k].End() <= b.addr
    requires forall k :: i <= k < |blocks| ==> b.End() <= blocks[k].addr
    ensures Ordered(Insert(blocks, i, b))
  {
  }

  lemma InsertCovers(blocks: seq<Block>, i: nat, b: Block, a: int)
    requires i <= |blocks|
    ensures InBlocks(Insert(blocks, i, b), a) <==> InBlocks(blocks, a) || b.Covers(a)
  {
    var more := Insert(blocks, i, b);
    if InBlocks(blocks, a) {
      var k :| 0 <= k < |blocks| && blocks[k].Covers(a);
      assert more[if k < i then k else k + 1].Covers(a);
    }
    if b.Covers(a) {
      assert more[i].Covers(a);
    }
    if InBlocks(more, a) {
      var k :| 0 <= k < |more| && more[k].Covers(a);
      assert k != i ==> blocks[if k < i then k else k - 1].Covers(a);
    }
  }

  lemma ArenaCovers(arenas: seq<Arena>, arena: Arena, a: int)
    ensures InArenas(arenas + [arena], a) <==> InArenas(arenas, a) || arena.Covers(a)
  {
    var more := arenas + [arena];
    if InArenas(arenas, a) {
      var k :| 0 <= k < |arenas| && arenas[k].Covers(a);
      assert more[k].Covers(a);
    }
    if arena.Covers(a) {
      assert more[|arenas|].Covers(a);
    }
    if InArenas(more, a) {
      var k :| 0 <= k < |more| && more[k].Covers(a);
      assert k < |arenas| ==> arenas[k].Covers(a);
    }
  }

  lemma BaseOfMore(arenas: seq<Arena>, arena: Arena, a: nat)
    ensures IsBase(arenas, a) || a == arena.base ==> IsBase(arenas + [arena], a)
  {
    var more := arenas + [arena];
    if IsBase(arenas, a) {
      var k :| 0 <= k < |arenas| && arenas[k].base == a;
      assert more[k].base == a;
    }
    assert more[|arenas|].base == arena.base;
  }

  /** A mapped address whose predecessor is not mapped is an arena's base. */
  lemma EdgeIsBase(arenas: seq<Arena>, a: nat)
    requires InArenas(arenas, a) && !InArenas(arenas, a - 1)
    ensures IsBase(arenas, a)
  {
    var k :| 0 <= k < |arenas| && arenas[k].Covers(a);
    assert !arenas[k].Covers(a - 1);
  }

  /** No part of the range is mapped. */
  ghost predicate Fresh(arenas: seq<Arena>, arena: Arena) {
    forall a: int {:trigger InArenas(arenas, a)} :: arena.Covers(a) ==> !InArenas(arenas, a)
  }

  lemma InsertCoalesced(blocks: seq<Block>, arenas: seq<Arena>, i: nat, b: Block, arena: Arena)
    requires Coalesced(blocks, arenas) && Tiles(blocks, arenas) && Fresh(arenas, arena) && i <= |blocks|
    requires arena == Arena(b.addr, HEADER + b.size)
    ensures Coalesced(Insert(blocks, i, b), arenas + [arena])
  {
    var more := Insert(blocks, i, b);
    forall k | FreePair(more, k)
      ensures IsBase(arenas + [arena], more[k + 1].addr)
    {
      BaseOfMore(arenas, arena, more[k + 1].addr);
      if k == i {
        var edge := more[k + 1].addr;
        assert blocks[i].Covers(edge);
        assert InBlocks(blocks, edge);
        assert arena.Covers(edge - 1) && !InArenas(arenas, edge - 1);
        EdgeIsBase(arenas, edge);
      } else if k + 1 != i {
        assert FreePair(blocks, if k < i then k else k - 1);
      }
    }
  }

  lemma InsertBytes(blocks: seq<Block>, i: nat, b: Block)
    requires i <= |blocks|
    ensures Bytes(Insert(blocks, i, b)) == Bytes(blocks) + HEADER + b.size
  {
    BytesMiddle(blocks[..i], [b], blocks[i..]);
    BytesMiddle(blocks[..i], [], blocks[i..]);
    BytesOfTwo(b, b);
    assert blocks == blocks[..i] + [] + blocks[i..];
  }
}
