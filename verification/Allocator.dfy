/**
 The allocator itself: block headers at addresses, chained by prev and next.
 Each operation is proved to carry out the corresponding step of the heap model
 and to leave the payload bytes of all other live blocks alone.
 */
module Allocator {
  import opened Basics
  import opened Bytes
  import opened Rounding
  import opened HeapModel
  import opened HeapRuns

  const MAGIC: nat := 0x4d4c5254424c4f43

  datatype Header = Header(magic: nat, size: nat, free: bool, prev: nat, next: nat)

  /** Address of the i-th block; 0, the null pointer, beyond either end. */
  function AddrAt(blocks: seq<Block>, i: int): (r: nat) {
    if 0 <= i < |blocks| then blocks[i].addr else 0
  }

  function HeaderAt(blocks: seq<Block>, i: nat): (r: Header)
    requires i < |blocks|
  {
    Header(MAGIC, blocks[i].size, blocks[i].free, AddrAt(blocks, i - 1), AddrAt(blocks, i + 1))
  }

  /** The doubly linked list from `head` is exactly `blocks`. */
  ghost predicate Linked(head: nat, headers: map<nat, Header>, blocks: seq<Block>) {
    && head == AddrAt(blocks, 0)
    && forall i :: 0 <= i < |blocks| ==> blocks[i].addr in headers && headers[blocks[i].addr] == HeaderAt(blocks, i)
  }

  /** The next block in address order, and so in the list, has another address. */
  lemma AddrsDiffer(blocks: seq<Block>, i: nat, j: nat)
    requires Ordered(blocks) && i < |blocks| && j < |blocks| && i != j
    ensures blocks[i].addr != blocks[j].addr
  {
    assert i < j || j < i;
  }

  /** Block j's address is not that of block r or of either neighbour of r, unless it is that block. */
  predicate DistinctNear(blocks: seq<Block>, r: nat, j: nat)
    requires r < |blocks| && j < |blocks|
  {
    && (j != r ==> blocks[j].addr != blocks[r].addr)
    && (r > 0 && j != r - 1 ==> blocks[j].addr != blocks[r - 1].addr)
    && (r + 1 < |blocks| && j != r + 1 ==> blocks[j].addr != blocks[r + 1].addr)
  }

  lemma NearDistinct(blocks: seq<Block>, r: nat, j: nat)
    requires Ordered(blocks) && r < |blocks| && j < |blocks|
    ensures DistinctNear(blocks, r, j)
  {
    if j != r {
      AddrsDiffer(blocks, j, r);
    }
    if r > 0 && j != r - 1 {
      AddrsDiffer(blocks, j, r - 1);
    }
    if r + 1 < |blocks| && j != r + 1 {
      AddrsDiffer(blocks, j, r + 1);
    }
  }

  lemma CoalesceAddr(blocks: seq<Block>, i: nat, j: int)
    requires i < |blocks| && Absorbs(blocks, i)
    ensures AddrAt(Coalesce(blocks, i), j) == AddrAt(blocks, if j <= i then j else j + 1)
  {
  }

  /** The headers after coalesce_with_next's pointer surgery. */
  function Unchained(m: map<nat, Header>, blocks: seq<Block>, i: nat): (r: map<nat, Header>)
    requires i < |blocks| && Absorbs(blocks, i)
  {
    var a, h, n := blocks[i].addr, HeaderAt(blocks, i), HeaderAt(blocks, i + 1);
    var m1 := m[a := h.(size := h.size + HEADER + n.size, next := n.next)];
    if i + 2 < |blocks| then m1[n.next := HeaderAt(blocks, i + 2).(prev := a)] else m1
  }

  /** Where block k of the coalesced list was before. */
  function Before(i: nat, k: nat): (j: nat) { if k <= i then k else k + 1 }

  lemma UnchainedAt(m: map<nat, Header>, blocks: seq<Block>, i: nat, k: nat, j: nat)
    requires i < |blocks| && Absorbs(blocks, i) && k < |Coalesce(blocks, i)| && j == Before(i, k)
    requires blocks[j].addr in m && m[blocks[j].addr] == HeaderAt(blocks, j)
    requires j != i ==> blocks[j].addr != blocks[i].addr
    requires i + 2 < |blocks| ==> blocks[i].addr != blocks[i + 2].addr
    requires i + 2 < |blocks| && j != i + 2 ==> blocks[j].addr != blocks[i + 2].addr
    ensures var m', merged := Unchained(m, blocks, i), Coalesce(blocks, i);
      merged[k].addr in m' && m'[merged[k].addr] == HeaderAt(merged, k)
  {
    CoalesceAddr(blocks, i, k - 1);
    CoalesceAddr(blocks, i, k + 1);
  }

  /** The i-th block's address differs from the j-th's, for the pairs that matter to Unchained. */
  lemma UnchainedDistinct(blocks: seq<Block>, i: nat, j: nat)
    requires Ordered(blocks) && i < |blocks| && Absorbs(blocks, i) && j < |blocks|
    ensures j != i ==> blocks[j].addr != blocks[i].addr
    ensures i + 2 < |blocks| ==> blocks[i].addr != blocks[i + 2].addr
    ensures i + 2 < |blocks| && j != i + 2 ==> blocks[j].addr != blocks[i + 2].addr
  {
    if j != i {
      AddrsDiffer(blocks, j, i);
    }
    if i + 2 < |blocks| {
      AddrsDiffer(blocks, i, i + 2);
      if j != i + 2 {
        AddrsDiffer(blocks, j, i + 2);
      }
    }
  }

  lemma CoalesceLinked(head: nat, m: map<nat, Header>, blocks: seq<Block>, i: nat)
    requires Ordered(blocks) && Linked(head, m, blocks) && i < |blocks| && Absorbs(blocks, i)
    ensures Linked(head, Unchained(m, blocks, i), Coalesce(blocks, i))
  {
    var merged := Coalesce(blocks, i);
    forall k | 0 <= k < |merged|
      ensures merged[k].addr in Unchained(m, blocks, i)
      ensures Unchained(m, blocks, i)[merged[k].addr] == HeaderAt(merged, k)
    {
      UnchainedDistinct(blocks, i, Before(i, k));
      UnchainedAt(m, blocks, i, k, Before(i, k));
    }
    CoalesceAddr(blocks, i, 0);
  }

  lemma SplitAddr(blocks: seq<Block>, i: nat, size: nat, j: int)
    requires i < |blocks| && size <= blocks[i].size && Splits(blocks[i], size)
    ensures AddrAt(Split(blocks, i, size), j) ==
      if j <= i then AddrAt(blocks, j) else if j == i + 1 then blocks[i].addr + HEADER + size else AddrAt(blocks, j - 1)
  {
  }

  /** The headers after split_block's pointer surgery. */
  function Chained(m: map<nat, Header>, blocks: seq<Block>, i: nat, size: nat): (r: map<nat, Header>)
    requires i < |blocks| && size <= blocks[i].size && Splits(blocks[i], size)
  {
    var b, h := blocks[i], HeaderAt(blocks, i);
    var tail := b.addr + HEADER + size;
    var m1 := m[tail := Header(MAGIC, b.size - size - HEADER, true, b.addr, h.next)];
    var m2 := if i + 1 < |blocks| then m1[h.next := HeaderAt(blocks, i + 1).(prev := tail)] else m1;
    m2[b.addr := h.(next := tail, size := size)]
  }

  lemma ChainedAt(m: map<nat, Header>, blocks: seq<Block>, i: nat, size: nat, j: nat)
    requires i < |blocks| && size <= blocks[i].size && Splits(blocks[i], size)
    requires j < |Split(blocks, i, size)| && DistinctNear(Split(blocks, i, size), i + 1, j)
    requires j != i + 1 ==> var k := if j <= i then j else j - 1; blocks[k].addr in m && m[blocks[k].addr] == HeaderAt(blocks, k)
    ensures var m', split := Chained(m, blocks, i, size), Split(blocks, i, size);
      split[j].addr in m' && m'[split[j].addr] == HeaderAt(split, j)
  {
    SplitAddr(blocks, i, size, j - 1);
    SplitAddr(blocks, i, size, j + 1);
  }

  lemma SplitLinked(head: nat, m: map<nat, Header>, blocks: seq<Block>, i: nat, size: nat)
    requires Ordered(blocks) && Linked(head, m, blocks) && i < |blocks| && size <= blocks[i].size && Splits(blocks[i], size)
    ensures Linked(head, Chained(m, blocks, i, size), Split(blocks, i, size))
  {
    SplitOrdered(blocks, i, size);
    forall j | 0 <= j < |Split(blocks, i, size)|
      ensures Split(blocks, i, size)[j].addr in Chained(m, blocks, i, size)
      ensures Chained(m, blocks, i, size)[Split(blocks, i, size)[j].addr] == HeaderAt(Split(blocks, i, size), j)
    {
      NearDistinct(Split(blocks, i, size), i + 1, j);
      ChainedAt(m, blocks, i, size, j);
    }
  }

  lemma InsertAddr(blocks: seq<Block>, r: nat, b: Block, j: int)
    requires r <= |blocks|
    ensures AddrAt(Insert(blocks, r, b), j) ==
      if j < r then AddrAt(blocks, j) else if j == r then b.addr else AddrAt(blocks, j - 1)
  {
  }

  /** The headers after insert_sorted's pointer surgery at position r. */
  function Spliced(m: map<nat, Header>, blocks: seq<Block>, r: nat, b: Block): (m': map<nat, Header>)
    requires r <= |blocks|
  {
    var prev, next := AddrAt(blocks, r - 1), AddrAt(blocks, r);
    var m1 := m[b.addr := Header(MAGIC, b.size, b.free, prev, next)];
    var m2 := if r < |blocks| then m1[next := HeaderAt(blocks, r).(prev := b.addr)] else m1;
    if r > 0 then m2[prev := HeaderAt(blocks, r - 1).(next := b.addr)] else m2
  }

  lemma SplicedAt(m: map<nat, Header>, blocks: seq<Block>, r: nat, b: Block, j: nat)
    requires r <= |blocks| && j < |Insert(blocks, r, b)| && DistinctNear(Insert(blocks, r, b), r, j)
    requires j != r ==> var k := if j < r then j else j - 1; blocks[k].addr in m && m[blocks[k].addr] == HeaderAt(blocks, k)
    ensures var m', list := Spliced(m, blocks, r, b), Insert(blocks, r, b);
      list[j].addr in m' && m'[list[j].addr] == HeaderAt(list, j)
  {
    InsertAddr(blocks, r, b, j - 1);
    InsertAddr(blocks, r, b, j + 1);
  }

  lemma InsertLinked(head: nat, m: map<nat, Header>, blocks: seq<Block>, r: nat, b: Block)
    requires Linked(head, m, blocks) && r <= |blocks| && Ordered(Insert(blocks, r, b))
    ensures Linked(if r == 0 then b.addr else head, Spliced(m, blocks, r, b), Insert(blocks, r, b))
  {
    forall j | 0 <= j < |Insert(blocks, r, b)|
      ensures Insert(blocks, r, b)[j].addr in Spliced(m, blocks, r, b)
      ensures Spliced(m, blocks, r, b)[Insert(blocks, r, b)[j].addr] == HeaderAt(Insert(blocks, r, b), j)
    {
      NearDistinct(Insert(blocks, r, b), r, j);
      SplicedAt(m, blocks, r, b, j);
    }
    InsertAddr(blocks, r, b, 0);
  }

  // ----- Payload bytes -----

  ghost predicate InPayload(live: set<Block>, x: int) {
    exists b :: b in live && b.addr + HEADER <= x < b.End()
  }

  predicate SameAt(m: map<nat, Byte>, m': map<nat, Byte>, x: nat) {
    (x in m <==> x in m') && (x in m ==> m[x] == m'[x])
  }

  /** Every payload byte of the live blocks is as it was. */
  ghost predicate Kept(m: map<nat, Byte>, m': map<nat, Byte>, live: set<Block>) {
    forall x: nat {:trigger SameAt(m, m', x)} :: InPayload(live, x) ==> SameAt(m, m', x)
  }

  /** A header at `a` would lie outside every live payload. */
  ghost predicate Clear(live: set<Block>, a: nat) {
    forall b :: b in live ==> a <= b.addr || b.End() <= a
  }

  /** Storing a header at `a` overwrites its 48 bytes and nothing else. */
  function Clobber(m: map<nat, Byte>, a: nat): (r: map<nat, Byte>) {
    map x | x in m && !(a <= x < a + HEADER) :: m[x]
  }

  function ClobberAll(m: map<nat, Byte>, at: seq<nat>): (r: map<nat, Byte>) {
    if at == [] then m else Clobber(ClobberAll(m, at[..|at| - 1]), at[|at| - 1])
  }

  /** Headers stored clear of the live blocks leave their payloads alone. */
  lemma {:induction false} ClobberKeeps(m: map<nat, Byte>, at: seq<nat>, live: set<Block>)
    requires forall a :: a in at ==> Clear(live, a)
    ensures Kept(m, ClobberAll(m, at), live)
  {
    if at != [] {
      var most, a := at[..|at| - 1], at[|at| - 1];
      ClobberKeeps(m, most, live);
      assert a in at;
      forall x: nat | InPayload(live, x)
        ensures SameAt(m, ClobberAll(m, at), x)
      {
        assert SameAt(m, ClobberAll(m, most), x);
      }
    }
  }

  lemma ClobberAppend(m: map<nat, Byte>, at: seq<nat>, a: nat)
    ensures ClobberAll(m, at + [a]) == Clobber(ClobberAll(m, at), a)
  {
    assert (at + [a])[..|at|] == at;
  }

  lemma KeptTrans(m: map<nat, Byte>, m': map<nat, Byte>, m'': map<nat, Byte>, live: set<Block>)
    requires Kept(m, m', live) && Kept(m', m'', live)
    ensures Kept(m, m'', live)
  {
    forall x: nat | InPayload(live, x)
      ensures SameAt(m, m'', x)
    {
      assert SameAt(m, m', x) && SameAt(m', m'', x);
    }
  }

  lemma ClearAtBlock(blocks: seq<Block>, i: nat)
    requires Ordered(blocks) && i < |blocks|
    ensures Clear(Live(blocks), blocks[i].addr)
  {
    forall b | b in Live(blocks)
      ensures blocks[i].addr <= b.addr || b.End() <= blocks[i].addr
    {
      var k :| 0 <= k < |blocks| && blocks[k] == b;
      assert k < i || k == i || i < k;
    }
  }

  lemma ClearInsideFree(blocks: seq<Block>, i: nat, a: nat)
    requires Ordered(blocks) && i < |blocks| && blocks[i].free && blocks[i].addr <= a <= blocks[i].End()
    ensures Clear(Live(blocks), a)
  {
    forall b | b in Live(blocks)
      ensures a <= b.addr || b.End() <= a
    {
      var k :| 0 <= k < |blocks| && blocks[k] == b;
      assert k < i || i < k;
    }
  }

  class Allocator {
    const page: nat
    var head: nat
    var headers: map<nat, Header>
    var mappedBytes: nat
    var memory: map<nat, Byte>   // bytes of the mapped memory that are not a header's
    ghost var heap: Heap

    ghost predicate Valid()
      reads this
    {
      && ValidPage(page) && WellFormed(heap)
      && Linked(head, headers, heap.blocks) && mappedBytes == heap.mapped
    }

    constructor (pageSize: nat)
      requires ValidPage(pageSize)
      ensures Valid() && heap == EMPTY && page == pageSize
    {
      page := pageSize;
      head, headers, mappedBytes, memory := 0, map[], 0, map[];
      heap := EMPTY;
      assert forall a: int :: !InBlocks(EMPTY.blocks, a) && !InArenas(EMPTY.arenas, a);
    }

    /** Store a header; `written` lists the addresses stored to since the memory was m. */
    method WriteHeader(a: nat, h: Header, ghost m: map<nat, Byte>, ghost written: seq<nat>)
      requires memory == ClobberAll(m, written)
      modifies this`headers, this`memory
      ensures headers == old(headers)[a := h]
      ensures memory == ClobberAll(m, written + [a])
    {
      headers := headers[a := h];
      memory := map x | x in memory && !(a <= x < a + HEADER) :: memory[x];
      ClobberAppend(m, written, a);
    }

    method FindFitting(size: nat) returns (addr: nat)
      requires Valid()
      ensures var i := FindFit(heap.blocks, size, 0); addr == AddrAt(heap.blocks, i)
    {
      addr := head;
      ghost var i := 0;
      while addr != 0
        invariant i <= |heap.blocks| && addr == AddrAt(heap.blocks, i)
        invariant FindFit(heap.blocks, size, 0) == FindFit(heap.blocks, size, i)
        decreases |heap.blocks| - i
      {
        if headers[addr].free && headers[addr].size >= size {
          return;
        }
        addr := headers[addr].next;
        i := i + 1;
      }
    }

    /** The last block below address a. */
    method Predecessor(a: nat, ghost blocks: seq<Block>) returns (cur: nat)
      requires Linked(head, headers, blocks) && head != 0 && head < a && AllAligned(blocks)
      requires forall k :: 0 <= k < |blocks| ==> blocks[k].addr != a
      ensures var r := Rank(blocks, a); 1 <= r && cur == blocks[r - 1].addr
    {
      cur := head;
      ghost var k := 0;
      while headers[cur].next != 0 && headers[cur].next < a
        invariant k < |blocks| && cur == blocks[k].addr && cur < a
        invariant k < Rank(blocks, a)
        decreases |blocks| - k
      {
        cur := headers[cur].next;
        k := k + 1;
      }
    }

    // ----- List surgery -----

    /** The stores of insert_sorted: block a goes between prev and next, either of which may be null. */
    method Splice(a: nat, h: Header, prev: nat, next: nat, ghost m: map<nat, Byte>) returns (ghost written: seq<nat>)
      requires memory == m && (prev != 0 ==> prev in headers) && (next != 0 ==> next in headers)
      requires a != prev && a != next && (prev != next || prev == 0)
      modifies this`headers, this`memory
      ensures var m0 := old(headers); var m1 := m0[a := h.(prev := prev, next := next)];
        var m2 := if next != 0 then m1[next := m0[next].(prev := a)] else m1;
        headers == if prev != 0 then m2[prev := m0[prev].(next := a)] else m2
      ensures memory == ClobberAll(m, written)
      ensures forall x :: x in written ==> x == a || (x == prev && prev != 0) || (x == next && next != 0)
    {
      written := [];
      WriteHeader(a, h.(prev := prev, next := next), m, written);
      written := written + [a];
      if next != 0 {
        WriteHeader(next, headers[next].(prev := a), m, written);
        written := written + [next];
      }
      if prev != 0 {
        WriteHeader(prev, headers[prev].(next := a), m, written);
        written := written + [prev];
      }
    }

    /** The stores of split_block: a tail after block a. */
    method Chain(a: nat, h: Header, size: nat, ghost m: map<nat, Byte>) returns (ghost written: seq<nat>)
      requires memory == m && h.size >= size + HEADER
      requires h.next != 0 ==> h.next in headers && h.next != a + HEADER + size
      modifies this`headers, this`memory
      ensures var tail := a + HEADER + size;
        var m1 := old(headers)[tail := Header(MAGIC, h.size - size - HEADER, true, a, h.next)];
        var m2 := if h.next != 0 then m1[h.next := old(headers)[h.next].(prev := tail)] else m1;
        headers == m2[a := h.(next := tail, size := size)]
      ensures memory == ClobberAll(m, written)
      ensures forall x :: x in written ==> x == a || x == a + HEADER + size || (x == h.next && h.next != 0)
    {
      var tail := a + HEADER + size;
      written := [];
      WriteHeader(tail, Header(MAGIC, h.size - size - HEADER, true, a, h.next), m, written);
      written := written + [tail];
      if h.next != 0 {
        WriteHeader(h.next, headers[h.next].(prev := tail), m, written);
        written := written + [h.next];
      }
      WriteHeader(a, h.(next := tail, size := size), m, written);
      written := written + [a];
    }

    /** The stores of coalesce_with_next: block a swallows its successor, whose header is n. */
    method Unchain(a: nat, h: Header, n: Header, ghost m: map<nat, Byte>) returns (ghost written: seq<nat>)
      requires memory == m && (n.next != 0 ==> n.next in headers && n.next != a)
      modifies this`headers, this`memory
      ensures var m1 := old(headers)[a := h.(size := h.size + HEADER + n.size, next := n.next)];
        headers == if n.next != 0 then m1[n.next := old(headers)[n.next].(prev := a)] else m1
      ensures memory == ClobberAll(m, written)
      ensures forall x :: x in written ==> x == a || (x == n.next && n.next != 0)
    {
      written := [];
      WriteHeader(a, h.(size := h.size + HEADER + n.size, next := n.next), m, written);
      written := written + [a];
      if n.next != 0 {
        WriteHeader(n.next, headers[n.next].(prev := a), m, written);
        written := written + [n.next];
      }
    }

    /** insert_sorted: chain in the block at address a, whose header holds size and free already. */
    method InsertSorted(a: nat, ghost blocks: seq<Block>, ghost b: Block)
      requires Ordered(blocks) && AllAligned(blocks) && Linked(head, headers, blocks)
      requires a == b.addr && a > 0 && (forall k :: 0 <= k < |blocks| ==> blocks[k].addr != a)
      requires Ordered(Insert(blocks, Rank(blocks, a), b)) && b.free
      requires a in headers && headers[a] == Header(MAGIC, b.size, b.free, 0, 0)
      modifies this`head, this`headers, this`memory
      ensures Linked(head, headers, Insert(blocks, Rank(blocks, a), b))
      ensures Kept(old(memory), memory, Live(blocks))
    {
      ghost var r, h0, m0 := Rank(blocks, a), headers, memory;
      ghost var written;
      InsertLinked(head, headers, blocks, r, b);
      if head == 0 || a < head {
        SpliceHead(blocks, a);
        written := Splice(a, headers[a], 0, head, m0);
        head := a;
      } else {
        var cur := Predecessor(a, blocks);
        SpliceInside(blocks, a);
        written := Splice(a, headers[a], cur, headers[cur].next, m0);
      }
      assert headers == Spliced(h0, blocks, r, b);
      SpliceKeeps(m0, blocks, r, b, written);
    }

    /** Split the i-th block, which has the room. */
    method DoSplit(a: nat, size: nat, ghost blocks: seq<Block>, ghost i: nat) returns (ghost written: seq<nat>)
      requires i < |blocks| && a == blocks[i].addr && Splits(blocks[i], size)
      requires a in headers && headers[a] == HeaderAt(blocks, i)
      requires var next := AddrAt(blocks, i + 1);
        && (next != 0 <==> i + 1 < |blocks|)
        && (next != 0 ==> next in headers && headers[next] == HeaderAt(blocks, i + 1) && next != a + HEADER + size)
      modifies this`headers, this`memory
      ensures headers == Chained(old(headers), blocks, i, size)
      ensures memory == ClobberAll(old(memory), written)
      ensures forall x :: x in written ==> x == a || x == a + HEADER + size || (i + 1 < |blocks| && x == blocks[i + 1].addr)
    {
      written := Chain(a, headers[a], size, memory);
    }

    /** split_block on the i-th block. */
    method SplitBlock(a: nat, size: nat, ghost blocks: seq<Block>, ghost i: nat)
      requires Ordered(blocks) && AllAligned(blocks) && Linked(head, headers, blocks)
      requires i < |blocks| && a == blocks[i].addr && blocks[i].free && size <= blocks[i].size
      modifies this`headers, this`memory
      ensures Linked(head, headers, Split(blocks, i, size))
      ensures Kept(old(memory), memory, Live(blocks))
    {
      if headers[a].size >= size + HEADER + ALIGNMENT {
        SplitLinked(head, headers, blocks, i, size);
        NextNonNull(blocks, i);
        ghost var m := memory;
        ghost var written := DoSplit(a, size, blocks, i);
        ChainKeeps(m, blocks, i, size, written);
      }
    }

    /** Whether coalesce_with_next has something to do. */
    method CanCoalesce(a: nat, ghost blocks: seq<Block>, ghost i: nat) returns (r: bool)
      requires AllAligned(blocks) && Linked(head, headers, blocks) && i < |blocks| && a == blocks[i].addr
      ensures r == Absorbs(blocks, i)
    {
      NextNonNull(blocks, i);
      var next := headers[a].next;
      r := next != 0 && headers[next].free && a + HEADER + headers[a].size == next;
    }

    method DoCoalesce(a: nat, ghost blocks: seq<Block>, ghost i: nat) returns (ghost written: seq<nat>)
      requires i < |blocks| && Absorbs(blocks, i) && a == blocks[i].addr
      requires a in headers && headers[a] == HeaderAt(blocks, i)
      requires blocks[i + 1].addr in headers && headers[blocks[i + 1].addr] == HeaderAt(blocks, i + 1)
      requires var next := AddrAt(blocks, i + 2);
        && (next != 0 <==> i + 2 < |blocks|)
        && (next != 0 ==> next in headers && headers[next] == HeaderAt(blocks, i + 2) && next != a)
      modifies this`headers, this`memory
      ensures headers == Unchained(old(headers), blocks, i)
      ensures memory == ClobberAll(old(memory), written)
      ensures forall x :: x in written ==> x == a || (i + 2 < |blocks| && x == blocks[i + 2].addr)
    {
      var h := headers[a];
      written := Unchain(a, h, headers[h.next], memory);
    }

    /** coalesce_with_next on the i-th block. */
    method CoalesceWithNext(a: nat, ghost blocks: seq<Block>, ghost i: nat)
      requires Ordered(blocks) && AllAligned(blocks) && Linked(head, headers, blocks)
      requires i < |blocks| && a == blocks[i].addr
      modifies this`headers, this`memory
      ensures Linked(head, headers, Coalesce(blocks, i))
      ensures Kept(old(memory), memory, Live(blocks))
    {
      var absorbs := CanCoalesce(a, blocks, i);
      if absorbs {
        CoalesceLinked(head, headers, blocks, i);
        NextNonNull(blocks, i + 1);
        ghost var m := memory;
        ghost var written := DoCoalesce(a, blocks, i);
        UnchainKeeps(m, blocks, i, written);
      }
    }

    /** The header of a fresh arena's block, before the block is chained in. */
    method InitArena(total: nat, grant: nat)
      requires Valid() && total >= HEADER && Fresh(heap.arenas, Arena(grant, total))
      modifies this`headers, this`memory
      ensures Linked(head, headers, heap.blocks)
      ensures grant in headers && headers[grant] == Header(MAGIC, total - HEADER, true, 0, 0)
      ensures Kept(old(memory), memory, Live(heap.blocks))
    {
      ArenaClear(heap, grant, total);
      memory := map x | x in memory && !Arena(grant, total).Covers(x) :: memory[x];
      MappingKeeps(old(memory), memory, Live(heap.blocks), Arena(grant, total));
      headers := headers[grant := Header(MAGIC, total - HEADER, true, 0, 0)];
    }

    /** map_arena; the kernel mapped `total` zeroed bytes at `grant`. */
    method MapArena(total: nat, grant: nat)
      requires Valid() && total >= HEADER && total % ALIGNMENT == 0 && grant > 0 && grant % ALIGNMENT == 0
      requires Fresh(heap.arenas, Arena(grant, total))
      modifies this
      ensures Valid() && heap == Grow(old(heap), grant, total)
      ensures Kept(old(memory), memory, Live(old(heap.blocks)))
    {
      ghost var blocks := heap.blocks;
      GrowWellFormed(heap, grant, total);
      ArenaClear(heap, grant, total);
      InitArena(total, grant);
      ghost var m := memory;
      InsertSorted(grant, blocks, Block(grant, total - HEADER, true));
      KeptTrans(old(memory), m, memory, Live(blocks));
      mappedBytes := mappedBytes + total;
      heap := Grow(heap, grant, total);
    }

    // ----- The interface -----

    /** Hand out the i-th block, trimmed to size. */
    method TakeBlock(a: nat, size: nat, ghost i: nat)
      requires Valid() && i < |heap.blocks| && a == heap.blocks[i].addr && heap.blocks[i].free
      requires size <= heap.blocks[i].size && size % ALIGNMENT == 0
      modifies this`headers, this`memory, this`heap
      ensures Valid() && heap == Take(old(heap), i, size)
      ensures Kept(old(memory), memory, Live(old(heap.blocks)))
    {
      TakeWellFormed(heap, i, size);
      SplitAndMark(a, size, heap.blocks, i);
      heap := Take(heap, i, size);
    }

    method SplitAndMark(a: nat, size: nat, ghost blocks: seq<Block>, ghost i: nat)
      requires Ordered(blocks) && AllAligned(blocks) && Linked(head, headers, blocks)
      requires i < |blocks| && a == blocks[i].addr && blocks[i].free && size <= blocks[i].size
      modifies this`headers, this`memory
      ensures Linked(head, headers, SetFree(Split(blocks, i, size), i, false))
      ensures Kept(old(memory), memory, Live(blocks))
    {
      SplitOrdered(blocks, i, size);
      SplitLive(blocks, i, size);
      SplitBlock(a, size, blocks, i);
      ghost var m := memory;
      MarkBlock(a, false, Split(blocks, i, size), i);
      KeptTrans(old(memory), m, memory, Live(blocks));
    }

    /** block->free = free. */
    method MarkBlock(a: nat, free: bool, ghost blocks: seq<Block>, ghost i: nat)
      requires Ordered(blocks) && Linked(head, headers, blocks) && i < |blocks| && a == blocks[i].addr
      modifies this`headers, this`memory
      ensures Linked(head, headers, SetFree(blocks, i, free))
      ensures Kept(old(memory), memory, Live(blocks))
    {
      ghost var m := memory;
      MarkLinked(head, headers, blocks, i, free);
      WriteHeader(a, headers[a].(free := free), m, []);
      UnchainKeeps(m, blocks, i, [] + [a]);
    }

    /**
     my_malloc in its 64-bit arithmetic, for requests whose roundings do not wrap. `grant` is where
     the kernel would map an arena, if it is willing; null is 0.
     */
    method Malloc(n: nat, grant: Option<nat>) returns (ptr: nat)
      requires Valid() && Representable(n, page)
      requires KernelMaps(heap, ArenaTotal(RoundUp(n, ALIGNMENT), page), page, grant)
      modifies this
      ensures Valid() && (heap, ptr) == HeapRuns.Malloc(old(heap), n, page, grant)
      ensures Kept(old(memory), memory, Live(old(heap.blocks)))
    {
      if n == 0 {
        return 0;
      }
      SizesExact(n, page);
      ptr := MallocSized(RoundUp64(n, ALIGNMENT), grant);
    }

    /** my_malloc once the size is rounded. */
    method MallocSized(size: nat, grant: Option<nat>) returns (ptr: nat)
      requires Valid() && size % ALIGNMENT == 0
      requires size < WORD && ArenaTotal64(size, page) == ArenaTotal(size, page)
      requires KernelMaps(heap, ArenaTotal(size, page), page, grant)
      modifies this
      ensures Valid() && (heap, ptr) == HeapRuns.MallocSized(old(heap), size, page, grant)
      ensures Kept(old(memory), memory, Live(old(heap.blocks)))
    {
      var a := FindFitting(size);
      if a != 0 {
        FoundFits(heap.blocks, size);
        TakeFit(a, size, grant);
        return a + HEADER;
      }
      NotFound(heap.blocks, size);
      if grant.None? {
        return 0;
      }
      ptr := MallocFromArena(size, grant.value);
    }

    /** The first fit is handed out. */
    method TakeFit(a: nat, size: nat, ghost grant: Option<nat>)
      requires Valid() && size % ALIGNMENT == 0 && FindFit(heap.blocks, size, 0) < |heap.blocks|
      requires a == heap.blocks[FindFit(heap.blocks, size, 0)].addr
      modifies this
      ensures Valid() && (heap, a + HEADER) == HeapRuns.MallocSized(old(heap), size, page, grant)
      ensures Kept(old(memory), memory, Live(old(heap.blocks)))
    {
      TakeBlock(a, size, FindFit(heap.blocks, size, 0));
    }

    method MallocFromArena(size: nat, grant: nat) returns (ptr: nat)
      requires Valid() && size % ALIGNMENT == 0 && grant > 0 && grant % page == 0
      requires size < WORD && ArenaTotal64(size, page) == ArenaTotal(size, page)
      requires Fresh(heap.arenas, Arena(grant, ArenaTotal(size, page)))
      modifies this
      ensures Valid() && ptr == grant + HEADER
      ensures var j, grown := Rank(old(heap.blocks), grant), Grow(old(heap), grant, ArenaTotal(size, page));
        j < |grown.blocks| && size <= grown.blocks[j].size && heap == Take(grown, j, size)
      ensures Kept(old(memory), memory, Live(old(heap.blocks)))
    {
      var total := ArenaTotal64(size, page);
      ghost var h, j := heap, Rank(heap.blocks, grant);
      PageAligned(grant, page);
      PageAligned(total, page);
      MapArena(total, grant);
      RankFindsNew(h, grant, total);
      InsertLive(h.blocks, j, Block(grant, total - HEADER, true));
      ghost var m := memory;
      TakeBlock(grant, size, j);
      KeptTrans(old(memory), m, memory, Live(h.blocks));
      ptr := grant + HEADER;
    }

    /** The second half of my_free: merge the i-th block into a free block just before it. */
    method CoalesceWithPrev(a: nat, ghost blocks: seq<Block>, ghost i: nat)
      requires Ordered(blocks) && AllAligned(blocks) && Linked(head, headers, blocks)
      requires i < |blocks| && a == blocks[i].addr && blocks[i].free
      modifies this`headers, this`memory
      ensures Linked(head, headers,
        if i > 0 && blocks[i - 1].free && blocks[i - 1].End() == a then Coalesce(blocks, i - 1) else blocks)
      ensures Kept(old(memory), memory, Live(blocks))
    {
      var prev := headers[a].prev;
      PrevNonNull(blocks, i);
      if prev != 0 && headers[prev].free && prev + HEADER + headers[prev].size == a {
        CoalesceWithNext(prev, blocks, i - 1);
      }
    }

    /** my_free of null or of a live payload. */
    method Free(ptr: nat)
      requires Valid() && (ptr == 0 || IsLive(heap, ptr))
      modifies this
      ensures Valid() && heap == HeapRuns.Free(old(heap), ptr)
      ensures Kept(old(memory), memory, Live(heap.blocks))
    {
      if ptr == 0 {
        return;
      }
      FreeCorrect(heap, ptr);
      FreeBlock(ptr - HEADER, IndexOf(heap.blocks, ptr));
    }

    method FreeBlock(a: nat, ghost i: nat)
      requires Valid() && i < |heap.blocks| && a == heap.blocks[i].addr && !heap.blocks[i].free
      requires WellFormed(heap.(blocks := HeapModel.Release(heap.blocks, i)))
      modifies this
      ensures Valid() && heap == old(heap).(blocks := HeapModel.Release(old(heap.blocks), i))
      ensures Kept(old(memory), memory, Live(heap.blocks))
    {
      if headers[a].magic != MAGIC {
        return;
      }
      Merge(a, heap.blocks, i);
      heap := heap.(blocks := HeapModel.Release(heap.blocks, i));
    }

    method Merge(a: nat, ghost blocks: seq<Block>, ghost i: nat)
      requires Ordered(blocks) && AllAligned(blocks) && Linked(head, headers, blocks)
      requires i < |blocks| && a == blocks[i].addr && !blocks[i].free
      modifies this`headers, this`memory
      ensures Linked(head, headers, HeapModel.Release(blocks, i))
      ensures Kept(old(memory), memory, Live(HeapModel.Release(blocks, i)))
    {
      ghost var m0 := memory;
      ghost var freed := SetFree(blocks, i, true);
      ghost var merged := Coalesce(freed, i);
      ReleaseLive(blocks, i);
      SetFreeLive(blocks, i, true);
      CoalesceLive(freed, i);
      CoalesceOrdered(freed, i);
      CoalesceAligned(freed, i);
      MarkBlock(a, true, blocks, i);
      KeptSubset(m0, memory, Live(blocks), Live(freed));
      ghost var m1 := memory;
      CoalesceWithNext(a, freed, i);
      KeptTrans(m0, m1, memory, Live(freed));
      ghost var m2 := memory;
      CoalesceWithPrev(a, merged, i);
      KeptTrans(m0, m2, memory, Live(freed));
    }

    /** A store by the program into memory it was given. */
    method StoreByte(x: nat, value: Byte)
      requires Valid() && InPayload(Live(heap.blocks), x)
      modifies this`memory
      ensures Valid() && memory == old(memory)[x := value]
    {
      memory := memory[x := value];
    }

    /** The loop of my_allocator_get_stats. */
    /** One turn of the statistics loop. */
    method TallyOne(h: Header, before: Stats, ghost blocks: seq<Block>, ghost i: nat) returns (stats: Stats)
      requires i < |blocks| && h == HeaderAt(blocks, i) && before == StatsOf(blocks, i)
      ensures stats == StatsOf(blocks, i + 1)
    {
      stats := before;
      if h.free {
        stats := stats.(freeBlocks := stats.freeBlocks + 1, freeBytes := stats.freeBytes + h.size);
      } else {
        stats := stats.(allocatedBlocks := stats.allocatedBlocks + 1, allocatedBytes := stats.allocatedBytes + h.size);
      }
    }

    method Tally(ghost blocks: seq<Block>) returns (stats: Stats)
      requires Linked(head, headers, blocks) && AllAligned(blocks)
      ensures stats == StatsOf(blocks, |blocks|)
    {
      stats := Stats(0, 0, 0, 0);
      var a := head;
      ghost var i := 0;
      while a != 0
        invariant i <= |blocks| && a == AddrAt(blocks, i)
        invariant stats == StatsOf(blocks, i)
        decreases |blocks| - i
      {
        Visit(head, headers, blocks, i);
        stats := TallyOne(headers[a], stats, blocks, i);
        a := headers[a].next;
        i := i + 1;
      }
      EndOfList(blocks, i);
    }

    /** my_allocator_get_stats. */
    method GetStats() returns (mapped: nat, stats: Stats)
      requires Valid()
      ensures mapped == heap.mapped && stats == StatsOf(heap.blocks, |heap.blocks|)
      ensures stats.allocatedBytes + stats.freeBytes + HEADER * (stats.allocatedBlocks + stats.freeBlocks) == mapped
    {
      mapped := mappedBytes;
      stats := Tally(heap.blocks);
      StatsConserved(heap);
    }
  }

  /** The address the walk stands at is that of block i, and the header there is its own. */
  lemma Visit(head: nat, headers: map<nat, Header>, blocks: seq<Block>, i: nat)
    requires Linked(head, headers, blocks) && AddrAt(blocks, i) != 0
    ensures i < |blocks| && AddrAt(blocks, i) in headers && headers[AddrAt(blocks, i)] == HeaderAt(blocks, i)
  {
  }

  lemma SpliceHead(blocks: seq<Block>, a: nat)
    requires AllAligned(blocks) && a > 0 && (AddrAt(blocks, 0) == 0 || a < AddrAt(blocks, 0))
    ensures Rank(blocks, a) == 0 && AddrAt(blocks, -1) == 0
  {
  }

  lemma SpliceInside(blocks: seq<Block>, a: nat)
    requires Ordered(blocks) && AllAligned(blocks) && Rank(blocks, a) > 0
    ensures var r := Rank(blocks, a); AddrAt(blocks, r - 1) > 0 && (r < |blocks| ==> AddrAt(blocks, r) > AddrAt(blocks, r - 1))
  {
    var r := Rank(blocks, a);
    assert blocks[r - 1].Aligned();
    assert r < |blocks| ==> blocks[r].Aligned();
  }

  lemma SpliceKeeps(m: map<nat, Byte>, blocks: seq<Block>, r: nat, b: Block, written: seq<nat>)
    requires r <= |blocks| && b.free && Ordered(Insert(blocks, r, b))
    requires forall x :: x in written ==>
      x == b.addr || (r > 0 && x == AddrAt(blocks, r - 1)) || (r < |blocks| && x == AddrAt(blocks, r))
    ensures Kept(m, ClobberAll(m, written), Live(blocks))
  {
    var list := Insert(blocks, r, b);
    InsertLive(blocks, r, b);
    forall x | x in written
      ensures Clear(Live(blocks), x)
    {
      ClearAtBlock(list, if x == b.addr then r else if r > 0 && x == AddrAt(blocks, r - 1) then r - 1 else r + 1);
    }
    ClobberKeeps(m, written, Live(blocks));
  }

  /** A successor exists exactly when its address is not null. */
  lemma NextNonNull(blocks: seq<Block>, i: nat)
    requires AllAligned(blocks) && i < |blocks|
    ensures AddrAt(blocks, i + 1) != 0 <==> i + 1 < |blocks|
  {
    assert i + 1 < |blocks| ==> blocks[i + 1].Aligned();
  }

  lemma ChainKeeps(m: map<nat, Byte>, blocks: seq<Block>, i: nat, size: nat, written: seq<nat>)
    requires Ordered(blocks) && i < |blocks| && blocks[i].free && Splits(blocks[i], size)
    requires forall x :: x in written ==> x == blocks[i].addr || x == blocks[i].addr + HEADER + size
                                          || (i + 1 < |blocks| && x == blocks[i + 1].addr)
    ensures Kept(m, ClobberAll(m, written), Live(blocks))
  {
    forall x | x in written
      ensures Clear(Live(blocks), x)
    {
      if x == blocks[i].addr || x == blocks[i].addr + HEADER + size {
        ClearInsideFree(blocks, i, x);
      } else {
        ClearAtBlock(blocks, i + 1);
      }
    }
    ClobberKeeps(m, written, Live(blocks));
  }

  lemma UnchainKeeps(m: map<nat, Byte>, blocks: seq<Block>, i: nat, written: seq<nat>)
    requires Ordered(blocks) && i < |blocks|
    requires forall x :: x in written ==> x == blocks[i].addr || (i + 2 < |blocks| && x == blocks[i + 2].addr)
    ensures Kept(m, ClobberAll(m, written), Live(blocks))
  {
    forall x | x in written
      ensures Clear(Live(blocks), x)
    {
      ClearAtBlock(blocks, if x == blocks[i].addr then i else i + 2);
    }
    ClobberKeeps(m, written, Live(blocks));
  }

  /** A fresh arena holds no block and no live payload. */
  lemma ArenaClear(h: Heap, base: nat, total: nat)
    requires WellFormed(h) && total >= HEADER && Fresh(h.arenas, Arena(base, total))
    ensures forall k :: 0 <= k < |h.blocks| ==> h.blocks[k].addr != base
    ensures forall x: nat :: InPayload(Live(h.blocks), x) ==> !Arena(base, total).Covers(x)
  {
    forall k | 0 <= k < |h.blocks|
      ensures h.blocks[k].addr != base
    {
      assert h.blocks[k].Covers(h.blocks[k].addr);
      assert InBlocks(h.blocks, h.blocks[k].addr);
      assert Arena(base, total).Covers(base);
    }
    forall x: nat | InPayload(Live(h.blocks), x)
      ensures !Arena(base, total).Covers(x)
    {
      var b :| b in Live(h.blocks) && b.addr + HEADER <= x < b.End();
      var k :| 0 <= k < |h.blocks| && h.blocks[k] == b;
      assert h.blocks[k].Covers(x);
      assert InBlocks(h.blocks, x);
    }
  }

  /** The kernel's new mapping lies outside every live payload. */
  lemma MappingKeeps(m: map<nat, Byte>, m': map<nat, Byte>, live: set<Block>, arena: Arena)
    requires forall x: nat :: InPayload(live, x) ==> !arena.Covers(x)
    requires m' == map x | x in m && !arena.Covers(x) :: m[x]
    ensures Kept(m, m', live)
  {
    forall x: nat | InPayload(live, x)
      ensures SameAt(m, m', x)
    {
    }
  }

  lemma MarkLinked(head: nat, m: map<nat, Header>, blocks: seq<Block>, i: nat, free: bool)
    requires Ordered(blocks) && Linked(head, m, blocks) && i < |blocks|
    ensures Linked(head, m[blocks[i].addr := m[blocks[i].addr].(free := free)], SetFree(blocks, i, free))
  {
    var marked := SetFree(blocks, i, free);
    forall k | 0 <= k < |marked|
      ensures var m' := m[blocks[i].addr := m[blocks[i].addr].(free := free)];
        marked[k].addr in m' && m'[marked[k].addr] == HeaderAt(marked, k)
    {
      MarkedAt(m, blocks, i, free, k);
    }
  }

  lemma MarkedAt(m: map<nat, Header>, blocks: seq<Block>, i: nat, free: bool, k: nat)
    requires Ordered(blocks) && i < |blocks| && k < |blocks|
    requires blocks[i].addr in m && m[blocks[i].addr] == HeaderAt(blocks, i)
    requires blocks[k].addr in m && m[blocks[k].addr] == HeaderAt(blocks, k)
    ensures var marked, m' := SetFree(blocks, i, free), m[blocks[i].addr := m[blocks[i].addr].(free := free)];
      marked[k].addr in m' && m'[marked[k].addr] == HeaderAt(marked, k)
  {
    if k != i {
      AddrsDiffer(blocks, k, i);
    }
  }

  lemma FoundFits(blocks: seq<Block>, size: nat)
    requires AddrAt(blocks, FindFit(blocks, size, 0)) != 0
    ensures FindFit(blocks, size, 0) < |blocks|
  {
  }

  lemma NotFound(blocks: seq<Block>, size: nat)
    requires AllAligned(blocks) && AddrAt(blocks, FindFit(blocks, size, 0)) == 0
    ensures FindFit(blocks, size, 0) == |blocks|
  {
  }

  lemma PrevNonNull(blocks: seq<Block>, i: nat)
    requires AllAligned(blocks) && i < |blocks|
    ensures AddrAt(blocks, i - 1) != 0 <==> i > 0
  {
    assert i > 0 ==> blocks[i - 1].Aligned();
  }

  lemma EndOfList(blocks: seq<Block>, i: nat)
    requires AllAligned(blocks) && i <= |blocks| && AddrAt(blocks, i) == 0
    ensures i == |blocks|
  {
  }

  lemma KeptSubset(m: map<nat, Byte>, m': map<nat, Byte>, live: set<Block>, fewer: set<Block>)
    requires Kept(m, m', live) && fewer <= live
    ensures Kept(m, m', fewer)
  {
    forall x: nat | InPayload(fewer, x)
      ensures SameAt(m, m', x)
    {
      var b :| b in fewer && b.addr + HEADER <= x < b.End();
      assert b in live;
      assert InPayload(live, x);
    }
  }
}
