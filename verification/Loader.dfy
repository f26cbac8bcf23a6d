/**
 Mapping a static ELF executable in no-replace mode: one private file mapping and one anonymous
 tail for each PT_LOAD, everything undone when any step fails.
 */
module Loader {
  import opened Basics
  import opened Bytes
  import opened Rounding

  // ----- Images and address spaces -----

  const PT_LOAD: nat := 1
  const PT_INTERP: nat := 3
  const ET_EXEC: nat := 2

  datatype Phdr = Phdr(ptype: nat, offset: nat, vaddr: nat, filesz: nat, memsz: nat, flags: bv32)

  datatype Image = Image(etype: nat, phdrs: seq<Phdr>, file: seq<Byte>)

  datatype Prot = Prot(read: bool, write: bool, exec: bool)

  datatype Cell = Cell(byte: Byte, prot: Prot)

  type Space = map<nat, Cell>

  datatype Mapping = Mapping(addr: nat, length: nat)

  function FlagsToProt(flags: bv32): (r: Prot) { Prot(flags & 4 != 0, flags & 2 != 0, flags & 1 != 0) }

  predicate Within(a: nat, addr: nat, length: nat) { addr <= a < addr + length }

  predicate Free(space: Space, addr: nat, length: nat) { forall a :: addr <= a < addr + length ==> a !in space }

  /** The file seen through a mapping: zero behind its end. */
  function FileByte(file: seq<Byte>, at: nat): (r: Byte) { if at < |file| then file[at] else 0 }

  function FilePages(addr: nat, length: nat, prot: Prot, file: seq<Byte>, offset: nat): (r: Space) {
    map a | addr <= a < addr + length && Within(a, addr, length) :: Cell(FileByte(file, offset + (a - addr)), prot)
  }

  function ZeroPages(addr: nat, length: nat, prot: Prot): (r: Space) {
    map a | addr <= a < addr + length && Within(a, addr, length) :: Cell(0, prot)
  }

  function Unmapped(space: Space, m: Mapping): (r: Space) {
    map a | a in space && !(m.addr <= a < m.addr + m.length) :: space[a]
  }

  function Protected(space: Space, addr: nat, length: nat, prot: Prot): (r: Space) {
    map a | a in space :: if addr <= a < addr + length then Cell(space[a].byte, prot) else space[a]
  }

  function Zeroed(space: Space, from: nat, to: nat): (r: Space) {
    map a | a in space :: if from <= a < to then Cell(0, space[a].prot) else space[a]
  }

  /** All the mappings removed, the latest first. */
  function UnmappedAll(space: Space, items: seq<Mapping>): (r: Space) {
    if items == [] then space
    else UnmappedAll(Unmapped(space, items[|items| - 1]), items[..|items| - 1])
  }

  // ----- What a segment is to look like -----

  predicate Loads(p: Phdr) { p.ptype == PT_LOAD && p.memsz != 0 }

  function Floor(x: nat, page: nat): (r: nat)
    requires page > 0
    ensures r <= x < r + page
  {
    x - x % page
  }

  predicate ValidSegment(p: Phdr, page: nat, fileSize: nat)
    requires page > 0
  {
    && p.filesz <= p.memsz
    && p.offset + p.filesz <= fileSize
    && p.offset - Floor(p.offset, page) == p.vaddr - Floor(p.vaddr, page)
  }

  function SegmentStart(p: Phdr, page: nat): (r: nat)
    requires page > 0
  {
    Floor(p.vaddr, page)
  }

  /** Where the file-backed pages end. */
  function FileTotal(p: Phdr, page: nat): (r: nat)
    requires page > 0
    ensures r == 0 <==> p.filesz == 0
  {
    if p.filesz != 0 then RoundUp(p.vaddr - Floor(p.vaddr, page) + p.filesz, page) else 0
  }

  function MemTotal(p: Phdr, page: nat): (r: nat)
    requires page > 0
  {
    RoundUp(p.vaddr - Floor(p.vaddr, page) + p.memsz, page)
  }

  /** The part of the last file-backed page that belongs to the zero-initialised data. */
  predicate InFilePageBss(p: Phdr, a: nat) { p.vaddr + p.filesz <= a < p.vaddr + p.memsz }

  function FilePart(p: Phdr, page: nat, file: seq<Byte>): (r: Space)
    requires page > 0
  {
    var lo := SegmentStart(p, page);
    map a | lo <= a < lo + FileTotal(p, page) ::
      Cell(if InFilePageBss(p, a) then 0 else FileByte(file, Floor(p.offset, page) + (a - lo)), FlagsToProt(p.flags))
  }

  function AnonPart(p: Phdr, page: nat): (r: Space)
    requires page > 0
  {
    var lo, fileTotal := SegmentStart(p, page), FileTotal(p, page);
    ZeroPages(lo + fileTotal, Excess(MemTotal(p, page), fileTotal), FlagsToProt(p.flags))
  }

  function Excess(a: nat, b: nat): (r: nat) { if a > b then a - b else 0 }

  function SegmentImage(p: Phdr, page: nat, file: seq<Byte>): (r: Space)
    requires page > 0
  {
    FilePart(p, page, file) + AnonPart(p, page)
  }

  predicate InPages(p: Phdr, page: nat, a: nat)
    requires page > 0
  {
    SegmentStart(p, page) <= a < SegmentStart(p, page) + MemTotal(p, page)
  }

  /** The address space with the segments of phdrs added. */
  function Loaded(space: Space, phdrs: seq<Phdr>, page: nat, file: seq<Byte>): (r: Space)
    requires page > 0
  {
    if phdrs == [] then space
    else
      var before := Loaded(space, phdrs[..|phdrs| - 1], page, file);
      var p := phdrs[|phdrs| - 1];
      if Loads(p) then before + SegmentImage(p, page, file) else before
  }

  /** Every segment is valid, and none lands on anything mapped before it. */
  predicate Loadable(space: Space, phdrs: seq<Phdr>, page: nat, file: seq<Byte>)
    requires page > 0
  {
    if phdrs == [] then true
    else
      var before, p := phdrs[..|phdrs| - 1], phdrs[|phdrs| - 1];
      && Loadable(space, before, page, file)
      && (Loads(p) ==> ValidSegment(p, page, |file|)
                       && Free(Loaded(space, before, page, file), SegmentStart(p, page), MemTotal(p, page)))
  }

  // ----- The meaning of PT_LOAD -----

  lemma RoundUpMonotone(x: nat, y: nat, page: nat)
    requires page > 0 && x <= y
    ensures RoundUp(x, page) <= RoundUp(y, page)
  {
    var rx, ry := RoundUp(x, page), RoundUp(y, page);
    if ry < rx {
      assert rx == (rx / page) * page && ry == (ry / page) * page;
      if rx / page <= ry / page {
        if rx / page < ry / page {
          MulStep(ry / page, rx / page, page);
        }
      } else {
        MulStep(rx / page, ry / page, page);
      }
    }
  }

  lemma FileInMem(p: Phdr, page: nat)
    requires page > 0 && p.filesz <= p.memsz
    ensures FileTotal(p, page) <= MemTotal(p, page)
  {
    RoundUpMonotone(p.vaddr - Floor(p.vaddr, page) + p.filesz, p.vaddr - Floor(p.vaddr, page) + p.memsz, page);
  }

  /** Read, write and execute exactly as the bits 4, 2 and 1 of the flags say. */
  predicate PermittedAs(prot: Prot, flags: bv32) {
    (prot.read <==> flags & 4 != 0) && (prot.write <==> flags & 2 != 0) && (prot.exec <==> flags & 1 != 0)
  }

  /** The PT_LOAD rule: file bytes, then zeros up to memsz, and the segment's permissions on all its pages. */
  lemma SegmentMeaning(p: Phdr, page: nat, file: seq<Byte>, a: nat)
    requires page > 0 && ValidSegment(p, page, |file|)
    ensures a in SegmentImage(p, page, file) <==> InPages(p, page, a)
    ensures p.vaddr <= a < p.vaddr + p.memsz ==> InPages(p, page, a)
    ensures InPages(p, page, a) ==> PermittedAs(SegmentImage(p, page, file)[a].prot, p.flags)
    ensures p.vaddr <= a < p.vaddr + p.filesz ==>
              SegmentImage(p, page, file)[a].byte == file[p.offset + (a - p.vaddr)]
    ensures p.vaddr + p.filesz <= a < p.vaddr + p.memsz ==> SegmentImage(p, page, file)[a].byte == 0
  {
    FileInMem(p, page);
  }

  // ----- The kernel -----

  /** The calling process. `refusals` says which of the coming fallible calls are refused. */
  class Process {
    var space: Space
    var refusals: seq<bool>

    constructor (space: Space, refusals: seq<bool>)
      ensures this.space == space && this.refusals == refusals
    {
      this.space, this.refusals := space, refusals;
    }

    method Refused() returns (b: bool)
      modifies this`refusals
      ensures b ==> true in old(refusals)
      ensures true in refusals ==> true in old(refusals)
    {
      b := false;
      if refusals != [] {
        b := refusals[0];
        refusals := refusals[1..];
      }
    }

    /** mmap in no-replace mode, private and file-backed. */
    method MapFile(addr: nat, length: nat, prot: Prot, file: seq<Byte>, offset: nat) returns (ok: bool)
      modifies this
      ensures true in refusals ==> true in old(refusals)
      ensures ok ==> Free(old(space), addr, length) && space == old(space) + FilePages(addr, length, prot, file, offset)
      ensures !ok ==> space == old(space) && (!Free(space, addr, length) || true in old(refusals))
    {
      var refused := Refused();
      ok := !refused && Free(space, addr, length);
      if ok {
        space := space + FilePages(addr, length, prot, file, offset);
      }
    }

    /** mmap in no-replace mode, private and anonymous. */
    method MapAnonymous(addr: nat, length: nat, prot: Prot) returns (ok: bool)
      modifies this
      ensures true in refusals ==> true in old(refusals)
      ensures ok ==> Free(old(space), addr, length) && space == old(space) + ZeroPages(addr, length, prot)
      ensures !ok ==> space == old(space) && (!Free(space, addr, length) || true in old(refusals))
    {
      var refused := Refused();
      ok := !refused && Free(space, addr, length);
      if ok {
        space := space + ZeroPages(addr, length, prot);
      }
    }

    method Unmap(addr: nat, length: nat)
      modifies this`space
      ensures space == Unmapped(old(space), Mapping(addr, length))
    {
      space := Unmapped(space, Mapping(addr, length));
    }

    method Protect(addr: nat, length: nat, prot: Prot) returns (ok: bool)
      modifies this
      ensures true in refusals ==> true in old(refusals)
      ensures ok ==> space == Protected(old(space), addr, length, prot)
      ensures !ok ==> space == old(space) && true in old(refusals)
    {
      var refused := Refused();
      ok := !refused;
      if ok {
        space := Protected(space, addr, length, prot);
      }
    }

    /** memset to zero: the whole range must be mapped writable. */
    method ZeroFill(from: nat, to: nat)
      requires Writable(space, from, to)
      modifies this`space
      ensures space == Zeroed(old(space), from, to)
    {
      space := Zeroed(space, from, to);
    }
  }

  /** The growing list of what has been mapped. */
  class MappingList {
    var items: seq<Mapping>
    var cap: nat

    constructor ()
      ensures items == []
    {
      items, cap := [], 0;
    }

    /** add_mapping: only growing the list can fail. */
    method Add(process: Process, addr: nat, length: nat) returns (ok: bool)
      modifies this, process`refusals
      ensures true in process.refusals ==> true in old(process.refusals)
      ensures ok ==> items == old(items) + [Mapping(addr, length)]
      ensures !ok ==> items == old(items) && true in old(process.refusals)
    {
      if |items| == cap {
        var refused := process.Refused();
        if refused {
          return false;
        }
        cap := if cap != 0 then cap * 2 else 8;
      }
      items := items + [Mapping(addr, length)];
      return true;
    }

    /** loader_unmap_all. */
    method UnmapAll(process: Process)
      modifies this, process`space
      ensures process.space == UnmappedAll(old(process.space), old(items))
      ensures items == []
    {
      var i := |items|;
      assert items[..i] == items;
      while i > 0
        invariant 0 <= i <= |items| && items == old(items)
        invariant UnmappedAll(process.space, items[..i]) == UnmappedAll(old(process.space), old(items))
      {
        process.Unmap(items[i - 1].addr, items[i - 1].length);
        assert items[..i][..i - 1] == items[..i - 1];
        i := i - 1;
      }
      items, cap := [], 0;
    }
  }

  // ----- Undoing -----

  /** One more mapping, on free addresses, undoes to the same thing. */
  lemma UnmappedAllSnoc(space: Space, items: seq<Mapping>, m: Mapping)
    ensures UnmappedAll(space, items + [m]) == UnmappedAll(Unmapped(space, m), items)
  {
    assert (items + [m])[..|items|] == items;
  }

  /** The two spaces agree outside the mapping, where the first has nothing. */
  predicate Extends(before: Space, after: Space, m: Mapping) {
    Unmapped(after, m) == before
  }

  lemma FilePagesExtend(space: Space, m: Mapping, prot: Prot, file: seq<Byte>, offset: nat)
    requires Free(space, m.addr, m.length)
    ensures Extends(space, space + FilePages(m.addr, m.length, prot, file, offset), m)
  {
  }

  lemma ZeroPagesExtend(space: Space, m: Mapping, prot: Prot)
    requires Free(space, m.addr, m.length)
    ensures Extends(space, space + ZeroPages(m.addr, m.length, prot), m)
  {
  }

  lemma ZeroedExtends(before: Space, after: Space, m: Mapping, from: nat, to: nat)
    requires Extends(before, after, m) && m.addr <= from && to <= m.addr + m.length
    ensures Extends(before, Zeroed(after, from, to), m)
  {
    var b := Unmapped(Zeroed(after, from, to), m);
    assert forall a :: a in b <==> a in Unmapped(after, m);
    assert forall a :: a in b ==> b[a] == Unmapped(after, m)[a];
  }

  lemma ProtectedExtends(before: Space, after: Space, m: Mapping, prot: Prot)
    requires Extends(before, after, m)
    ensures Extends(before, Protected(after, m.addr, m.length, prot), m)
  {
    var b := Unmapped(Protected(after, m.addr, m.length, prot), m);
    assert forall a :: a in b <==> a in Unmapped(after, m);
    assert forall a :: a in b ==> b[a] == Unmapped(after, m)[a];
  }

  // ----- One segment -----

  /** Where the zero-filling of the last file-backed page stops. */
  function ZeroEnd(p: Phdr, page: nat): (r: nat)
    requires page > 0
  {
    var filePageEnd := SegmentStart(p, page) + FileTotal(p, page);
    if p.vaddr + p.memsz < filePageEnd then p.vaddr + p.memsz else filePageEnd
  }

  function FirstPages(p: Phdr, page: nat, file: seq<Byte>): (r: Space)
    requires page > 0
  {
    FilePages(SegmentStart(p, page), FileTotal(p, page), FlagsToProt(p.flags).(write := true), file, Floor(p.offset, page))
  }

  function ZeroedPages(space: Space, p: Phdr, page: nat): (r: Space)
    requires page > 0
  {
    if p.memsz > p.filesz && ZeroEnd(p, page) > p.vaddr + p.filesz
    then Zeroed(space, p.vaddr + p.filesz, ZeroEnd(p, page)) else space
  }

  /** Map, zero, protect: together they make the file part. */
  lemma FilePartBuilt(space: Space, p: Phdr, page: nat, file: seq<Byte>)
    requires page > 0 && p.filesz != 0 && Free(space, SegmentStart(p, page), FileTotal(p, page))
    ensures Protected(ZeroedPages(space + FirstPages(p, page, file), p, page), SegmentStart(p, page), FileTotal(p, page),
                      FlagsToProt(p.flags))
         == space + FilePart(p, page, file)
  {
    var lo, n := SegmentStart(p, page), FileTotal(p, page);
    var built := Protected(ZeroedPages(space + FirstPages(p, page, file), p, page), lo, n, FlagsToProt(p.flags));
    var goal := space + FilePart(p, page, file);
    assert forall a :: a in built <==> a in goal;
    forall a | a in built
      ensures built[a] == goal[a]
    {
      if lo <= a < lo + n {
        assert a !in space;
      }
    }
  }

  lemma ZeroedPagesExtend(before: Space, after: Space, p: Phdr, page: nat, m: Mapping)
    requires page > 0 && p.filesz != 0 && m == Mapping(SegmentStart(p, page), FileTotal(p, page))
    requires Extends(before, after, m)
    ensures Extends(before, ZeroedPages(after, p, page), m)
  {
    if p.memsz > p.filesz && ZeroEnd(p, page) > p.vaddr + p.filesz {
      ZeroedExtends(before, after, m, p.vaddr + p.filesz, ZeroEnd(p, page));
    }
  }

  method MapFilePart(process: Process, list: MappingList, p: Phdr, page: nat, file: seq<Byte>) returns (ok: bool)
    requires page > 0 && p.filesz != 0
    modifies process, list
    ensures true in process.refusals ==> true in old(process.refusals)
    ensures UnmappedAll(process.space, list.items) == UnmappedAll(old(process.space), old(list.items))
    ensures ok ==> Free(old(process.space), SegmentStart(p, page), FileTotal(p, page))
                   && process.space == old(process.space) + FilePart(p, page, file)
    ensures !ok ==> !Free(old(process.space), SegmentStart(p, page), FileTotal(p, page)) || true in old(process.refusals)
  {
    ghost var before := process.space;
    ghost var items := list.items;
    var lo, n := SegmentStart(p, page), FileTotal(p, page);
    ghost var m := Mapping(lo, n);
    ok := MapTracked(process, list, p, page, file);
    if !ok {
      return;
    }
    ok := ZeroAndProtect(process, p, page, file, before);
    UnmappedAllSnoc(process.space, items, m);
  }

  /** The file-backed mmap, recorded; taken back at once if it cannot be recorded. */
  method MapTracked(process: Process, list: MappingList, p: Phdr, page: nat, file: seq<Byte>) returns (ok: bool)
    requires page > 0 && p.filesz != 0
    modifies process, list
    ensures true in process.refusals ==> true in old(process.refusals)
    ensures ok ==> Free(old(process.space), SegmentStart(p, page), FileTotal(p, page))
                   && process.space == old(process.space) + FirstPages(p, page, file)
                   && list.items == old(list.items) + [Mapping(SegmentStart(p, page), FileTotal(p, page))]
    ensures !ok ==> process.space == old(process.space) && list.items == old(list.items)
    ensures !ok ==> !Free(old(process.space), SegmentStart(p, page), FileTotal(p, page)) || true in old(process.refusals)
  {
    ghost var before := process.space;
    var lo, n := SegmentStart(p, page), FileTotal(p, page);
    var temporary := FlagsToProt(p.flags).(write := true);
    ok := process.MapFile(lo, n, temporary, file, Floor(p.offset, page));
    if ok {
      FilePagesExtend(before, Mapping(lo, n), temporary, file, Floor(p.offset, page));
      ok := list.Add(process, lo, n);
      if !ok {
        process.Unmap(lo, n);
      }
    }
  }

  predicate Writable(space: Space, from: nat, to: nat) {
    forall a :: from <= a < to ==> a in space && space[a].prot.write
  }

  lemma WritableTail(space: Space, p: Phdr, page: nat, file: seq<Byte>)
    requires page > 0 && p.filesz != 0
    ensures Writable(space + FirstPages(p, page, file), p.vaddr + p.filesz, ZeroEnd(p, page))
  {
  }

  method ZeroTail(process: Process, p: Phdr, page: nat)
    requires page > 0 && Writable(process.space, p.vaddr + p.filesz, ZeroEnd(p, page))
    modifies process`space
    ensures process.space == ZeroedPages(old(process.space), p, page)
  {
    if p.memsz > p.filesz {
      var zeroEnd := ZeroEnd(p, page);
      if zeroEnd > p.vaddr + p.filesz {
        process.ZeroFill(p.vaddr + p.filesz, zeroEnd);
      }
    }
  }

  method ZeroAndProtect(process: Process, p: Phdr, page: nat, file: seq<Byte>, ghost before: Space) returns (ok: bool)
    requires page > 0 && p.filesz != 0
    requires Free(before, SegmentStart(p, page), FileTotal(p, page))
    requires process.space == before + FirstPages(p, page, file)
    modifies process
    ensures true in process.refusals ==> true in old(process.refusals)
    ensures Extends(before, process.space, Mapping(SegmentStart(p, page), FileTotal(p, page)))
    ensures ok ==> process.space == before + FilePart(p, page, file)
    ensures !ok ==> true in old(process.refusals)
  {
    var lo, n := SegmentStart(p, page), FileTotal(p, page);
    ghost var m := Mapping(lo, n);
    FilePagesExtend(before, m, FlagsToProt(p.flags).(write := true), file, Floor(p.offset, page));
    FilePartBuilt(before, p, page, file);
    ZeroedPagesExtend(before, process.space, p, page, m);
    ProtectedExtends(before, ZeroedPages(process.space, p, page), m, FlagsToProt(p.flags));
    WritableTail(before, p, page, file);
    ZeroTail(process, p, page);
    ok := process.Protect(lo, n, FlagsToProt(p.flags));
  }

  /** The anonymous mmap, recorded; taken back at once if it cannot be recorded. */
  method MapAnonTracked(process: Process, list: MappingList, addr: nat, n: nat, prot: Prot) returns (ok: bool)
    modifies process, list
    ensures true in process.refusals ==> true in old(process.refusals)
    ensures UnmappedAll(process.space, list.items) == UnmappedAll(old(process.space), old(list.items))
    ensures ok ==> Free(old(process.space), addr, n) && process.space == old(process.space) + ZeroPages(addr, n, prot)
    ensures !ok ==> !Free(old(process.space), addr, n) || true in old(process.refusals)
  {
    ghost var before := process.space;
    ghost var items := list.items;
    ok := process.MapAnonymous(addr, n, prot);
    if ok {
      ZeroPagesExtend(before, Mapping(addr, n), prot);
      UnmappedAllSnoc(process.space, items, Mapping(addr, n));
      ok := list.Add(process, addr, n);
      if !ok {
        process.Unmap(addr, n);
      }
    }
  }

  method MapAnonPart(process: Process, list: MappingList, p: Phdr, page: nat) returns (ok: bool)
    requires page > 0 && MemTotal(p, page) > FileTotal(p, page)
    modifies process, list
    ensures true in process.refusals ==> true in old(process.refusals)
    ensures UnmappedAll(process.space, list.items) == UnmappedAll(old(process.space), old(list.items))
    ensures ok ==> Free(old(process.space), SegmentStart(p, page) + FileTotal(p, page), MemTotal(p, page) - FileTotal(p, page))
                   && process.space == old(process.space) + AnonPart(p, page)
    ensures !ok ==> !Free(old(process.space), SegmentStart(p, page) + FileTotal(p, page), MemTotal(p, page) - FileTotal(p, page))
                    || true in old(process.refusals)
  {
    var addr, n := SegmentStart(p, page) + FileTotal(p, page), MemTotal(p, page) - FileTotal(p, page);
    ok := MapAnonTracked(process, list, addr, n, FlagsToProt(p.flags));
  }

  lemma FloorAligned(x: nat, page: nat)
    requires page > 0
    ensures Floor(x, page) % page == 0
  {
    DivUnique(Floor(x, page), page, x / page, 0);
  }

  /** A segment without file bytes has no file part; any other has both parts apart. */
  lemma PartsFree(space: Space, p: Phdr, page: nat, file: seq<Byte>)
    requires page > 0 && p.filesz <= p.memsz
    ensures var lo, f, n := SegmentStart(p, page), FileTotal(p, page), MemTotal(p, page);
      Free(space, lo, n) <==> Free(space, lo, f) && Free(space + FilePart(p, page, file), lo + f, Excess(n, f))
  {
    FileInMem(p, page);
    var lo, f, n := SegmentStart(p, page), FileTotal(p, page), MemTotal(p, page);
    var mid := space + FilePart(p, page, file);
    if Free(space, lo, f) && Free(mid, lo + f, Excess(n, f)) {
      forall a | lo <= a < lo + n
        ensures a !in space
      {
        if a >= lo + f {
          assert a !in mid;
        }
      }
    }
  }

  lemma PartsTogether(space: Space, p: Phdr, page: nat, file: seq<Byte>)
    requires page > 0
    ensures space + FilePart(p, page, file) + AnonPart(p, page) == space + SegmentImage(p, page, file)
  {
  }

  lemma EmptyParts(space: Space, p: Phdr, page: nat, file: seq<Byte>)
    requires page > 0
    ensures p.filesz == 0 ==> space + FilePart(p, page, file) == space
    ensures MemTotal(p, page) <= FileTotal(p, page) ==> space + AnonPart(p, page) == space
  {
  }

  /** map_one_segment. */
  method MapSegment(process: Process, list: MappingList, p: Phdr, page: nat, file: seq<Byte>) returns (ok: bool)
    requires page > 0
    modifies process, list
    ensures true in process.refusals ==> true in old(process.refusals)
    ensures UnmappedAll(process.space, list.items) == UnmappedAll(old(process.space), old(list.items))
    ensures ok ==> ValidSegment(p, page, |file|) && Free(old(process.space), SegmentStart(p, page), MemTotal(p, page))
                   && process.space == old(process.space) + SegmentImage(p, page, file)
    ensures !ok ==> !ValidSegment(p, page, |file|) || true in old(process.refusals)
                    || !Free(old(process.space), SegmentStart(p, page), MemTotal(p, page))
  {
    if p.filesz > p.memsz {
      return false;
    }
    if p.offset + p.filesz > |file| {
      return false;
    }
    var mapVaddr, mapOffset := Floor(p.vaddr, page), Floor(p.offset, page);
    var delta := p.vaddr - mapVaddr;
    if p.offset - mapOffset != delta {
      return false;
    }
    FloorAligned(p.offset, page);
    if mapOffset % page != 0 {
      return false;
    }
    ok := MapParts(process, list, p, page, file);
  }

  method MapParts(process: Process, list: MappingList, p: Phdr, page: nat, file: seq<Byte>) returns (ok: bool)
    requires page > 0 && p.filesz <= p.memsz
    modifies process, list
    ensures true in process.refusals ==> true in old(process.refusals)
    ensures UnmappedAll(process.space, list.items) == UnmappedAll(old(process.space), old(list.items))
    ensures ok ==> Free(old(process.space), SegmentStart(p, page), MemTotal(p, page))
                   && process.space == old(process.space) + SegmentImage(p, page, file)
    ensures !ok ==> true in old(process.refusals) || !Free(old(process.space), SegmentStart(p, page), MemTotal(p, page))
  {
    ghost var before := process.space;
    PartsFree(before, p, page, file);
    PartsTogether(before, p, page, file);
    EmptyParts(before, p, page, file);
    EmptyParts(before + FilePart(p, page, file), p, page, file);
    var memTotal, fileTotal := MemTotal(p, page), FileTotal(p, page);
    if fileTotal != 0 {
      ok := MapFilePart(process, list, p, page, file);
      if !ok {
        return;
      }
    }
    if memTotal > fileTotal {
      ok := MapAnonPart(process, list, p, page);
      if !ok {
        return;
      }
    }
    ok := true;
  }

  // ----- The whole image -----

  predicate HasInterp(phdrs: seq<Phdr>) { exists p :: p in phdrs && p.ptype == PT_INTERP }

  method ImageHasInterp(image: Image) returns (found: bool)
    ensures found <==> HasInterp(image.phdrs)
  {
    for i := 0 to |image.phdrs|
      invariant forall k :: 0 <= k < i ==> image.phdrs[k].ptype != PT_INTERP
    {
      if image.phdrs[i].ptype == PT_INTERP {
        return true;
      }
    }
    return false;
  }

  /** The image is a static executable that fits into the address space. */
  predicate Acceptable(space: Space, image: Image, page: nat)
    requires page > 0
  {
    image.etype == ET_EXEC && !HasInterp(image.phdrs) && Loadable(space, image.phdrs, page, image.file)
  }

  /** Loading a prefix of the headers fails only if loading all of them would. */
  lemma {:induction false} LoadablePrefix(space: Space, phdrs: seq<Phdr>, n: nat, page: nat, file: seq<Byte>)
    requires page > 0 && n <= |phdrs| && Loadable(space, phdrs, page, file)
    ensures Loadable(space, phdrs[..n], page, file)
  {
    if n < |phdrs| {
      LoadablePrefix(space, phdrs[..|phdrs| - 1], n, page, file);
      assert phdrs[..|phdrs| - 1][..n] == phdrs[..n];
    } else {
      assert phdrs[..n] == phdrs;
    }
  }

  /**
   loader_map_image in no-replace mode. It succeeds with exactly the image's segments added, or
   leaves the address space as it was; and unless the kernel refuses something it succeeds
   whenever the image is acceptable.
   */
  method MapImage(process: Process, list: MappingList, image: Image, page: nat) returns (ok: bool)
    requires page > 0
    modifies process, list
    ensures ok ==> Acceptable(old(process.space), image, page)
                   && process.space == Loaded(old(process.space), image.phdrs, page, image.file)
                   && UnmappedAll(process.space, list.items) == old(process.space)
    ensures !ok ==> process.space == old(process.space) && list.items == []
    ensures !ok ==> !Acceptable(old(process.space), image, page) || true in old(process.refusals)
  {
    list.items, list.cap := [], 0;
    if image.etype != ET_EXEC {
      return false;
    }
    var interp := ImageHasInterp(image);
    if interp {
      return false;
    }
    ok := MapSegments(process, list, image, page);
  }

  method MapSegments(process: Process, list: MappingList, image: Image, page: nat) returns (ok: bool)
    requires page > 0 && list.items == []
    modifies process, list
    ensures ok ==> Loadable(old(process.space), image.phdrs, page, image.file)
                   && process.space == Loaded(old(process.space), image.phdrs, page, image.file)
                   && UnmappedAll(process.space, list.items) == old(process.space)
    ensures !ok ==> process.space == old(process.space) && list.items == []
    ensures !ok ==> !Loadable(old(process.space), image.phdrs, page, image.file) || true in old(process.refusals)
  {
    ghost var start := process.space;
    for i := 0 to |image.phdrs|
      invariant Loadable(start, image.phdrs[..i], page, image.file)
      invariant process.space == Loaded(start, image.phdrs[..i], page, image.file)
      invariant UnmappedAll(process.space, list.items) == start
      invariant true in process.refusals ==> true in old(process.refusals)
    {
      var p := image.phdrs[i];
      assert image.phdrs[..i + 1][..i] == image.phdrs[..i];
      if Loads(p) {
        ok := MapSegment(process, list, p, page, image.file);
        if !ok {
          list.UnmapAll(process);
          NotLoadable(start, image.phdrs, i, page, image.file);
          return;
        }
      }
    }
    assert image.phdrs[..|image.phdrs|] == image.phdrs;
    ok := true;
  }

  lemma NotLoadable(space: Space, phdrs: seq<Phdr>, i: nat, page: nat, file: seq<Byte>)
    requires page > 0 && i < |phdrs|
    ensures Loadable(space, phdrs, page, file) && Loads(phdrs[i]) ==>
              && ValidSegment(phdrs[i], page, |file|)
              && Free(Loaded(space, phdrs[..i], page, file), SegmentStart(phdrs[i], page), MemTotal(phdrs[i], page))
  {
    if Loadable(space, phdrs, page, file) && Loads(phdrs[i]) {
      LoadablePrefix(space, phdrs, i + 1, page, file);
      assert phdrs[..i + 1][..i] == phdrs[..i];
    }
  }

  // ----- What a loaded image means -----

  /** Loading only adds: what was mapped before stays, byte for byte. */
  lemma {:induction false} LoadedKeeps(space: Space, phdrs: seq<Phdr>, page: nat, file: seq<Byte>, a: nat)
    requires page > 0 && Loadable(space, phdrs, page, file) && a in space
    ensures a in Loaded(space, phdrs, page, file) && Loaded(space, phdrs, page, file)[a] == space[a]
  {
    if phdrs != [] {
      var before, p := phdrs[..|phdrs| - 1], phdrs[|phdrs| - 1];
      LoadedKeeps(space, before, page, file, a);
      if Loads(p) {
        SegmentMeaning(p, page, file, a);
      }
    }
  }

  /** Nothing is mapped beyond what was, and the pages of the segments. */
  lemma {:induction false} LoadedOnly(space: Space, phdrs: seq<Phdr>, page: nat, file: seq<Byte>, a: nat)
    requires page > 0 && Loadable(space, phdrs, page, file) && a in Loaded(space, phdrs, page, file) && a !in space
    ensures exists i :: 0 <= i < |phdrs| && Loads(phdrs[i]) && InPages(phdrs[i], page, a)
  {
    if phdrs != [] {
      var before, p := phdrs[..|phdrs| - 1], phdrs[|phdrs| - 1];
      if a in Loaded(space, before, page, file) {
        LoadedOnly(space, before, page, file, a);
        var i :| 0 <= i < |before| && Loads(before[i]) && InPages(before[i], page, a);
        assert phdrs[i] == before[i];
      } else {
        SegmentMeaning(p, page, file, a);
        assert Loads(phdrs[|phdrs| - 1]);
      }
    }
  }

  /** Each segment's pages hold that segment's image, whatever was loaded after it. */
  lemma {:induction false} LoadedSegment(space: Space, phdrs: seq<Phdr>, page: nat, file: seq<Byte>, i: nat, a: nat)
    requires page > 0 && i < |phdrs| && Loads(phdrs[i])
    requires Loadable(space, phdrs, page, file) && InPages(phdrs[i], page, a)
    ensures ValidSegment(phdrs[i], page, |file|) && a in SegmentImage(phdrs[i], page, file)
    ensures a in Loaded(space, phdrs, page, file)
    ensures Loaded(space, phdrs, page, file)[a] == SegmentImage(phdrs[i], page, file)[a]
  {
    var last := phdrs[|phdrs| - 1];
    if i == |phdrs| - 1 {
      SegmentMeaning(last, page, file, a);
    } else {
      LoadedSegment(space, phdrs[..|phdrs| - 1], page, file, i, a);
      if Loads(last) {
        SegmentMeaning(last, page, file, a);
      }
    }
  }

  /** a lies on a page that holds some byte of the segment. */
  predicate OnItsPages(p: Phdr, page: nat, a: nat)
    requires page > 0 && p.memsz > 0
  {
    p.vaddr / page <= a / page <= (p.vaddr + p.memsz - 1) / page
  }

  lemma FloorIsPageStart(x: nat, page: nat)
    requires page > 0
    ensures Floor(x, page) == (x / page) * page
  {
  }

  /** The least multiple of the page size that is at least x, a positive number. */
  lemma RoundUpIsPageEnd(x: nat, page: nat)
    requires page > 0 && x > 0
    ensures RoundUp(x, page) == ((x - 1) / page) * page + page
  {
    var r, q := RoundUp(x, page), (x - 1) / page;
    assert r == (r / page) * page;
    if r / page > q + 1 {
      MulStep(r / page, q + 1, page);
      MulNext(q, page);
    } else if r / page < q + 1 {
      MulNext(q, page);
      if r / page < q {
        MulStep(q, r / page, page);
      }
    }
  }

  /** Below k full pages exactly the numbers whose page number is below k. */
  lemma PageBelow(a: nat, k: int, page: nat)
    requires page > 0
    ensures a < k * page <==> a / page < k
  {
    var q := a / page;
    assert a == q * page + a % page;
    if q < k {
      MulStep(k, q, page);
    } else if q > k {
      MulStep(q, k, page);
    }
  }

  /** Rounding the distance from a page start is rounding the address. */
  lemma RoundUpShifts(start: nat, x: nat, page: nat)
    requires page > 0 && start % page == 0
    ensures start + RoundUp(x, page) == RoundUp(start + x, page)
  {
    var k := start / page;
    assert start == k * page;
    assert x == (x / page) * page + x % page;
    MulAdd(k, x / page, page);
    DivUnique(start + x, page, k + x / page, x % page);
  }

  lemma MulAdd(a: nat, b: nat, m: nat)
    ensures (a + b) * m == a * m + b * m
  {
  }

  /** A segment takes exactly the pages it needs. */
  lemma PagesExact(p: Phdr, page: nat, a: nat)
    requires page > 0 && p.memsz > 0
    ensures InPages(p, page, a) <==> OnItsPages(p, page, a)
  {
    var lo, end := Floor(p.vaddr, page), p.vaddr + p.memsz;
    FloorIsPageStart(p.vaddr, page);
    FloorAligned(p.vaddr, page);
    RoundUpShifts(lo, p.vaddr - lo + p.memsz, page);
    RoundUpIsPageEnd(end, page);
    MulNext((end - 1) / page, page);
    PageBelow(a, p.vaddr / page, page);
    PageBelow(a, (end - 1) / page + 1, page);
  }

  /** The PT_LOAD rule for the whole image, in the final address space. */
  lemma LoadedMeaning(space: Space, image: Image, page: nat, i: nat, a: nat)
    requires page > 0 && Acceptable(space, image, page) && i < |image.phdrs| && Loads(image.phdrs[i])
    ensures var p, loaded := image.phdrs[i], Loaded(space, image.phdrs, page, image.file);
      && (OnItsPages(p, page, a) ==> a in loaded && PermittedAs(loaded[a].prot, p.flags))
      && (p.vaddr <= a < p.vaddr + p.filesz ==>
            a in loaded && p.offset + (a - p.vaddr) < |image.file|
            && loaded[a].byte == image.file[p.offset + (a - p.vaddr)])
      && (p.vaddr + p.filesz <= a < p.vaddr + p.memsz ==> a in loaded && loaded[a].byte == 0)
  {
    var p := image.phdrs[i];
    NotLoadable(space, image.phdrs, i, page, image.file);
    SegmentMeaning(p, page, image.file, a);
    PagesExact(p, page, a);
    if InPages(p, page, a) {
      LoadedSegment(space, image.phdrs, page, image.file, i, a);
    }
  }

  // ----- Which images are acceptable -----

  /** The header describes a segment that can be mapped from a file of the given size. */
  predicate Mappable(p: Phdr, page: nat, fileSize: nat)
    requires page > 0
  {
    p.filesz <= p.memsz && p.offset + p.filesz <= fileSize && p.offset % page == p.vaddr % page
  }

  ghost predicate AllMappable(phdrs: seq<Phdr>, page: nat, fileSize: nat)
    requires page > 0
  {
    forall i :: 0 <= i < |phdrs| && Loads(phdrs[i]) ==> Mappable(phdrs[i], page, fileSize)
  }

  /** No segment touches a page in use. */
  ghost predicate AllVacant(space: Space, phdrs: seq<Phdr>, page: nat)
    requires page > 0
  {
    forall i, a {:trigger OnItsPages(phdrs[i], page, a)} ::
      0 <= i < |phdrs| && Loads(phdrs[i]) && a in space ==> !OnItsPages(phdrs[i], page, a)
  }

  /** No two segments share a page. */
  ghost predicate AllApart(phdrs: seq<Phdr>, page: nat)
    requires page > 0
  {
    forall i, j, a {:trigger OnItsPages(phdrs[i], page, a), OnItsPages(phdrs[j], page, a)} ::
      0 <= i < j < |phdrs| && Loads(phdrs[i]) && Loads(phdrs[j]) && OnItsPages(phdrs[i], page, a)
      ==> !OnItsPages(phdrs[j], page, a)
  }

  lemma ValidIsMappable(p: Phdr, page: nat, fileSize: nat)
    requires page > 0
    ensures ValidSegment(p, page, fileSize) <==> Mappable(p, page, fileSize)
  {
  }

  /** a is on the pages of one of the segments. */
  ghost predicate Taken(phdrs: seq<Phdr>, page: nat, a: nat)
    requires page > 0
  {
    exists i {:trigger phdrs[i]} :: 0 <= i < |phdrs| && Loads(phdrs[i]) && OnItsPages(phdrs[i], page, a)
  }

  lemma LoadedKeys(space: Space, phdrs: seq<Phdr>, page: nat, file: seq<Byte>, a: nat)
    requires page > 0 && Loadable(space, phdrs, page, file)
    ensures a in Loaded(space, phdrs, page, file) <==> a in space || Taken(phdrs, page, a)
  {
    if a in space {
      LoadedKeeps(space, phdrs, page, file, a);
    } else if a in Loaded(space, phdrs, page, file) {
      LoadedOnly(space, phdrs, page, file, a);
      var i :| 0 <= i < |phdrs| && Loads(phdrs[i]) && InPages(phdrs[i], page, a);
      PagesExact(phdrs[i], page, a);
    }
    if Taken(phdrs, page, a) {
      var i :| 0 <= i < |phdrs| && Loads(phdrs[i]) && OnItsPages(phdrs[i], page, a);
      PagesExact(phdrs[i], page, a);
      LoadedSegment(space, phdrs, page, file, i, a);
    }
  }

  lemma FreePages(loaded: Space, p: Phdr, page: nat)
    requires page > 0 && p.memsz > 0
    ensures Free(loaded, SegmentStart(p, page), MemTotal(p, page)) <==> forall a :: a in loaded ==> !OnItsPages(p, page, a)
  {
    forall a: nat
      ensures InPages(p, page, a) <==> OnItsPages(p, page, a)
    {
      PagesExact(p, page, a);
    }
    assert Free(loaded, SegmentStart(p, page), MemTotal(p, page)) <==> forall a :: a in loaded ==> !InPages(p, page, a);
  }

  /** The last segment lands on free addresses exactly if no page of its is in use or another segment's. */
  lemma LastIsFree(space: Space, phdrs: seq<Phdr>, page: nat, file: seq<Byte>, p: Phdr)
    requires page > 0 && Loadable(space, phdrs, page, file) && Loads(p)
    ensures Free(Loaded(space, phdrs, page, file), SegmentStart(p, page), MemTotal(p, page)) <==>
      && (forall a :: a in space ==> !OnItsPages(p, page, a))
      && (forall a :: Taken(phdrs, page, a) ==> !OnItsPages(p, page, a))
  {
    FreePages(Loaded(space, phdrs, page, file), p, page);
    forall a: nat
      ensures a in Loaded(space, phdrs, page, file) <==> a in space || Taken(phdrs, page, a)
    {
      LoadedKeys(space, phdrs, page, file, a);
    }
  }

  lemma MappableSnoc(before: seq<Phdr>, p: Phdr, page: nat, fileSize: nat)
    requires page > 0
    ensures AllMappable(before + [p], page, fileSize) <==>
      AllMappable(before, page, fileSize) && (Loads(p) ==> Mappable(p, page, fileSize))
  {
    var phdrs := before + [p];
    assert phdrs[|before|] == p;
    assert forall i :: 0 <= i < |before| ==> phdrs[i] == before[i];
  }

  lemma VacantSnoc(space: Space, before: seq<Phdr>, p: Phdr, page: nat)
    requires page > 0
    ensures AllVacant(space, before + [p], page) <==>
      AllVacant(space, before, page) && (Loads(p) ==> forall a :: a in space ==> !OnItsPages(p, page, a))
  {
    var phdrs := before + [p];
    assert phdrs[|before|] == p;
    assert forall i :: 0 <= i < |before| ==> phdrs[i] == before[i];
  }

  lemma ApartSnoc(before: seq<Phdr>, p: Phdr, page: nat)
    requires page > 0
    ensures AllApart(before + [p], page) <==>
      AllApart(before, page) && (Loads(p) ==> forall a :: Taken(before, page, a) ==> !OnItsPages(p, page, a))
  {
    var phdrs := before + [p];
    assert phdrs[|before|] == p;
    assert forall i :: 0 <= i < |before| ==> phdrs[i] == before[i];
  }

  lemma {:induction false} LoadableExact(space: Space, phdrs: seq<Phdr>, page: nat, file: seq<Byte>)
    requires page > 0
    ensures Loadable(space, phdrs, page, file) <==>
      AllMappable(phdrs, page, |file|) && AllVacant(space, phdrs, page) && AllApart(phdrs, page)
  {
    if phdrs != [] {
      var before, p := phdrs[..|phdrs| - 1], phdrs[|phdrs| - 1];
      LoadableExact(space, before, page, file);
      LoadableSnoc(space, before, p, page, file);
      assert before + [p] == phdrs;
    }
  }

  lemma LoadableSnoc(space: Space, before: seq<Phdr>, p: Phdr, page: nat, file: seq<Byte>)
    requires page > 0
    requires Loadable(space, before, page, file) <==>
      AllMappable(before, page, |file|) && AllVacant(space, before, page) && AllApart(before, page)
    ensures Loadable(space, before + [p], page, file) <==>
      AllMappable(before + [p], page, |file|) && AllVacant(space, before + [p], page) && AllApart(before + [p], page)
  {
    assert (before + [p])[..|before|] == before;
    MappableSnoc(before, p, page, |file|);
    VacantSnoc(space, before, p, page);
    ApartSnoc(before, p, page);
    ValidIsMappable(p, page, |file|);
    if Loadable(space, before, page, file) && Loads(p) {
      LastIsFree(space, before, page, file, p);
    }
  }

  /** The images that are loaded, unless the kernel refuses something: static executables whose segments can be mapped, apart. */
  lemma AcceptableExact(space: Space, image: Image, page: nat)
    requires page > 0
    ensures Acceptable(space, image, page) <==>
      && image.etype == 2 && (forall i :: 0 <= i < |image.phdrs| ==> image.phdrs[i].ptype != 3)
      && AllMappable(image.phdrs, page, |image.file|) && AllVacant(space, image.phdrs, page) && AllApart(image.phdrs, page)
  {
    LoadableExact(space, image.phdrs, page, image.file);
  }

  // ----- Address translation -----

  predicate Matches(p: Phdr, a: nat) { p.ptype == PT_LOAD && p.vaddr <= a < p.vaddr + p.filesz }

  /** The header that translates a. */
  predicate FirstMatch(phdrs: seq<Phdr>, a: nat, k: nat) {
    k < |phdrs| && Matches(phdrs[k], a) && forall j :: 0 <= j < k ==> !Matches(phdrs[j], a)
  }

  function OffsetIn(p: Phdr, a: nat): (r: nat)
    requires Matches(p, a)
  {
    p.offset + (a - p.vaddr)
  }

  /** elf_vaddr_to_offset. */
  method VaddrToOffset(phdrs: seq<Phdr>, a: nat) returns (r: Option<nat>)
    ensures r.None? <==> forall j :: 0 <= j < |phdrs| ==> !Matches(phdrs[j], a)
    ensures forall k: nat :: FirstMatch(phdrs, a, k) ==> r == Some(OffsetIn(phdrs[k], a))
  {
    for i := 0 to |phdrs|
      invariant forall j :: 0 <= j < i ==> !Matches(phdrs[j], a)
    {
      if Matches(phdrs[i], a) {
        assert forall k: nat :: FirstMatch(phdrs, a, k) ==> !(k < i) && !(i < k);
        return Some(OffsetIn(phdrs[i], a));
      }
    }
    return None;
  }

  /** The byte at a is the file's byte at the translated offset. */
  predicate TranslatesRight(loaded: Space, file: seq<Byte>, p: Phdr, a: nat)
    requires Matches(p, a)
  {
    a in loaded && OffsetIn(p, a) < |file| && loaded[a].byte == file[OffsetIn(p, a)]
  }

  /** A translation is right whenever the translating segment occupies memory. */
  lemma TranslationHolds(space: Space, image: Image, page: nat, a: nat, k: nat)
    requires page > 0 && Acceptable(space, image, page) && FirstMatch(image.phdrs, a, k) && image.phdrs[k].memsz != 0
    ensures TranslatesRight(Loaded(space, image.phdrs, page, image.file), image.file, image.phdrs[k], a)
  {
    LoadedMeaning(space, image, page, k, a);
  }

  /**
   A segment with file bytes but no memory is skipped by the loader and still translates. Where no
   other mapping covers the address, the translation is right exactly if its segment occupies memory.
   */
  lemma TranslationExact(space: Space, image: Image, page: nat, a: nat, k: nat)
    requires page > 0 && Acceptable(space, image, page) && FirstMatch(image.phdrs, a, k)
    requires a !in space
    requires forall j :: 0 <= j < |image.phdrs| && Loads(image.phdrs[j]) && InPages(image.phdrs[j], page, a) ==> j == k
    ensures TranslatesRight(Loaded(space, image.phdrs, page, image.file), image.file, image.phdrs[k], a)
            <==> image.phdrs[k].memsz != 0
  {
    if image.phdrs[k].memsz != 0 {
      TranslationHolds(space, image, page, a, k);
    } else if a in Loaded(space, image.phdrs, page, image.file) {
      LoadedOnly(space, image.phdrs, page, image.file, a);
    }
  }

  /** Such an image exists: it loads, to nothing at all, and its address still translates. */
  lemma EmptySegmentTranslates()
    ensures var p := Phdr(PT_LOAD, 0, 4096, 1, 0, 4);
      var image := Image(ET_EXEC, [p], [7]);
      && Acceptable(map[], image, 4096) && FirstMatch(image.phdrs, 4096, 0)
      && Loaded(map[], image.phdrs, 4096, image.file) == map[]
      && !TranslatesRight(Loaded(map[], image.phdrs, 4096, image.file), image.file, p, 4096)
  {
    var p := Phdr(PT_LOAD, 0, 4096, 1, 0, 4);
    assert [p][..0] == [];
    assert Loaded(map[], [p], 4096, [7]) == map[];
  }
}
