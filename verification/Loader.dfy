/** The ELF loader of userprog/process.c: which program headers it accepts, and what is in
    the process's memory when it succeeds. */
module Loader {
  import opened ByteTypes
  import opened InodeIo
  import opened UserMemory
  import PageDir
  import Bitmap

  const PT_LOAD := 1
  const PT_DYNAMIC := 2
  const PT_INTERP := 3
  const PT_SHLIB := 5

  /** A program header; every field is an unsigned 32-bit word. */
  datatype Phdr = Phdr(kind: int, offset: int, vaddr: int, filesz: int, memsz: int, flags: int)

  ghost predicate Is32(x: int) { 0 <= x < 0x1_0000_0000 }

  ghost predicate Words(p: Phdr) {
    Is32(p.kind) && Is32(p.offset) && Is32(p.vaddr) && Is32(p.filesz) && Is32(p.memsz) && Is32(p.flags)
  }

  /** 32-bit arithmetic. */
  function Wrap(x: int): (r: int)
    ensures 0 <= r < 0x1_0000_0000
  {
    x % 0x1_0000_0000
  }

  lemma NoWrap(x: int)
    requires Is32(x)
    ensures Wrap(x) == x
  {}

  lemma Wrapped(x: int)
    requires 0x1_0000_0000 <= x < 0x2_0000_0000
    ensures Wrap(x) == x - 0x1_0000_0000
  {}

  /** ROUND_UP (x, PGSIZE). */
  function RoundUp(x: int): int { Wrap(Wrap(x) + PGSIZE - 1) / PGSIZE * PGSIZE }

  /** A segment that may be loaded, in plain numbers: it starts above page 0 and ends below
      PHYS_BASE, is at least as big in memory as in the file, is not empty, starts in the
      file, and sits alike in a page of memory and of the file. */
  ghost predicate Loadable(p: Phdr, fileLength: int) {
    p.offset % PGSIZE == p.vaddr % PGSIZE && p.offset <= fileLength &&
    p.filesz <= p.memsz && 0 < p.memsz && PGSIZE <= p.vaddr && p.vaddr + p.memsz < PHYS_BASE
  }

  /** validate_segment accepts exactly the loadable segments: its sums may wrap, but then it
      says no. */
  method ValidateSegment(p: Phdr, fileLength: int) returns (ok: bool)
    requires Words(p) && 0 <= fileLength < 0x8000_0000
    ensures ok <==> Loadable(p, fileLength)
  {
    if p.vaddr + p.memsz < 0x1_0000_0000 { NoWrap(p.vaddr + p.memsz); } else { Wrapped(p.vaddr + p.memsz); }
    hide Wrap;
    if p.offset % PGSIZE != p.vaddr % PGSIZE {
      return false;
    }
    if p.offset > fileLength {
      return false;
    }
    if p.memsz < p.filesz {
      return false;
    }
    if p.memsz == 0 {
      return false;
    }
    if p.vaddr >= PHYS_BASE {
      return false;
    }
    if Wrap(p.vaddr + p.memsz) >= PHYS_BASE {
      return false;
    }
    if Wrap(p.vaddr + p.memsz) < p.vaddr {
      return false;
    }
    if p.vaddr < PGSIZE {
      return false;
    }
    return true;
  }

  // ---------------------------------------------------------------- PT_LOAD arithmetic

  /** The arguments of load_segment. */
  datatype Request = Request(filePage: int, memPage: int, readBytes: int, zeroBytes: int)

  /** The PT_LOAD case of load, in 32-bit arithmetic. */
  function RequestFor(p: Phdr): Request {
    var pageOffset := p.vaddr % PGSIZE;
    var size := RoundUp(pageOffset + p.memsz);
    var readBytes := if p.filesz > 0 then Wrap(pageOffset + p.filesz) else 0;
    Request(p.offset - p.offset % PGSIZE, p.vaddr - pageOffset, readBytes,
            if p.filesz > 0 then Wrap(size - readBytes) else size)
  }

  lemma RoundUpIs(x: int)
    requires 0 <= x <= PHYS_BASE
    ensures RoundUp(x) % PGSIZE == 0 && x <= RoundUp(x) < x + PGSIZE
    ensures RoundUp(x) == (x + PGSIZE - 1) / PGSIZE * PGSIZE
  {
    NoWrap(x);
    NoWrap(x + PGSIZE - 1);
    hide Wrap;
    MultipleOfPage((x + PGSIZE - 1) / PGSIZE);
  }

  lemma MultipleOfPage(q: int)
    ensures (q * PGSIZE) % PGSIZE == 0 && (q * PGSIZE) / PGSIZE == q
  {}

  /** For a loadable segment no sum wraps, load_segment's assertions hold, its bytes reach from
      the page of p_vaddr past the segment's end, and the pages lie in user space. */
  lemma RequestFits(p: Phdr, fileLength: int)
    requires Words(p) && Loadable(p, fileLength)
    ensures var r := RequestFor(p);
            r.readBytes == (if p.filesz > 0 then p.vaddr - r.memPage + p.filesz else 0) &&
            r.zeroBytes >= 0 && (r.readBytes + r.zeroBytes) % PGSIZE == 0 && r.memPage % PGSIZE == 0 &&
            r.filePage % PGSIZE == 0 &&
            r.filePage >= 0 && r.memPage >= PGSIZE && p.vaddr - r.memPage == p.offset - r.filePage >= 0 &&
            p.vaddr + p.memsz <= r.memPage + r.readBytes + r.zeroBytes <= PHYS_BASE &&
            r.memPage + r.readBytes + r.zeroBytes < p.vaddr + p.memsz + PGSIZE
  {
    var ofs := p.vaddr % PGSIZE;
    RoundUpIs(ofs + p.memsz);
    var size := RoundUp(ofs + p.memsz);
    if p.filesz > 0 {
      NoWrap(ofs + p.filesz);
      NoWrap(size - (ofs + p.filesz));
    }
    PageOfAddress(p.vaddr);
    PageOfAddress(p.offset);
    EndInUser(p.vaddr - ofs, size, p.vaddr + p.memsz);
  }

  lemma PageOfAddress(a: int)
    requires 0 <= a
    ensures (a - a % PGSIZE) % PGSIZE == 0 && 0 <= a - a % PGSIZE <= a && (a >= PGSIZE ==> a - a % PGSIZE >= PGSIZE)
  {}

  lemma EndInUser(page: int, size: int, end: int)
    requires page % PGSIZE == 0 && size % PGSIZE == 0 && page + size < end + PGSIZE && end < PHYS_BASE
    ensures page + size <= PHYS_BASE
  {
    var a, b := page / PGSIZE, size / PGSIZE;
    assert page == a * PGSIZE && size == b * PGSIZE;
    assert (a + b) * PGSIZE < PHYS_BASE + PGSIZE;
  }

  // ---------------------------------------------------------------- pages

  /** Byte x of the stretch that starts at ofs in the file: read from it, or zero. */
  function ImageByte(file: Bytes, ofs: nat, readBytes: nat, x: nat): Byte
    requires ofs + readBytes <= |file| || readBytes == 0
  {
    if x < readBytes then file[ofs + x] else 0
  }

  /** Page k of that stretch. */
  ghost function PageImage(file: Bytes, ofs: nat, readBytes: nat, k: nat): (r: Bytes)
    requires ofs + readBytes <= |file| || readBytes == 0
    ensures |r| == PGSIZE
    ensures forall j :: 0 <= j < PGSIZE ==> r[j] == ImageByte(file, ofs, readBytes, PGSIZE * k + j)
  {
    seq<Byte>(PGSIZE, j requires 0 <= j < PGSIZE => ImageByte(file, ofs, readBytes, PGSIZE * k + j))
  }

  /** n pages from page p0 on have been added to the space, with the stretch's bytes. */
  ghost predicate Added(was: Space, now: Space, p0: int, n: nat, file: Bytes, ofs: nat, readBytes: nat)
    requires ofs + readBytes <= |file| || readBytes == 0
  {
    (forall p :: p in now <==> p in was || p0 <= p < p0 + n) &&
    (forall p :: p in was ==> !(p0 <= p < p0 + n) && now[p] == was[p]) &&
    forall p :: p0 <= p < p0 + n ==> now[p] == PageImage(file, ofs, readBytes, p - p0)
  }

  /** The pages that are there stay as they are. */
  ghost predicate Grown(was: Space, now: Space) {
    forall p :: p in was ==> p in now && now[p] == was[p]
  }

  /** The n pages from p0 on. */
  ghost function PageRun(p0: int, n: nat): set<int> {
    if n == 0 then {} else PageRun(p0, n - 1) + {p0 + n - 1}
  }

  /** The file has the segment's bytes, and none of its pages is there yet. */
  ghost predicate CanLoad(space: Space, file: Bytes, ofs: nat, p0: int, readBytes: nat, n: nat) {
    (readBytes == 0 || ofs + readBytes <= |file|) && forall p :: p0 <= p < p0 + n ==> p !in space
  }

  /** The answers of the user pool to the requests of one segment, page by page. */
  type Grants = nat -> bool

  /** There is a page table for this page, or a frame for one. */
  ghost predicate TableToBeHad(m: PageDir.Memory, u: seq<bool>, pd: int, page: int) {
    0 <= pd < |m| && 0 <= page && page / 1024 < |m[pd]| && (m[pd][page / 1024] != 0 || Bitmap.FirstRun(u, 0, 1) >= 0)
  }

  ghost predicate AtMostOneFree(used: seq<bool>) {
    forall f, g :: 0 <= f < |used| && 0 <= g < |used| && !used[f] && !used[g] ==> f == g
  }

  class Process {
    const vm: PageDir.PhysicalMemory
    const pd: int                     // the frame of the page directory

    constructor (vm: PageDir.PhysicalMemory, pd: int)
      ensures this.vm == vm && this.pd == pd
    {
      this.vm, this.pd := vm, pd;
    }

    ghost predicate Valid()
      reads vm.mem, vm.used
    {
      PageDir.Sound(vm.mem[..], vm.used[..], pd) && PageDir.Injective(vm.mem[..], pd)
    }

    /** The bytes of the user pages, as the page tables lead to them. */
    ghost function Pages(): Space
      reads vm.mem
    {
      SpaceOf(vm.mem[..], pd)
    }

    ghost function ReadOnly(): set<int>
      reads vm.mem
    {
      ReadOnlyOf(vm.mem[..], pd)
    }

    /** What the processor lets the program do: read the pages that are there, and write those
        that are not read-only. */
    lemma Access(uaddr: nat)
      requires Valid() && uaddr < PHYS_BASE
      ensures PageDir.UserReads(vm.mem[..], pd, uaddr) <==> uaddr / PGSIZE in Pages()
      ensures PageDir.UserWrites(vm.mem[..], pd, uaddr) <==>
              uaddr / PGSIZE in Pages() && uaddr / PGSIZE !in ReadOnly()
    {
      PageDir.UserAccess(vm.mem[..], vm.used[..], pd, uaddr);
      hide PageDir.Sound, PageDir.Injective, PageDir.UserReads, PageDir.UserWrites, PageDir.Pages;
    }

    /** A user program reads the byte at uaddr: pagedir_get_page leads to it exactly if the
        processor lets the program at it. */
    method ReadByte(uaddr: nat) returns (present: bool, b: Byte)
      requires Valid() && uaddr < PHYS_BASE
      ensures present <==> uaddr / PGSIZE in Pages()
      ensures present <==> PageDir.UserReads(vm.mem[..], pd, uaddr)
      ensures present ==> b == Pages()[uaddr / PGSIZE][uaddr % PGSIZE]
    {
      Access(uaddr);
      hide PageDir.UserReads, PageDir.UserWrites;
      var kaddr := vm.GetPage(pd, uaddr);
      present, b := kaddr != 0, 0;
      if uaddr / PGSIZE in Pages() { MappedFrame(uaddr / PGSIZE); }
      if present {
        KernelAddress(kaddr, PageDir.Pages(vm.mem[..], pd)[uaddr / PGSIZE].frame, uaddr % PGSIZE);
        b := BytesOf(vm.mem[(kaddr - PHYS_BASE) / PGSIZE])[(kaddr - PHYS_BASE) % PGSIZE];
      }
    }

    lemma MappedFrame(page: int)
      requires Valid() && page in Pages()
      ensures page in PageDir.Pages(vm.mem[..], pd)
      ensures var f := PageDir.Pages(vm.mem[..], pd)[page].frame;
              0 <= f < vm.mem.Length && |vm.mem[f]| == 1024 && Pages()[page] == BytesOf(vm.mem[f])
    {
      var f := PageDir.Pages(vm.mem[..], pd)[page].frame;
      PageMapsTo(vm.mem[..], pd, page);
      PageDir.MappedIsNoTable(vm.mem[..], vm.used[..], pd, page / 1024, page % 1024, f);
    }

    lemma KernelAddress(kaddr: int, f: int, o: int)
      requires kaddr == PHYS_BASE + PGSIZE * f + o && 0 <= o < PGSIZE && 0 <= f
      ensures (kaddr - PHYS_BASE) / PGSIZE == f && (kaddr - PHYS_BASE) % PGSIZE == o
    {}

    /** install_page: the frame's bytes become a page of the process exactly when there is
        none at that address yet and a page table is to be had. */
    method InstallPage(upage: nat, frame: int, writable: bool) returns (ok: bool)
      requires Valid() && upage < PHYS_BASE && upage % PGSIZE == 0
      requires PageDir.IsFrame(vm.mem[..], vm.used[..], frame) && Loose(vm.mem[..], pd, frame)
      modifies vm.mem, vm.used
      ensures Valid()
      ensures ok <==>
              upage / PGSIZE !in old(Pages()) && TableToBeHad(old(vm.mem[..]), old(vm.used[..]), pd, upage / PGSIZE)
      ensures Pages() == if ok then old(Pages())[upage / PGSIZE := old(FrameBytes(vm.mem[..], frame))] else old(Pages())
      ensures ReadOnly() == if ok && !writable then old(ReadOnly()) + {upage / PGSIZE} else old(ReadOnly())
      ensures !ok ==> vm.mem[..] == old(vm.mem[..]) && vm.used[..] == old(vm.used[..])
    {
      ghost var m, u := vm.mem[..], vm.used[..];
      PageDir.PageIndices(upage);
      PageDir.Kernel(frame);
      TablesInside(m, u, pd);
      if upage / PGSIZE in Pages() { MappedFrame(upage / PGSIZE); }
      assert upage / PGSIZE in Pages() <==> upage / PGSIZE in PageDir.Pages(m, pd);
      var kaddr := vm.GetPage(pd, upage);
      hide PageDir.Pages, PageDir.Sound, PageDir.Injective, Loose, PageDir.FrameOf;
      ok := false;
      if kaddr == 0 {
        ok := vm.SetPage(pd, upage, PHYS_BASE + PGSIZE * frame, writable);
        if ok {
          Mapped(m, u, vm.mem[..], vm.used[..], pd, upage / PGSIZE, frame, writable);
          StaysInjective(m, vm.mem[..], upage, frame);
        }
      }
    }

    lemma StaysInjective(m: PageDir.Memory, m1: PageDir.Memory, upage: nat, frame: int)
      requires PageDir.Injective(m, pd) && Loose(m, pd, frame) && upage < PHYS_BASE &&
               upage / PGSIZE !in PageDir.Pages(m, pd)
      requires PageDir.MapsTo(m1, pd, upage / 0x40_0000, upage / PGSIZE % 1024, frame)
      requires forall x, y :: x != upage / 0x40_0000 || y != upage / PGSIZE % 1024 ==>
                 PageDir.Pte(m1, pd, x, y) == PageDir.Pte(m, pd, x, y)
      ensures PageDir.Injective(m1, pd)
    {
      PageDir.PageIndices(upage);
      PageDir.InPages(m, pd, upage / PGSIZE);
      PageDir.InjectiveKept(m, m1, pd, upage / 0x40_0000, upage / PGSIZE % 1024, frame);
    }

    /** palloc_get_page (PAL_USER), then the page's bytes. */
    method GetPage(granted: bool) returns (frame: int)
      requires Valid()
      modifies vm.used
      ensures Valid() && Pages() == old(Pages()) && ReadOnly() == old(ReadOnly())
      ensures frame >= 0 ==> granted && PageDir.IsFrame(vm.mem[..], vm.used[..], frame) && Loose(vm.mem[..], pd, frame)
      ensures frame < 0 ==> frame == -1 && (!granted || AtMostOneFree(vm.used[..])) && vm.used[..] == old(vm.used[..])
    {
      ghost var m, u := vm.mem[..], vm.used[..];
      TablesInside(m, u, pd);
      frame := vm.GetUserPage(granted);
      if frame >= 0 {
        FreeIsLoose(m, u, pd, frame);
        LooseFrame(m, u, pd, frame, m[frame], true);
        assert m[frame := m[frame]] == m;
      }
    }

    method FillPage(frame: int, bytes: Bytes)
      requires Valid() && |bytes| == PGSIZE && PageDir.IsFrame(vm.mem[..], vm.used[..], frame) &&
               Loose(vm.mem[..], pd, frame)
      modifies vm.mem
      ensures Valid() && Pages() == old(Pages()) && ReadOnly() == old(ReadOnly())
      ensures PageDir.IsFrame(vm.mem[..], vm.used[..], frame) && Loose(vm.mem[..], pd, frame)
      ensures FrameBytes(vm.mem[..], frame) == bytes
    {
      ghost var m, u := vm.mem[..], vm.used[..];
      TablesInside(m, u, pd);
      LooseFrame(m, u, pd, frame, WordsOf(bytes), true);
      FrameRoundTrip(bytes);
      hide PageDir.Sound, PageDir.Injective, SpaceOf, ReadOnlyOf, Loose, WordsOf, BytesOf;
      vm.mem[frame] := WordsOf(bytes);
      assert u[frame := true] == u;
    }

    /** palloc_free_page. */
    method GiveBack(frame: int)
      requires Valid() && PageDir.IsFrame(vm.mem[..], vm.used[..], frame) && Loose(vm.mem[..], pd, frame)
      modifies vm.mem, vm.used
      ensures Valid() && Pages() == old(Pages()) && ReadOnly() == old(ReadOnly())
      ensures vm.used[..] == old(vm.used[..])[frame := false]
    {
      ghost var m, u := vm.mem[..], vm.used[..];
      TablesInside(m, u, pd);
      LooseFrame(m, u, pd, frame, PageDir.Fill(0xCCCC_CCCC), false);
      hide PageDir.Sound, PageDir.Injective, SpaceOf, ReadOnlyOf, Loose;
      vm.FreePage(frame);
    }

    /** One page of load_segment: get a frame, read, zero the rest, install.  refused: there
        was no frame for it or for its page table. */
    method LoadPage(file: Bytes, pos: nat, page: nat, pageReadBytes: nat, writable: bool, granted: bool)
      returns (ok: bool, ghost refused: bool)
      requires Valid() && page < PHYS_BASE / PGSIZE && pageReadBytes <= PGSIZE
      modifies vm.mem, vm.used
      ensures Valid()
      ensures ok <==> !refused && (pageReadBytes == 0 || pos + pageReadBytes <= |file|) && page !in old(Pages())
      ensures refused ==> !granted || AtMostOneFree(vm.used[..])
      ensures ok ==> granted && (|file| >= pos + pageReadBytes || pageReadBytes == 0)
      ensures ok ==> Pages() == old(Pages())[page := PageImage(file, pos, pageReadBytes, 0)]
      ensures ok ==> ReadOnly() == if writable then old(ReadOnly()) else old(ReadOnly()) + {page}
      ensures !ok ==> Pages() == old(Pages()) && ReadOnly() == old(ReadOnly())
    {
      hide Valid, Pages, ReadOnly, Loose, AtMostOneFree;
      ok, refused := false, false;
      var frame := GetPage(granted);
      if frame < 0 {
        refused := true;
        return;
      }
      var got := Available(pageReadBytes, pos, |file|);
      if got != pageReadBytes {
        GiveBack(frame);
        return;
      }
      var kpage: Bytes := seq<Byte>(PGSIZE, j requires 0 <= j < PGSIZE => if j < pageReadBytes then file[pos + j]
          else 0);
      assert kpage == PageImage(file, pos, pageReadBytes, 0);
      FillPage(frame, kpage);
      InPage(page);
      ok := InstallPage(PGSIZE * page, frame, writable);
      if !ok {
        refused := page !in old(Pages());
        if refused { NoneFree(page); }
        ghost var u := vm.used[..];
        GiveBack(frame);
        if refused { OneFree(u, frame); }
      }
    }

    lemma InPage(page: nat)
      requires page < PHYS_BASE / PGSIZE
      ensures PGSIZE * page % PGSIZE == 0 && PGSIZE * page / PGSIZE == page && PGSIZE * page < PHYS_BASE
      ensures page < PageDir.USER_PDES * 1024
    {}

    lemma NoneFree(page: nat)
      requires Valid() && page < PageDir.USER_PDES * 1024 && !TableToBeHad(vm.mem[..], vm.used[..], pd, page)
      ensures forall f :: 0 <= f < vm.used.Length ==> vm.used[f]
    {
      forall f | 0 <= f < vm.used.Length
        ensures vm.used[f]
      {
        Bitmap.NoRun(vm.used[..], 0, 1, f);
      }
    }

    lemma OneFree(u: seq<bool>, frame: int)
      requires (forall f :: 0 <= f < |u| ==> u[f]) && 0 <= frame < |u| && vm.used[..] == u[frame := false]
      ensures AtMostOneFree(vm.used[..])
    {}

    /** load_segment, with its assertions.  Unless it is refused a frame, it succeeds exactly
        when the file has the bytes and no page is mapped yet; both counters then end at zero
        and the pages hold the bytes asked for. */
    method LoadSegment(file: Bytes, ofs: nat, upage: nat, readBytes: nat, zeroBytes: nat, writable: bool,
                       granted: Grants)
      returns (ok: bool, ghost refused: bool)
      requires Valid() && (readBytes + zeroBytes) % PGSIZE == 0 && upage % PGSIZE == 0 && ofs % PGSIZE == 0
      requires upage + readBytes + zeroBytes <= PHYS_BASE
      modifies vm.mem, vm.used
      ensures Valid() && Grown(old(Pages()), Pages())
      ensures ok <==>
              !refused && CanLoad(old(Pages()), file, ofs, upage / PGSIZE, readBytes, (readBytes + zeroBytes) / PGSIZE)
      ensures refused ==> Refusal(granted, (readBytes + zeroBytes) / PGSIZE) || AtMostOneFree(vm.used[..])
      ensures ok ==>
              !Refusal(granted, (readBytes + zeroBytes) / PGSIZE) && (readBytes == 0 || ofs + readBytes <= |file|)
      ensures ok ==>
              Added(old(Pages()), Pages(), upage / PGSIZE, (readBytes + zeroBytes) / PGSIZE, file, ofs, readBytes)
      ensures ok ==> ReadOnly() == if writable then old(ReadOnly())
                                   else old(ReadOnly()) + PageRun(upage / PGSIZE, (readBytes + zeroBytes) / PGSIZE)
      ensures forall p :: p in Pages() && p !in old(Pages()) ==>
        upage / PGSIZE <= p < upage / PGSIZE + (readBytes + zeroBytes) / PGSIZE && |Pages()[p]| == PGSIZE
    {
      hide Valid, Pages, ReadOnly, AtMostOneFree;
      ghost var space, ro, n, p0 := Pages(), ReadOnly(), (readBytes + zeroBytes) / PGSIZE, upage / PGSIZE;
      var k := 0;
      var readLeft, zeroLeft, page, pos := readBytes, zeroBytes, upage / PGSIZE, ofs;
      refused := false;
      while readLeft > 0 || zeroLeft > 0
        invariant 0 <= k <= n && page == p0 + k && readLeft + zeroLeft == PGSIZE * (n - k) && 0 <= readLeft &&
                  0 <= zeroLeft
        invariant readLeft == (if readBytes > PGSIZE * k then readBytes - PGSIZE * k else 0) &&
                  pos == ofs + readBytes - readLeft
        invariant readBytes == readLeft || ofs + readBytes - readLeft <= |file|
        invariant forall i: nat :: i < k ==> granted(i) && p0 + i !in space
        invariant Valid() && !refused && PartAdded(space, Pages(), p0, k, file, ofs, readBytes)
        invariant ReadOnly() == if writable then ro else ro + PageRun(p0, k)
        decreases n - k
      {
        var pageReadBytes := if readLeft < PGSIZE then readLeft else PGSIZE;
        var pageZeroBytes := PGSIZE - pageReadBytes;
        assert pageZeroBytes <= zeroLeft;
        ghost var before := Pages();
        ok, refused := LoadPage(file, pos, page, pageReadBytes, writable, granted(k));
        if !ok {
          assert refused || !CanLoad(space, file, ofs, p0, readBytes, n);
          return;
        }
        assert PageRun(p0, k + 1) == PageRun(p0, k) + {page};
        PartStep(space, before, p0, k, file, ofs, readBytes, pageReadBytes, pos);
        readLeft, zeroLeft, page, pos := readLeft - pageReadBytes, zeroLeft - pageZeroBytes, page + 1,
            pos + pageReadBytes;
        k := k + 1;
      }
      assert k == n && readLeft == 0 && zeroLeft == 0;
      PartEnd(space, Pages(), p0, n, file, ofs, readBytes);
      ok := true;
    }

    /** load's PT_LOAD case: validate_segment, the page arithmetic, load_segment.  Unless it
        is refused a frame, it succeeds exactly when the segment is loadable and none of its
        pages is there yet, and then the segment's memory holds the file's bytes followed by
        zeros. */
    method LoadOne(file: Bytes, p: Phdr, granted: Grants) returns (ok: bool, ghost refused: bool)
      requires Valid() && Words(p) && |file| < 0x8000_0000 && UserOnly(Pages())
      modifies vm.mem, vm.used
      ensures Valid() && UserOnly(Pages()) && Grown(old(Pages()), Pages())
      ensures ok <==> !refused && Loadable(p, |file|) && CanLoadFor(old(Pages()), file, p)
      ensures refused ==> Loadable(p, |file|) && (Refusal(granted, PageCount(p, |file|)) || AtMostOneFree(vm.used[..]))
      ensures ok ==> SegmentIn(Pages(), file, p) && forall q :: q in Pages() <==> q in old(Pages()) || Covers(p, q)
      ensures ok ==>
        forall q :: q in ReadOnly() <==> q in old(ReadOnly()) || (IsSealed(p) && Covers(p, q))
    {
      hide Valid, Pages, ReadOnly, AtMostOneFree;
      refused := false;
      ok := ValidateSegment(p, |file|);
      if !ok {
        return;
      }
      RequestFits(p, |file|);
      RequestPages(p, file, Pages());
      var r := RequestFor(p);
      InUserSpace(r.memPage, r.readBytes + r.zeroBytes);
      hide RequestFor, CanLoad, CanLoadFor, Covers, Added, SegmentIn, Loadable, PageRun;
      ok, refused := LoadSegment(file, r.filePage, r.memPage, r.readBytes, r.zeroBytes, p.flags / 2 % 2 == 1, granted);
      if ok {
        SegmentFilled(old(Pages()), Pages(), file, p);
        AddedPages(old(Pages()), Pages(), r.memPage / PGSIZE, (r.readBytes + r.zeroBytes) / PGSIZE, file, r.filePage,
                   r.readBytes);
        PagesOfRun(r.memPage / PGSIZE, (r.readBytes + r.zeroBytes) / PGSIZE);
      }
    }

    /** load's loop over the program headers.  Unless it is refused a frame, it succeeds exactly
        when every header lies in the file and is one to pass over, or one of a segment that
        can be loaded and shares no page with those before it. */
    method LoadHeaders(file: Bytes, phoff: nat, phnum: nat, granted: nat -> Grants)
      returns (ok: bool, ghost refused: bool)
      requires Valid() && |file| < 0x8000_0000 && phoff < 0x1_0000_0000 && phnum <= 1024 && UserOnly(Pages())
      modifies vm.mem, vm.used
      ensures Valid() && UserOnly(Pages()) && Grown(old(Pages()), Pages())
      ensures ok <==> !refused && forall i :: 0 <= i < phnum ==> HeaderLoads(old(Pages()), file, phoff, i)
      ensures refused ==> AnyRefusal(granted, file, phoff, phnum) || AtMostOneFree(vm.used[..])
      ensures ok ==> forall i :: 0 <= i < phnum ==> Accepted(Pages(), file, phoff + 32 * i)
      ensures ok ==> forall q :: q in Pages() <==> q in old(Pages()) || Covered(file, phoff, phnum, q)
      ensures ok ==> forall q :: q in ReadOnly() <==> q in old(ReadOnly()) || Sealed(file, phoff, phnum, q)
    {
      hide Valid, Pages, ReadOnly, AtMostOneFree, UserOnly, Grown, Accepted, HeaderLoads, Covered, Sealed, Refusal;
      var fileOfs := if phoff < 0x8000_0000 then phoff else phoff - 0x1_0000_0000;
      var i := 0;
      refused := false;
      ghost var space, ro := Pages(), ReadOnly();
      NoneCovered(file, phoff);
      GrownSelf(space);
      while i < phnum
        invariant 0 <= i <= phnum && Valid() && UserOnly(Pages()) && Grown(space, Pages()) && !refused
        invariant i > 0 ==> phoff < 0x8000_0000 && fileOfs <= |file|
        invariant fileOfs == (if phoff < 0x8000_0000 then phoff else phoff - 0x1_0000_0000) + 32 * i
        invariant forall j :: 0 <= j < i ==> Accepted(Pages(), file, phoff + 32 * j)
        invariant forall j :: 0 <= j < i ==> HeaderLoads(space, file, phoff, j)
        invariant forall q :: q in Pages() <==> q in space || Covered(file, phoff, i, q)
        invariant forall q :: q in ReadOnly() <==> q in ro || Sealed(file, phoff, i, q)
      {
        HeaderInside(space, file, phoff, i);
        if fileOfs < 0 || fileOfs > |file| {
          return false, false;
        }
        if Available(32, fileOfs, |file|) != 32 {
          return false, false;
        }
        var p := PhdrAt(file, fileOfs);
        ghost var before, roBefore := Pages(), ReadOnly();
        HeaderCase(space, before, file, phoff, i);
        GrownSelf(before);
        if p.kind == PT_DYNAMIC || p.kind == PT_INTERP || p.kind == PT_SHLIB {
          return false, false;
        } else if p.kind == PT_LOAD {
          ok, refused := LoadOne(file, p, granted(i));
          GrownOn(space, before, Pages());
          if !ok {
            if refused { RefusedAt(granted, file, phoff, phnum, i); }
            return;
          }
        }
        StepAccepted(space, before, Pages(), file, phoff, i);
        StepSealed(ro, roBefore, ReadOnly(), file, phoff, i);
        fileOfs := fileOfs + 32;
        i := i + 1;
      }
      ok := true;
    }

    /** setup_stack: a zeroed page below PHYS_BASE. */
    method SetupStack(granted: bool) returns (ok: bool, ghost refused: bool)
      requires Valid() && UserOnly(Pages())
      modifies vm.mem, vm.used
      ensures Valid() && UserOnly(Pages()) && Grown(old(Pages()), Pages())
      ensures ok <==> !refused && PHYS_BASE / PGSIZE - 1 !in old(Pages())
      ensures refused ==> !granted || AtMostOneFree(vm.used[..])
      ensures ok ==> Pages() == old(Pages())[PHYS_BASE / PGSIZE - 1 := PageImage([], 0, 0, 0)]
      ensures ok ==> ReadOnly() == old(ReadOnly())
    {
      hide Valid, Pages, ReadOnly, AtMostOneFree;
      ok, refused := LoadPage([], 0, PHYS_BASE / PGSIZE - 1, 0, true, granted);
    }
  }

  /** The user pool refuses a frame to one of the first n pages. */
  ghost predicate Refusal(granted: Grants, n: int) {
    exists k: nat :: k < n && !granted(k)
  }

  /** It refuses a frame to a page of one of the segments. */
  ghost predicate AnyRefusal(granted: nat -> Grants, file: Bytes, phoff: nat, phnum: nat) {
    exists i: nat :: i < phnum && phoff + 32 * i + 32 <= |file| && Loadable(PhdrAt(file, phoff + 32 * i), |file|) &&
                     Refusal(granted(i), PageCount(PhdrAt(file, phoff + 32 * i), |file|))
  }

  lemma RefusedAt(granted: nat -> Grants, file: Bytes, phoff: nat, phnum: nat, i: nat)
    requires i < phnum && phoff + 32 * i + 32 <= |file| && Loadable(PhdrAt(file, phoff + 32 * i), |file|)
    ensures Refusal(granted(i), PageCount(PhdrAt(file, phoff + 32 * i), |file|)) ==>
              AnyRefusal(granted, file, phoff, phnum)
  {}

  /** How many pages a loadable segment takes. */
  ghost function PageCount(p: Phdr, fileLength: int): int
    requires Words(p) && Loadable(p, fileLength)
  {
    (RequestFor(p).readBytes + RequestFor(p).zeroBytes) / PGSIZE
  }

  /** load: a new page directory, the executable header, every segment in place, and a
      stack; entry is where the program starts.  With a frame for the directory, and unless it
      is refused one later, it succeeds exactly for an executable whose segments can be loaded
      side by side below the stack page. */
  method Load(vm: PageDir.PhysicalMemory, base: PageDir.Frame, file: Bytes, granted: nat -> Grants, stackGranted: bool)
    returns (ok: bool, entry: int, process: Process?, ghost refused: bool)
    requires vm.mem.Length == vm.used.Length && PageDir.WellFormed(vm.mem[..]) && |base| == 1024
    requires forall i :: 0 <= i < PageDir.USER_PDES ==> base[i] == 0
    requires |file| < 0x8000_0000
    modifies vm.mem, vm.used
    ensures process != null <==> Bitmap.FirstRun(old(vm.used[..]), 0, 1) >= 0
    ensures process != null ==> fresh(process) && process.vm == vm && process.Valid() && UserOnly(process.Pages())
    ensures ok <==> process != null && !refused && Executable(file)
    ensures refused ==>
      HeaderOk(file) && (AnyRefusal(granted, file, WordAt(file, 28), HalfAt(file, 44)) || !stackGranted ||
                         AtMostOneFree(vm.used[..]))
    ensures ok ==> entry == WordAt(file, 24)
    ensures ok ==> forall i :: 0 <= i < HalfAt(file, 44) ==> Accepted(process.Pages(), file, WordAt(file, 28) + 32 * i)
    ensures ok ==> PHYS_BASE / PGSIZE - 1 in process.Pages() &&
                   process.Pages()[PHYS_BASE / PGSIZE - 1] == PageImage([], 0, 0, 0)
    ensures ok ==> forall q :: q in process.ReadOnly() <==> Sealed(file, WordAt(file, 28), HalfAt(file, 44), q)
    ensures ok ==> PHYS_BASE / PGSIZE - 1 !in process.ReadOnly()
  {
    ok, entry, process, refused := false, 0, null, false;
    var pd := vm.Create(base);
    if pd < 0 {
      return;
    }
    process := new Process(vm, pd);
    NothingMapped(vm.mem[..], pd);
    if !HeaderOk(file) {
      return;
    }
    hide PageDir.Sound, PageDir.Injective, SpaceOf, ReadOnlyOf, UserOnly, Accepted, Grown, HeaderLoads, Sealed,
        AtMostOneFree, Covered,
        AnyRefusal;
    ok, refused := process.LoadHeaders(file, WordAt(file, 28), HalfAt(file, 44), granted);
    if !ok {
      return;
    }
    ghost var before := process.Pages();
    ok, refused := process.SetupStack(stackGranted);
    if ok {
      forall i | 0 <= i < HalfAt(file, 44)
        ensures Accepted(process.Pages(), file, WordAt(file, 28) + 32 * i)
      {
        AcceptedStays(before, process.Pages(), file, WordAt(file, 28) + 32 * i);
      }
      SealedCovered(file, WordAt(file, 28), HalfAt(file, 44), PHYS_BASE / PGSIZE - 1);
      entry := WordAt(file, 24);
    }
  }

  lemma SealedCovered(file: Bytes, phoff: nat, n: nat, q: int)
    ensures Sealed(file, phoff, n, q) ==> Covered(file, phoff, n, q)
  {}

  /** An executable that load accepts: its header and the headers of its segments are in
      order, no page belongs to two of them, and none is the stack's. */
  ghost predicate Executable(file: Bytes) {
    HeaderOk(file) && (forall i :: 0 <= i < HalfAt(file, 44) ==> HeaderLoads(map[], file, WordAt(file, 28), i)) &&
    !Covered(file, WordAt(file, 28), HalfAt(file, 44), PHYS_BASE / PGSIZE - 1)
  }

  lemma NothingMapped(m: PageDir.Memory, pd: int)
    requires PageDir.Pages(m, pd) == map[]
    ensures SpaceOf(m, pd) == map[] && UserOnly(SpaceOf(m, pd)) && ReadOnlyOf(m, pd) == {}
  {}

  function HalfAt(file: Bytes, o: nat): (h: int)
    requires o + 2 <= |file|
    ensures 0 <= h < 0x1_0000
  {
    file[o] as int + 256 * (file[o + 1] as int)
  }

  /** The executable header that load accepts: an ELF file for this machine. */
  predicate HeaderOk(file: Bytes) {
    |file| >= 52 && file[..7] == [0x7F, 0x45, 0x4C, 0x46, 1, 1, 1] && HalfAt(file, 16) == 2 && HalfAt(file, 18) == 3 &&
    WordAt(file, 20) == 1 && HalfAt(file, 42) == 32 && HalfAt(file, 44) <= 1024
  }

  /** Every page lies between page 0 and the kernel. */
  ghost predicate UserOnly(pages: Space) {
    forall p :: p in pages ==> 1 <= p < PHYS_BASE / PGSIZE && |pages[p]| == PGSIZE
  }

  /** The byte at user address a is b. */
  ghost predicate HasByte(pages: Space, a: int, b: Byte) {
    a / PGSIZE in pages && |pages[a / PGSIZE]| == PGSIZE && pages[a / PGSIZE][a % PGSIZE] == b
  }

  /** Byte i of the segment: the file's, or zero behind p_filesz. */
  ghost predicate SegmentByte(pages: Space, file: Bytes, p: Phdr, i: int) {
    if i < p.filesz then 0 <= p.offset + i < |file| && HasByte(pages, p.vaddr + i, file[p.offset + i])
    else HasByte(pages, p.vaddr + i, 0)
  }

  /** The segment's memory: the file's bytes, then zeros. */
  ghost predicate SegmentIn(pages: Space, file: Bytes, p: Phdr) {
    forall i :: 0 <= i < p.memsz ==> SegmentByte(pages, file, p, i)
  }

  /** The segment is not to be written: PF_W, bit 1 of its flags, is clear. */
  predicate IsSealed(p: Phdr) { p.flags % 4 < 2 }

  lemma {:induction false} PagesOfRun(p0: int, n: nat)
    ensures forall q :: q in PageRun(p0, n) <==> p0 <= q < p0 + n
  {
    if n > 0 { PagesOfRun(p0, n - 1); }
  }

  /** Page q holds a byte of the segment. */
  predicate Covers(p: Phdr, q: int) { p.vaddr / PGSIZE <= q <= (p.vaddr + p.memsz - 1) / PGSIZE }

  /** The file has the segment's bytes, and none of its pages is there yet. */
  ghost predicate CanLoadFor(space: Space, file: Bytes, p: Phdr) {
    (p.filesz == 0 || p.offset + p.filesz <= |file|) && forall q :: Covers(p, q) ==> q !in space
  }

  /** What load_segment asks for is what the segment needs. */
  lemma RequestPages(p: Phdr, file: Bytes, space: Space)
    requires Words(p) && Loadable(p, |file|)
    ensures var r := RequestFor(p);
            r.filePage >= 0 && r.readBytes >= 0 && r.zeroBytes >= 0 &&
            (forall q :: Covers(p, q) <==>
               r.memPage / PGSIZE <= q < r.memPage / PGSIZE + (r.readBytes + r.zeroBytes) / PGSIZE) &&
            (CanLoadFor(space, file, p) <==>
             CanLoad(space, file, r.filePage, r.memPage / PGSIZE, r.readBytes, (r.readBytes + r.zeroBytes) / PGSIZE))
  {
    RequestFits(p, |file|);
    var r := RequestFor(p);
    PageBounds(p.vaddr, p.memsz, r.memPage, r.readBytes + r.zeroBytes);
    hide RequestFor;
  }

  lemma PageBounds(vaddr: int, memsz: int, memPage: int, total: int)
    requires 0 < memsz && memPage % PGSIZE == 0 && total % PGSIZE == 0 && memPage <= vaddr < memPage + PGSIZE
    requires vaddr + memsz <= memPage + total < vaddr + memsz + PGSIZE
    ensures memPage / PGSIZE == vaddr / PGSIZE
    ensures (vaddr + memsz - 1) / PGSIZE == memPage / PGSIZE + total / PGSIZE - 1
  {
    var a, b := memPage / PGSIZE, total / PGSIZE;
    assert memPage == a * PGSIZE && total == b * PGSIZE;
    assert (a + b - 1) * PGSIZE <= vaddr + memsz - 1 < (a + b) * PGSIZE;
  }

  lemma InUserSpace(memPage: int, total: int)
    requires PGSIZE <= memPage && memPage % PGSIZE == 0 && total % PGSIZE == 0 && 0 <= total &&
             memPage + total <= PHYS_BASE
    ensures 1 <= memPage / PGSIZE && memPage / PGSIZE + total / PGSIZE <= PHYS_BASE / PGSIZE
  {}

  /** Address memPage + x is at offset x % PGSIZE of page memPage / PGSIZE + x / PGSIZE. */
  lemma AddressInPages(memPage: int, x: int)
    requires memPage % PGSIZE == 0 && 0 <= x
    ensures (memPage + x) / PGSIZE == memPage / PGSIZE + x / PGSIZE && (memPage + x) % PGSIZE == x % PGSIZE
  {}

  lemma BelowPages(x: int, total: int)
    requires 0 <= x < total && total % PGSIZE == 0
    ensures x / PGSIZE < total / PGSIZE && PGSIZE * (x / PGSIZE) + x % PGSIZE == x
  {}

  /** Byte x of a stretch that has been added. */
  lemma AddedByte(was: Space, now: Space, memPage: int, total: int, file: Bytes, ofs: nat, readBytes: nat, x: int)
    requires memPage % PGSIZE == 0 && total % PGSIZE == 0 && 0 <= x < total &&
             (readBytes == 0 || ofs + readBytes <= |file|)
    requires total >= 0 && Added(was, now, memPage / PGSIZE, total / PGSIZE, file, ofs, readBytes)
    ensures HasByte(now, memPage + x, ImageByte(file, ofs, readBytes, x))
  {
    AddressInPages(memPage, x);
    BelowPages(x, total);
    var k := x / PGSIZE;
    assert now[memPage / PGSIZE + k] == PageImage(file, ofs, readBytes, k);
  }

  lemma AddedPages(was: Space, now: Space, p0: int, n: nat, file: Bytes, ofs: nat, readBytes: nat)
    requires (ofs + readBytes <= |file| || readBytes == 0) && Added(was, now, p0, n, file, ofs, readBytes)
    ensures forall p :: p in now <==> p in was || p0 <= p < p0 + n
  {}

  /** What load_segment put there is the segment. */
  lemma SegmentFilled(was: Space, now: Space, file: Bytes, p: Phdr)
    requires Words(p) && Loadable(p, |file|)
    requires var r := RequestFor(p);
             r.filePage >= 0 && r.readBytes >= 0 && r.zeroBytes >= 0 &&
             (r.readBytes == 0 || r.filePage + r.readBytes <= |file|) &&
             Added(was, now, r.memPage / PGSIZE, (r.readBytes + r.zeroBytes) / PGSIZE, file, r.filePage, r.readBytes)
    ensures SegmentIn(now, file, p)
  {
    var r := RequestFor(p);
    RequestFits(p, |file|);
    hide RequestFor, Added, HasByte;
    forall i | 0 <= i < p.memsz
      ensures SegmentByte(now, file, p, i)
    {
      AddedByte(was, now, r.memPage, r.readBytes + r.zeroBytes, file, r.filePage, r.readBytes, p.vaddr + i - r.memPage);
    }
  }

  // ---------------------------------------------------------------- program headers

  function WordAt(file: Bytes, o: nat): (w: int)
    requires o + 4 <= |file|
    ensures Is32(w)
  {
    FromLe32(file[o..o + 4])
  }

  /** The struct Elf32_Phdr at offset o of the file. */
  function PhdrAt(file: Bytes, o: nat): (p: Phdr)
    requires o + 32 <= |file|
    ensures Words(p)
  {
    Phdr(WordAt(file, o), WordAt(file, o + 4), WordAt(file, o + 8), WordAt(file, o + 16), WordAt(file, o + 20),
    WordAt(file, o + 24))
  }

  /** The program header at offset o is one that load passes, and if it is to be loaded its
      segment is in memory. */
  ghost predicate Accepted(pages: Space, file: Bytes, o: nat) {
    o + 32 <= |file| &&
    var p := PhdrAt(file, o);
    p.kind != PT_DYNAMIC && p.kind != PT_INTERP && p.kind != PT_SHLIB &&
    (p.kind == PT_LOAD ==> Loadable(p, |file|) && SegmentIn(pages, file, p))
  }

  /** Header i is that of a segment to load, which has a byte in page q. */
  ghost predicate CoversAt(file: Bytes, phoff: nat, i: nat, q: int) {
    phoff + 32 * i + 32 <= |file| && PhdrAt(file, phoff + 32 * i).kind == PT_LOAD &&
    Covers(PhdrAt(file, phoff + 32 * i), q)
  }

  /** One of the first n headers does. */
  ghost predicate Covered(file: Bytes, phoff: nat, n: nat, q: int) {
    exists i: nat :: i < n && CoversAt(file, phoff, i, q)
  }

  /** Header i is in the file, and load passes over it or can load its segment into the
      space and behind the segments before it. */
  ghost predicate HeaderLoads(space: Space, file: Bytes, phoff: nat, i: nat) {
    phoff + 32 * i + 32 <= |file| &&
    var p := PhdrAt(file, phoff + 32 * i);
    p.kind != PT_DYNAMIC && p.kind != PT_INTERP && p.kind != PT_SHLIB &&
    (p.kind == PT_LOAD ==> Loadable(p, |file|) && CanLoadFor(space, file, p) &&
                           forall q :: Covers(p, q) ==> !Covered(file, phoff, i, q))
  }

  /** And its segment is not to be written. */
  ghost predicate SealsAt(file: Bytes, phoff: nat, i: nat, q: int) {
    CoversAt(file, phoff, i, q) && IsSealed(PhdrAt(file, phoff + 32 * i))
  }

  ghost predicate Sealed(file: Bytes, phoff: nat, n: nat, q: int) {
    exists i: nat :: i < n && SealsAt(file, phoff, i, q)
  }

  lemma StepSealed(ro: set<int>, before: set<int>, now: set<int>, file: Bytes, phoff: nat, i: nat)
    requires phoff + 32 * i + 32 <= |file|
    requires forall q :: q in before <==> q in ro || Sealed(file, phoff, i, q)
    requires var p := PhdrAt(file, phoff + 32 * i);
             if p.kind == PT_LOAD then forall q :: q in now <==> q in before || (IsSealed(p) && Covers(p, q))
             else now == before
    ensures forall q :: q in now <==> q in ro || Sealed(file, phoff, i + 1, q)
  {
    hide PhdrAt, Covers, IsSealed;
    forall q
      ensures Sealed(file, phoff, i + 1, q) <==> Sealed(file, phoff, i, q) || SealsAt(file, phoff, i, q)
    {}
  }

  lemma NoneCovered(file: Bytes, phoff: nat)
    ensures forall q :: !Covered(file, phoff, 0, q) && !Sealed(file, phoff, 0, q)
  {}

  /** Of the headers that are in the file and not of a segment to load, those of dynamic
      linking, of an interpreter and the reserved ones are refused. */
  lemma PassedOver(space: Space, file: Bytes, phoff: nat, i: nat)
    requires phoff + 32 * i + 32 <= |file| && PhdrAt(file, phoff + 32 * i).kind != 1
    ensures HeaderLoads(space, file, phoff, i) <==> PhdrAt(file, phoff + 32 * i).kind !in {2, 3, 5}
  {
    hide PhdrAt;
  }

  lemma GrownSelf(space: Space)
    ensures Grown(space, space)
  {}

  lemma GrownOn(was: Space, between: Space, now: Space)
    requires Grown(was, between) && Grown(between, now)
    ensures Grown(was, now)
  {}

  lemma HeaderInside(space: Space, file: Bytes, phoff: nat, i: nat)
    ensures HeaderLoads(space, file, phoff, i) ==> phoff + 32 * i + 32 <= |file|
  {}

  /** What the header at hand has to be, in terms of the pages that are there by now. */
  lemma HeaderCase(space: Space, now: Space, file: Bytes, phoff: nat, i: nat)
    requires phoff + 32 * i + 32 <= |file| && forall q :: q in now <==> q in space || Covered(file, phoff, i, q)
    ensures var p := PhdrAt(file, phoff + 32 * i);
            HeaderLoads(space, file, phoff, i) <==>
            p.kind != PT_DYNAMIC && p.kind != PT_INTERP && p.kind != PT_SHLIB &&
            (p.kind == PT_LOAD ==> Loadable(p, |file|) && CanLoadFor(now, file, p))
  {}

  /** One header further on. */
  lemma StepAccepted(space: Space, before: Space, now: Space, file: Bytes, phoff: nat, i: nat)
    requires phoff + 32 * i + 32 <= |file| && HeaderLoads(space, file, phoff, i)
    requires forall q :: q in before <==> q in space || Covered(file, phoff, i, q)
    requires Grown(space, before) && Grown(before, now)
    requires forall j :: 0 <= j < i ==> Accepted(before, file, phoff + 32 * j)
    requires var p := PhdrAt(file, phoff + 32 * i);
             if p.kind == PT_LOAD
             then SegmentIn(now, file, p) && forall q :: q in now <==> q in before || Covers(p, q)
             else now == before
    ensures Grown(space, now)
    ensures forall j :: 0 <= j < i + 1 ==> Accepted(now, file, phoff + 32 * j)
    ensures forall q :: q in now <==> q in space || Covered(file, phoff, i + 1, q)
  {
    AcceptedKept(before, now, file, phoff, i);
    assert Accepted(now, file, phoff + 32 * i);
    hide Accepted, SegmentIn, Loadable, PhdrAt, Covers;
    forall q
      ensures Covered(file, phoff, i + 1, q) <==> Covered(file, phoff, i, q) || CoversAt(file, phoff, i, q)
    {}
  }

  /** A segment in memory stays there while the space grows. */
  lemma AcceptedStays(was: Space, now: Space, file: Bytes, o: nat)
    requires Accepted(was, file, o) && Grown(was, now)
    ensures Accepted(now, file, o)
  {
    var p := PhdrAt(file, o);
    hide PhdrAt;
    if p.kind == PT_LOAD {
      forall i | 0 <= i < p.memsz
        ensures SegmentByte(now, file, p, i)
      {
        assert SegmentByte(was, file, p, i);
      }
    }
  }

  lemma AcceptedKept(was: Space, now: Space, file: Bytes, phoff: nat, n: nat)
    requires Grown(was, now) && forall j :: 0 <= j < n ==> Accepted(was, file, phoff + 32 * j)
    ensures forall j :: 0 <= j < n ==> Accepted(now, file, phoff + 32 * j)
  {
    forall j | 0 <= j < n
      ensures Accepted(now, file, phoff + 32 * j)
    {
      AcceptedStays(was, now, file, phoff + 32 * j);
    }
  }

  /** The first k pages have been added, holding what could be read of the stretch. */
  ghost predicate PartAdded(was: Space, now: Space, p0: int, k: nat, file: Bytes, ofs: nat, readBytes: nat) {
    (forall p :: p in now <==> p in was || p0 <= p < p0 + k) &&
    (forall p :: p in was ==> !(p0 <= p < p0 + k) && now[p] == was[p]) &&
    forall p :: p0 <= p < p0 + k ==> HasImage(now[p], file, ofs, readBytes, p - p0)
  }

  /** bytes are page k of the stretch, as far as the file goes. */
  ghost predicate HasImage(bytes: Bytes, file: Bytes, ofs: nat, readBytes: nat, k: nat) {
    |bytes| == PGSIZE &&
    forall j :: 0 <= j < PGSIZE ==>
      if PGSIZE * k + j < readBytes then ofs + PGSIZE * k + j < |file| && bytes[j] == file[ofs + PGSIZE * k + j]
          else bytes[j] == 0
  }

  lemma PartStep(was: Space, now: Space, p0: int, k: nat, file: Bytes, ofs: nat, readBytes: nat, pageReadBytes: nat,
                 pos: nat)
    requires PartAdded(was, now, p0, k, file, ofs, readBytes) && p0 + k !in now
    requires pageReadBytes == 0 || pos + pageReadBytes <= |file|
    requires var left := if readBytes > PGSIZE * k then readBytes - PGSIZE * k else 0;
             pageReadBytes == (if left < PGSIZE then left else PGSIZE) && pos == ofs + readBytes - left
    ensures PartAdded(was, now[p0 + k := PageImage(file, pos, pageReadBytes, 0)], p0, k + 1, file, ofs, readBytes)
  {
    assert HasImage(PageImage(file, pos, pageReadBytes, 0), file, ofs, readBytes, k);
  }

  lemma PartEnd(was: Space, now: Space, p0: int, n: nat, file: Bytes, ofs: nat, readBytes: nat)
    requires PartAdded(was, now, p0, n, file, ofs, readBytes) && (readBytes == 0 || ofs + readBytes <= |file|)
    ensures Added(was, now, p0, n, file, ofs, readBytes)
  {
    forall p | p0 <= p < p0 + n
      ensures now[p] == PageImage(file, ofs, readBytes, p - p0)
    {
      assert HasImage(now[p], file, ofs, readBytes, p - p0);
    }
  }
}
