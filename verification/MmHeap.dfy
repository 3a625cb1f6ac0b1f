/** The allocator of malloclab/mm.c over the simulated memory of memlib.c. */
module MmHeap {
  import opened HeapModel

  const CHUNKSIZE := 4096
  const MAX_HEAP := 20 * 1024 * 1024

  class Allocator {
    const lo: int            // mem_heap_lo
    const mem: array<int>    // the words of the simulated memory
    var brk: int             // mem_heap_hi + 1
    const flist: array<int>  // flist0 .. flist5, flist_inf
    ghost var B: Blocks      // the blocks that tile the heap
    ghost var L: Lists       // the nodes of the free lists, in order

    ghost predicate Shape()
      reads `brk, mem, flist
    {
      16 <= lo && lo % 8 == 0 && lo <= brk <= lo + MAX_HEAP && brk % 8 == 0 &&
      mem.Length * 4 == MAX_HEAP && flist.Length == CLASSES && mem != flist
    }

    ghost function Words(): Memory
      reads `brk, mem, flist
      requires Shape()
    {
      map a | lo <= a < brk && a % 4 == 0 :: mem[(a - lo) / 4]
    }

    ghost function View(): Heap
      reads `brk, mem, flist
      requires Shape()
    {
      Heap(lo, brk, Words(), flist[..])
    }

    ghost predicate Valid()
      reads this, mem, flist
    {
      Shape() && Consistent(View(), B, L)
    }

    /** a is the address of a heap word. */
    predicate InHeap(a: int): (r: bool)
      reads `brk, mem, flist
      ensures Shape() ==> (r <==> a in View().mem)
    {
      lo <= a < brk && a % 4 == 0
    }

    lemma IndexInjective(a: int, b: int)
      requires lo % 8 == 0 && a % 4 == 0 && b % 4 == 0 && (a - lo) / 4 == (b - lo) / 4
      ensures a == b
    {}

    /** What View says of the fields. */
    lemma LowHeap()
      requires Shape()
      ensures View().lo == lo && lo >= 16 && View().brk == brk && View().flist == flist[..]
      ensures mem != flist && flist.Length == 7
    {}

    method Get(a: int) returns (w: int)
      requires Shape() && a in View().mem
      ensures w == View().mem[a]
    {
      w := mem[(a - lo) / 4];
    }

    /** The size and the free bit in the word at a. */
    method ReadTag(a: int) returns (size: int, free: bool)
      requires Shape() && a in View().mem
      ensures size == SizeOf(View().mem[a]) && (free <==> AllocOf(View().mem[a]) == 0)
    {
      var w := Get(a);
      size, free := SizeOf(w), AllocOf(w) == 0;
    }

    method Put(a: int, w: int)
      requires Shape() && a in View().mem
      modifies mem
      ensures Shape() && View() == old(View()).(mem := old(View().mem)[a := w])
    {
      mem[(a - lo) / 4] := w;
      forall b | b in Words()
        ensures Words()[b] == old(Words())[a := w][b]
      {
        if b != a && (a - lo) / 4 == (b - lo) / 4 { IndexInjective(a, b); }
      }
      assert Words() == old(Words())[a := w];
    }

    method GetHead(k: nat) returns (p: int)
      requires Shape() && k < CLASSES
      ensures |View().flist| == CLASSES && p == View().flist[k]
    {
      p := flist[k];
    }

    method SetHead(k: nat, p: int)
      requires Shape() && k < CLASSES
      modifies flist
      ensures Shape() && View() == old(View()).(flist := old(View().flist)[k := p])
    {
      flist[k] := p;
      assert Words() == old(Words());
      assert flist[..] == old(flist[..])[k := p];
    }

    /** mem_sbrk, when the simulated memory has room. */
    method Sbrk(incr: nat)
      requires Shape() && incr % 8 == 0 && brk + incr <= lo + MAX_HEAP
      modifies this`brk
      ensures Shape() && brk == old(brk) + incr && Extended(old(View()), View(), incr)
    {
      brk := brk + incr;
    }

    // ------------------------------------------------------------ mm_init

    /** mem_init and mm_init: one chunk of the simulated memory is one free block. */
    constructor (lo: int)
      requires 16 <= lo && lo % 8 == 0
      ensures Valid() && this.lo == lo && brk == lo + CHUNKSIZE && B == FirstBlocks(lo) && Live(B) == map[]
      ensures forall a :: lo + 8 <= a < brk - 8 && a in View().mem ==> View().mem[a] == 0
      ensures fresh(mem) && fresh(flist)
    {
      this.lo := lo;
      mem := new int[MAX_HEAP / 4];
      brk := lo;
      flist := new int[CLASSES](_ => NULL);
      new;
      Sbrk(CHUNKSIZE);
      Init();
    }

    /** mm_init behind its mem_sbrk. */
    method Init()
      requires Shape() && brk == lo + 4096 && Cells(lo, brk, View().mem)
      requires forall k :: 0 <= k < CLASSES ==> flist[k] == NULL
      modifies mem, flist, this`B, this`L
      ensures Valid() && B == FirstBlocks(lo) && Live(B) == map[]
      ensures forall a :: lo + 8 <= a < brk - 8 && a in View().mem ==> View().mem[a] == 0
    {
      StartOfInit();
      hide *;
      ghost var cleared := TagFirst();
      B, L := FirstBlocks(lo), NoLists();
      ghost var tagged := View();
      FirstFacts(lo);
      Link(4, lo + 8, {lo + 8}, map[], tagged.mem);
      StaysClear(lo, cleared, tagged);
      assert {lo + 8} - {lo + 8} == {};
      LowHeap();
      FirstConsistent(View(), L, tagged.mem);
      BecomesValid();
    }

    /** The payload cleared, header and footer written. */
    method TagFirst() returns (ghost cleared: Memory)
      requires Shape() && brk == lo + 4096 && Cells(lo, brk, View().mem)
      requires forall k :: 0 <= k < CLASSES ==> flist[k] == NULL
      modifies mem
      ensures Shape() && View().lo == lo && View().brk == brk && |View().flist| == CLASSES && View().flist[4] == NULL
      ensures Amid(View(), FirstBlocks(lo), NoLists(), {lo + 8}, map[], View().mem) && !Listed(lo + 8, NoLists())
      ensures View().mem == PutTags(cleared, lo + 8, Block(4088, true))
      ensures forall a :: lo + 8 <= a < lo + 4088 && a in cleared ==> cleared[a] == 0
    {
      ghost var first := View();
      StartOfInit();
      FirstFacts(lo);
      hide *;
      Clear(lo + 8, 1020);
      ghost var h := View();
      cleared := h.mem;
      AllClear(lo, brk, first.mem, cleared);
      FirstState(h);
      WriteTags(lo + 8, 4088, false);
    }

    lemma StartOfInit()
      requires Shape() && forall k :: 0 <= k < CLASSES ==> flist[k] == NULL
      ensures View().lo == lo && View().brk == brk && |View().flist| == CLASSES && lo % 8 == 0 && lo >= 16
      ensures CLASSES == 7 && NULL == 0 && forall k :: 0 <= k < 7 ==> View().flist[k] == NULL
    {}

    static lemma AllClear(lo: int, brk: int, mem: Memory, m: Memory)
      requires Cells(lo, brk, mem) && Cleared(mem, m, lo + 8, lo + 8 + 4 * 1020)
      ensures Cells(lo, brk, m) && forall a :: lo + 8 <= a < lo + 4088 && a in m ==> m[a] == 0
    {}

    /** mm_init's memset, word by word. */
    method Clear(from: int, words: nat)
      requires Shape() && lo <= from && from + 4 * words <= brk && from % 4 == 0
      modifies mem
      ensures Shape() && View() == old(View()).(mem := View().mem)
      ensures Cleared(old(View().mem), View().mem, from, from + 4 * words)
    {
      hide *;
      ghost var m0 := View().mem;
      NothingCleared(m0, from);
      for k := 0 to words
        invariant Shape() && View() == old(View()).(mem := View().mem) && Cleared(m0, View().mem, from, from + 4 * k)
      {
        WordThere(from, k);
        ClearedMore(m0, View().mem, from, from + 4 * k);
        Put(from + 4 * k, 0);
      }
    }

    /** The words from from up to a are zero, and no address has come or gone. */
    static ghost predicate Cleared(m0: Memory, m: Memory, from: int, a: int) {
      m.Keys == m0.Keys && forall c :: from <= c < a && c in m ==> m[c] == 0
    }

    static lemma NothingCleared(m: Memory, from: int)
      ensures Cleared(m, m, from, from + 4 * 0)
    {}

    static lemma ClearedMore(m0: Memory, m: Memory, from: int, a: int)
      requires Cleared(m0, m, from, a) && a in m && forall c :: c in m && c < a + 4 ==> c <= a
      ensures Cleared(m0, m[a := 0], from, a + 4)
    {}

    lemma WordThere(from: int, k: nat)
      requires Shape() && lo <= from && from % 4 == 0 && from + 4 * k < brk
      ensures from + 4 * k in View().mem && forall c :: c in View().mem && c < from + 4 * k + 4 ==> c <= from + 4 * k
    {
      var a := from + 4 * k;
      assert a % 4 == 0;
      NextWord(a);
    }

    static lemma NextWord(a: int)
      requires a % 4 == 0
      ensures forall c :: c % 4 == 0 && c < a + 4 ==> c <= a
    {}

    static lemma StaysClear(lo: int, m0: Memory, h: Heap)
      requires h.mem == PutTags(m0, lo + 8, Block(4088, true)) && |h.flist| == CLASSES && h.flist[4] == NULL
      requires forall a :: lo + 8 <= a < lo + 4088 && a in m0 ==> m0[a] == 0
      ensures var m := Insert(h, 4, lo + 8).mem;
              forall a :: lo + 8 <= a < lo + 4088 && a in m ==> m[a] == 0
    {}

    lemma BecomesValid()
      requires Shape() && Consistent(View(), B, L)
      ensures Valid()
    {}

    // ------------------------------------------------------------ free lists

    method InsertInHead(k: nat, node: int)
      requires Shape() && k < CLASSES && node in View().mem && node + 4 in View().mem
      requires |View().flist| == CLASSES
      requires View().flist[k] != NULL ==> View().flist[k] + 4 in View().mem
      modifies mem, flist
      ensures Shape() && View() == Insert(old(View()), k, node)
    {
      hide Shape, Words, View;
      var head := GetHead(k);
      if head == NULL {
        SetHead(k, node);
        Put(node, NULL);
        Put(node + 4, NULL);
      } else {
        Put(node, head);
        Put(node + 4, NULL);
        Put(head + 4, node);
        SetHead(k, node);
      }
    }

    /** delete.  A store outside the heap ends the run: ok is false. */
    method DeleteNode(k: nat, node: int) returns (ok: bool)
      requires Shape() && k < CLASSES && node in View().mem && node + 4 in View().mem
      requires |View().flist| == CLASSES
      modifies mem, flist
      ensures Shape()
      ensures old(View()).flist[k] == NULL ==> ok && View() == old(View())
      ensures old(View()).flist[k] != NULL ==> ok == Bridgeable(old(View().mem), node)
      ensures old(View()).flist[k] != NULL && ok ==> View() == Delete(old(View()), k, node)
    {
      hide Shape, Words, View;
      var head := GetHead(k);
      if head == NULL {
        return true;
      }
      var next := Get(node);
      var prev := Get(node + 4);
      if prev == NULL && next == NULL {
        SetHead(k, NULL);
      } else if prev == NULL {
        if !InHeap(next + 4) { return false; }
        Put(next + 4, NULL);
        SetHead(k, next);
      } else if next == NULL {
        if !InHeap(prev) { return false; }
        Put(prev, NULL);
      } else {
        if !InHeap(prev) { return false; }
        Put(prev, next);
        if !InHeap(next + 4) { return false; }
        Put(next + 4, prev);
      }
      Put(node, NULL);
      Put(node + 4, NULL);
      ok := true;
    }

    method FindFromFlist(k: nat, size: int) returns (r: int)
      requires Shape() && Core(View(), B, L) && k < CLASSES
      requires |L| == CLASSES && InBlocks(B, L[k])
      ensures r == FirstFit(B, L[k], size)
    {
      hide *;
      HeadInMemory(View(), B, L, k);
      ghost var s := L[k];
      HeadOfMeaning(B, s);
      FirstFitNone(B, s, size);
      var ptr := GetHead(k);
      if ptr == NULL {
        return NULL;
      }
      var fits := Fits(k, 0, ptr, size);
      if fits {
        FirstFitHere(B, s, 0, size);
        return ptr;
      }
      ghost var i := 0;
      FirstFitStep(B, s, i, size);
      var next := Get(ptr);
      while next != NULL
        invariant 0 <= i < |s| && ptr == s[i] && next == NextIn(s, i)
        invariant InBlocks(B, s[i + 1..]) && FirstFit(B, s, size) == FirstFit(B, s[i + 1..], size)
        decreases |s| - i
      {
        NextInMeaning(B, s, i);
        i, ptr := i + 1, next;
        fits := Fits(k, i, ptr, size);
        if fits {
          FirstFitHere(B, s, i, size);
          return ptr;
        }
        FirstFitStep(B, s, i, size);
        next := Get(ptr);
      }
      NextInMeaning(B, s, i);
      return NULL;
    }

    /** The test both halves of find_from_flist make on a node. */
    method Fits(k: nat, ghost i: nat, ptr: int, size: int) returns (fits: bool)
      requires Shape() && Core(View(), B, L) && k < CLASSES
      requires i < |L[k]| && ptr == L[k][i]
      ensures ptr in B && ptr != NULL && (fits <==> B[ptr].size >= size + 8)
      ensures ptr in View().mem && View().mem[ptr] == NextIn(L[k], i)
    {
      hide Shape, Words, View;
      ReadNode(View(), B, L, k, i);
      ReadBlock(View(), B, L, ptr);
      hide Core;
      var header := Get(ptr - 4);
      fits := size + 8 <= SizeOf(header);
    }

    // ------------------------------------------------------------ steps inside an operation

    /** Take listed block node off its list, whose number is k. */
    method Unlink(k: nat, node: int, ghost i: nat, ghost pending: set<int>, ghost live: map<int, int>, ghost m0: Memory)
      requires Shape() && Amid(View(), B, L, pending, live, m0)
      requires |L| == CLASSES && k < CLASSES && i < |L[k]| && L[k][i] == node
      modifies mem, flist, this`L
      ensures Shape() && Amid(View(), B, L, pending + {node}, live, m0)
      ensures !Listed(node, L) && L == old(L)[k := RemoveAt(old(L)[k], i)]
    {
      AmidUnlink(View(), B, L, pending, live, m0, k, i);
      hide *;
      var ok := DeleteNode(k, node);
      L := L[k := RemoveAt(L[k], i)];
    }

    /** Put free block node on list k. */
    method Link(k: nat, node: int, ghost pending: set<int>, ghost live: map<int, int>, ghost m0: Memory)
      requires Shape() && Amid(View(), B, L, pending, live, m0)
      requires |L| == CLASSES && k < CLASSES && OnList(B, node, k) && !Listed(node, L)
      modifies mem, flist, this`L
      ensures Shape() && Amid(View(), B, L, pending - {node}, live, m0)
      ensures L == old(L)[k := [node] + old(L)[k]] && |old(View()).flist| == CLASSES &&
              View() == Insert(old(View()), k, node)
    {
      AmidLink(View(), B, L, pending, live, m0, k, node);
      hide *;
      InsertInHead(k, node);
      L := L[k := [node] + L[k]];
    }

    // ------------------------------------------------------------ allocate

    /** PUT a header and the footer it implies. */
    method WriteTags(p: int, size: int, alloc: bool)
      requires Shape() && p - 4 in View().mem && p + size - 8 in View().mem
      modifies mem
      ensures Shape() && View() == old(View()).(mem := PutTags(old(View().mem), p, Block(size, !alloc)))
    {
      hide Shape, View, Words;
      var tag := size + if alloc then 1 else 0;
      Put(p - 4, tag);
      Put(p + size - 8, tag);
    }

    /** The four stores that cut s1 bytes off a block and leave rest bytes. */
    method CutTags(p: int, s1: int, rest: int)
      requires Shape() && p - 4 in View().mem && p + s1 - 8 in View().mem
      requires p + s1 - 4 in View().mem && p + s1 + rest - 8 in View().mem
      requires s1 >= 16 && rest >= 8
      modifies mem
      ensures Shape() && View() == old(View()).(mem := SplitMem(old(View().mem), p, s1, rest))
    {
      hide Shape, View, Words, SplitMem;
      CutStores(View().mem, p, s1, rest);
      Put(p + s1 + rest - 8, rest);
      Put(p - 4, s1 + 1);
      Put(p + s1 - 8, s1 + 1);
      Put(p + s1 - 4, rest);
    }

    /** The block fits exactly. */
    method AllocateWhole(addr: int, size: int, class1: nat, ghost i: nat, ghost live: map<int, int>, ghost m0: Memory)
      requires Shape() && Amid(View(), B, L, {}, live, m0)
      requires addr in B && B[addr].free && B[addr].size == size + 8 >= 16 && addr !in live
      requires |L| == CLASSES && class1 < CLASSES && i < |L[class1]| && L[class1][i] == addr
      modifies mem, flist, this`B, this`L
      ensures Shape() && Amid(View(), B, L, {}, live, m0)
      ensures B == Retag(old(B), addr, false)
    {
      hide *;
      AmidRetag(View(), B, L, {}, live, m0, addr, false);
      RetagParts(B, addr, false);
      ghost var B' := Retag(B, addr, false);
      assert {} + {addr} == {addr} && {addr} + {addr} == {addr} && {addr} - {addr} == {};
      WriteTags(addr, size + 8, true);
      B := B';
      Unlink(class1, addr, i, {addr}, live, m0);
      AmidNowhere(View(), B, L, {addr}, live, m0, addr);
    }

    /** Eight bytes too many become a block that is too small for any list. */
    method AllocateShort(addr: int, orig: int, class1: nat, ghost i: nat, ghost live: map<int, int>, ghost m0: Memory)
      requires Shape() && Amid(View(), B, L, {}, live, m0)
      requires addr in B && B[addr].free && B[addr].size == orig + 8 && orig >= 16 && Aligned(orig)
      requires |L| == CLASSES && class1 < CLASSES && i < |L[class1]| && L[class1][i] == addr
      modifies mem, flist, this`B, this`L
      ensures Shape() && Amid(View(), B, L, {}, live, m0)
      ensures B == Split(old(B), addr, orig)
    {
      hide *;
      AmidSplit(View(), B, L, live, m0, addr, orig);
      SplitParts(B, addr, orig);
      ghost var B', r := Split(B, addr, orig), addr + orig;
      assert {addr, r} - {r} == {addr} && {addr} + {addr} == {addr} && {addr} - {addr} == {};
      CutTags(addr, orig, 8);
      B := B';
      AmidNowhere(View(), B, L, {addr, r}, live, m0, r);
      Unlink(class1, addr, i, {addr}, live, m0);
      AmidNowhere(View(), B, L, {addr}, live, m0, addr);
    }

    /** More than that becomes a free block of its own, on the list of its class. */
    method AllocateSplit(addr: int, size: int, orig: int, class1: nat, ghost i: nat, ghost live: map<int, int>,
                         ghost m0: Memory)
      requires Shape() && Amid(View(), B, L, {}, live, m0)
      requires addr in B && B[addr].free && B[addr].size == orig + 8
      requires size >= 8 && orig - size >= 16 && Aligned(size)
      requires |L| == CLASSES && class1 < CLASSES && i < |L[class1]| && L[class1][i] == addr
      modifies mem, flist, this`B, this`L
      ensures Shape() && Amid(View(), B, L, {}, live, m0)
      ensures B == Split(old(B), addr, size + 8)
    {
      hide *;
      AlignedPlus8(size);
      AmidSplit(View(), B, L, live, m0, addr, size + 8);
      SplitParts(B, addr, size + 8);
      ghost var B' := Split(B, addr, size + 8);
      var rest := orig - size;
      var split := addr + size + 8;
      assert {addr, split} + {addr} == {addr, split} && {addr, split} - {split} == {addr} && {addr} - {addr} == {};
      CutTags(addr, size + 8, rest);
      B := B';
      RemoveStays(L, class1, i, split);
      Unlink(class1, addr, i, {addr, split}, live, m0);
      ConsStays(L, split, addr);
      PutList(split, {addr, split}, live, m0);
      AmidNowhere(View(), B, L, {addr}, live, m0, addr);
    }

    /** Put a block where its header says it belongs (putlist). */
    method PutList(ptr: int, ghost pending: set<int>, ghost live: map<int, int>, ghost m0: Memory)
      requires Shape() && Amid(View(), B, L, pending, live, m0)
      requires ptr in B && B[ptr].free && B[ptr].size >= 16 && !Listed(ptr, L)
      modifies mem, flist, this`L
      ensures Shape() && Amid(View(), B, L, pending - {ptr}, live, m0)
      ensures var k := SizeClass(B[ptr].size - 8);
              k < |old(L)| && L == old(L)[k := [ptr] + old(L)[k]]
    {
      AmidRead(View(), B, L, pending, live, m0, ptr);
      assert |L| == CLASSES;
      assert OnList(B, ptr, SizeClass(B[ptr].size - 8));
      hide *;
      var size := Get(ptr - 4);
      Link(SizeClass(SizeOf(size) - 8), ptr, pending, live, m0);
    }

    /** Give size payload bytes at listed free block addr to the caller. */
    method Allocate(addr: int, size: int, ghost live: map<int, int>, ghost m0: Memory)
      requires Shape() && Amid(View(), B, L, {}, live, m0)
      requires addr in B && B[addr].free && Aligned(size) && size >= 8 && B[addr].size >= size + 8
      modifies mem, flist, this`B, this`L
      ensures Shape() && Amid(View(), B, L, {}, live, m0)
      ensures B == Take(old(B), addr, size + 8)
    {
      hide *;
      AmidRead(View(), B, L, {}, live, m0, addr);
      AmidParts(View(), B, L, {}, live, m0);
      AmidFree(View(), B, L, {}, live, m0, addr);
      SizePositive(View().lo, View().brk, B, addr);
      TakeCases(B, addr, size + 8);
      AlignedPlus8(size);
      AlignedRest(View().lo, View().brk, B, addr, size);
      ghost var i := IsListed(B, L, {}, addr);
      var total, _ := ReadTag(addr - 4);
      var orig := total - 8;
      var class1 := SizeClass(orig);
      if orig == size {
        AllocateWhole(addr, size, class1, i, live, m0);
      } else if orig == size + 8 {
        AllocateShort(addr, orig, class1, i, live, m0);
      } else {
        AllocateSplit(addr, size, orig, class1, i, live, m0);
      }
    }

    // ------------------------------------------------------------ mm_malloc

    /** Search the lists from the request's class upward. */
    method FindFit(size: int, ghost live: map<int, int>, ghost m0: Memory) returns (r: int)
      requires Shape() && Amid(View(), B, L, {}, live, m0) && Aligned(size) && size >= 8
      ensures r != 0 ==> r in B && B[r].free && B[r].size >= size + 8 && FirstFitting(B, L, size, r)
      ensures r == 0 ==> NoneFits(B, size)
    {
      ghost var h := View();
      hide Shape, Words, View, FirstFitting;
      r := NULL;
      for k := SizeClass(size) to CLASSES
        invariant r == NULL
        invariant forall j, x :: SizeClass(size) <= j < k && x in L[j] && x in B ==> B[x].size < size + 8
      {
        AmidParts(h, B, L, {}, live, m0);
        ListInBlocks(h, B, L, k);
        r := FindFromFlist(k, size);
        if r != NULL {
          ListedIsFree(h, B, L, live, m0, k, r);
          FoundFirst(B, L, size, k);
          return r;
        }
      }
      NoneFitsAnywhere(h, B, L, live, m0, size);
    }

    /** Call mem_sbrk, a chunk at a time, until need bytes are there. */
    method Grow(need: int) returns (ext: int)
      requires Shape() && brk + Chunks(need) <= lo + MAX_HEAP
      modifies this`brk
      ensures Shape() && ext == Chunks(need) && ext % 8 == 0 && Extended(old(View()), View(), ext)
      ensures brk == old(brk) + ext
    {
      ext := 0;
      while ext < need
        invariant Shape() && ext >= 0 && ext % 8 == 0 && brk == old(brk) + ext
        invariant ext + Chunks(need - ext) == Chunks(need)
        invariant Extended(old(View()), View(), ext)
        decreases need - ext
      {
        Sbrk(CHUNKSIZE);
        ext := ext + CHUNKSIZE;
      }
    }

    /** Take block p off its list (dellist), when it is on one. */
    method DelList(p: int, ghost pending: set<int>, ghost live: map<int, int>, ghost m0: Memory)
      requires Shape() && Amid(View(), B, L, pending, live, m0)
      requires p in B && B[p].free && B[p].size >= 16 && p !in pending
      modifies mem, flist, this`L
      ensures Shape() && Amid(View(), B, L, pending + {p}, live, m0) && !Listed(p, L)
      ensures forall x :: !Listed(x, old(L)) ==> !Listed(x, L)
    {
      AmidRead(View(), B, L, pending, live, m0, p);
      AmidParts(View(), B, L, pending, live, m0);
      hide *;
      var size := Get(p - 4);
      ghost var i := IsListed(B, L, pending, p);
      RemoveKeepsUnlisted(L, SizeClass(B[p].size - 8), i);
      Unlink(SizeClass(SizeOf(size) - 8), p, i, pending, live, m0);
    }

    /** The heap ends in free block q: it takes in the new chunks. */
    method ExtendFree(blk: int, r: int, ghost q: int, ghost live: map<int, int>, ghost m0: Memory)
      requires Shape() && Amid(View(), B, L, {}, live, m0)
      requires q in B && B[q] == Block(r, true) && q + r == View().brk && q !in live
      requires 8 <= r < blk + 8 && (r == 8 || r >= 16)
      requires brk + Chunks(blk + 8 - r) <= lo + MAX_HEAP
      modifies mem, flist, this`brk, this`B, this`L
      ensures Shape() && Amid(View(), B, L, {}, live, m0)
      ensures !NoneFits(B, blk) && brk == old(brk) + Chunks(blk + 8 - r)
      ensures exists ext :: ext > 0 && B == GrowLast(old(B), q, ext)
    {
      var p := brk - 4 - r + 4;
      assert p == q;
      ghost var B0, out := B, if r >= 16 then {p} else {};
      hide View, Words, Amid, Listed, GrowLast, NoneFits;
      if r - 8 > 0 {
        assert {} + {p} == {p};
        DelList(p, {}, live, m0);
      } else {
        AmidParts(View(), B, L, {}, live, m0);
        NotListed(B, L, {}, p);
      }
      ghost var h := View();
      var ext := Grow(blk + 8 - r);
      FinishGrow(h, p, r, ext, out, live, m0);
      SomeFits(B, p, blk);
      assert B == GrowLast(B0, q, ext);
    }

    /** Tag the grown block and file it. */
    method FinishGrow(ghost h: Heap, p: int, r: int, ext: int, ghost pending: set<int>, ghost live: map<int, int>,
                      ghost m0: Memory)
      requires Shape() && Amid(h, B, L, pending, live, m0) && Extended(h, View(), ext) && pending <= {p}
      requires p in B && B[p] == Block(r, true) && p + r == h.brk && p !in live && !Listed(p, L)
      requires ext >= 4096 && ext % 8 == 0 && r >= 8
      modifies mem, flist, this`B, this`L
      ensures Shape() && Amid(View(), B, L, {}, live, m0)
      ensures B == GrowLast(old(B), p, ext) && p in B && B[p] == Block(r + ext, true)
    {
      hide *;
      ChunkAligned(ext);
      AmidGrow(h, B, L, pending, live, m0, View(), ext, p);
      GrowParts(B, p, ext);
      ExtendedBreak(h, View(), ext);
      assert pending + {p} == {p} && {p} - {p} == {};
      WriteTags(p, r + ext, false);
      B := GrowLast(B, p, ext);
      GrownClass(B, p);
      AmidParts(View(), B, L, {p}, live, m0);
      var group := SizeClass(r + ext - 8);
      Link(group, p, {p}, live, m0);
    }

    /** Tag the new chunks as one block and file it. */
    method FinishAppend(ghost h: Heap, p: int, ext: int, ghost live: map<int, int>, ghost m0: Memory)
      requires Shape() && Amid(h, B, L, {}, live, m0) && Extended(h, View(), ext) && p == h.brk
      requires ext >= 4096 && ext % 8 == 0
      modifies mem, flist, this`B, this`L
      ensures Shape() && Amid(View(), B, L, {}, live, m0)
      ensures B == AppendNew(old(B), p, ext) && p in B && B[p] == Block(ext, true)
    {
      hide *;
      ExtendedBreak(h, View(), ext);
      ChunkAligned(ext);
      AmidAppend(h, B, L, live, m0, View(), ext);
      AppendParts(B, p, ext);
      WriteTags(p, ext, false);
      B := AppendNew(B, p, ext);
      GrownClass(B, p);
      AmidParts(View(), B, L, {p}, live, m0);
      assert {p} - {p} == {};
      Link(SizeClass(ext - 8), p, {p}, live, m0);
    }

    /** The heap ends in an allocated block: the new chunks become a block of their own. */
    method ExtendAllocated(blk: int, ghost live: map<int, int>, ghost m0: Memory)
      requires Shape() && Amid(View(), B, L, {}, live, m0) && blk >= 8
      requires brk + Chunks(blk + 8) <= lo + MAX_HEAP
      modifies mem, flist, this`brk, this`B, this`L
      ensures Shape() && Amid(View(), B, L, {}, live, m0)
      ensures exists ext :: ext >= blk + 8 && B == AppendNew(old(B), old(brk), ext)
      ensures !NoneFits(B, blk) && brk == old(brk) + Chunks(blk + 8)
    {
      hide View, Words, Amid, NoneFits, AppendNew, Extended, Shape;
      LowHeap();
      ghost var h, B0 := View(), B;
      var p := brk - 4 + 4;
      var ext := Grow(blk + 8);
      FinishAppend(h, p, ext, live, m0);
      SomeFits(B, p, blk);
      assert B == AppendNew(B0, p, ext);
    }

    /** Grow the heap at its top until a block of size blk fits. */
    method ExtendHeap(blk: int, ghost live: map<int, int>, ghost m0: Memory)
      requires Shape() && Amid(View(), B, L, {}, live, m0) && NoAdjacentFree(B) && live == Live(B)
      requires blk >= 8 && NoneFits(B, blk)
      requires brk + Chunks(blk + 8 - TopFree(View())) <= lo + MAX_HEAP
      modifies mem, flist, this`brk, this`B, this`L
      ensures Shape() && Amid(View(), B, L, {}, live, m0) && NoAdjacentFree(B) && live == Live(B)
      ensures !NoneFits(B, blk) && brk == old(brk) + Chunks(blk + 8 - TopFree(old(View())))
    {
      hide Shape, View, Words, Amid, NoneFits, NoAdjacentFree, Live;
      LowHeap();
      ghost var h, B0 := View(), B;
      ghost var q := ReadLast(h, B, L, live, m0);
      AmidParts(h, B, L, {}, live, m0);
      FitBound(B, q, blk);
      var footer := Get(brk - 8);
      if AllocOf(footer) == 0 {
        ExtendFree(blk, SizeOf(footer), q, live, m0);
        ghost var ext :| ext > 0 && B == GrowLast(B0, q, ext);
        GrowSeparates(h.lo, h.brk, B0, q, ext);
      } else {
        ExtendAllocated(blk, live, m0);
        ghost var ext :| ext >= blk + 8 && B == AppendNew(B0, h.brk, ext);
        AppendSeparates(h.lo, h.brk, B0, q, ext);
      }
    }

    /** ALIGN on a 32-bit size_t. */
    static function Align(size: int): int { (size + 7) % 0x1_0000_0000 / 8 * 8 }

    /** ALIGN rounds up to a double word, and wraps to zero on the last seven sizes. */
    static lemma AlignMeaning(size: int)
      requires 0 <= size < 0x1_0000_0000
      ensures size <= 0xFFFF_FFF8 <==> size <= Align(size)
      ensures size <= 0xFFFF_FFF8 ==> Align(size) < size + 8 && Aligned(Align(size))
      ensures size > 0xFFFF_FFF8 ==> Align(size) == 0
    {}

    /** Some free block fits, or the simulated memory has room for the growth it takes. */
    ghost predicate Room(size: int)
      reads this, mem, flist
      requires Shape()
    {
      size == 0 || !NoneFits(B, Align(size)) ||
      brk + Chunks(Align(size) + 8 - TopFree(View())) <= lo + MAX_HEAP
    }

    /** mm_malloc's search, with its growth and its goto, and the allocation. */
    method Place(blk: int, ghost live: map<int, int>, ghost m0: Memory) returns (p: int)
      requires Shape() && Amid(View(), B, L, {}, live, m0) && NoAdjacentFree(B) && live == Live(B)
      requires Aligned(blk) && blk >= 8
      requires !NoneFits(B, blk) || brk + Chunks(blk + 8 - TopFree(View())) <= lo + MAX_HEAP
      modifies mem, flist, this`brk, this`B, this`L
      ensures Shape() && Amid(View(), B, L, {}, live, m0) && NoAdjacentFree(B)
      ensures p != 0 && p !in live && Live(B) == live[p := blk + 8]
      ensures !NoneFits(old(B), blk) ==>
              brk == old(brk) && p in old(B) && old(B)[p].free && old(B)[p].size >= blk + 8 &&
              FirstFitting(old(B), old(L), blk, p)
      ensures NoneFits(old(B), blk) ==> brk == old(brk) + Chunks(blk + 8 - TopFree(old(View())))
    {
      hide *;
      p := FindFit(blk, live, m0);
      if p != 0 { SomeFits(B, p, blk); }
      while p == 0
        invariant Shape() && Amid(View(), B, L, {}, live, m0) && NoAdjacentFree(B) && live == Live(B)
        invariant p == 0 ==> NoneFits(B, blk) && brk == old(brk) && View() == old(View()) && B == old(B)
        invariant p != 0 ==> p in B && B[p].free && B[p].size >= blk + 8
        invariant p != 0 && NoneFits(old(B), blk) ==> brk == old(brk) + Chunks(blk + 8 - TopFree(old(View())))
        invariant !NoneFits(old(B), blk) ==> p != 0 && brk == old(brk) && B == old(B) && FirstFitting(B, old(L), blk, p)
        decreases p == 0
      {
        ExtendHeap(blk, live, m0);
        p := FindFit(blk, live, m0);
      }
      AmidParts(View(), B, L, {}, live, m0);
      AmidFree(View(), B, L, {}, live, m0, p);
      TilingDisjoint(View().lo, View().brk, B);
      TakeLive(B, p, blk + 8);
      TakeSeparates(View().lo, View().brk, B, p, blk + 8);
      Allocate(p, blk, live, m0);
    }

    /** mm_malloc: a fresh live block of exactly the rounded size, nothing else changed
        for the owners of live blocks. */
    method Malloc(size: int) returns (p: int)
      requires Valid() && 0 <= size <= 0xFFFF_FFF8 && Room(size)
      modifies this, mem, flist
      ensures Valid()
      ensures size == 0 ==> p == NULL && B == old(B) && View() == old(View())
      ensures size > 0 ==> p != NULL && p !in Live(old(B)) && Live(B) == Live(old(B))[p := Align(size) + 8]
      ensures Kept(Live(old(B)), old(View().mem), View().mem)
      ensures size > 0 && !NoneFits(old(B), Align(size)) ==>
              brk == old(brk) && p in old(B) && old(B)[p].free && old(B)[p].size >= Align(size) + 8 &&
              FirstFitting(old(B), old(L), Align(size), p)
      ensures size > 0 && NoneFits(old(B), Align(size)) ==>
              brk == old(brk) + Chunks(Align(size) + 8 - TopFree(old(View())))
    {
      hide *;
      if size <= 0 {
        StartNothing();
        return NULL;
      }
      StartMalloc(size);
      var blk := Align(size);
      ghost var m0, live := View().mem, Live(B);
      Begin(View(), B, L);
      p := Place(blk, live, m0);
      Finish(View(), B, L, live, m0);
      BecomesValid();
    }

    lemma StartNothing()
      requires Valid()
      ensures Shape() && Kept(Live(B), View().mem, View().mem)
    {}

    lemma StartMalloc(size: int)
      requires Valid() && 0 < size <= 0xFFFF_FFF8 && Room(size)
      ensures Shape() && Consistent(View(), B, L) && NoAdjacentFree(B) && NULL == 0
      ensures Aligned(Align(size)) && Align(size) >= 8
      ensures !NoneFits(B, Align(size)) || brk + Chunks(Align(size) + 8 - TopFree(View())) <= lo + MAX_HEAP
    {
      AlignMeaning(size);
      hide View, Words, NoneFits, TopFree, Chunks, Align;
    }

    // ------------------------------------------------------------ mm_free

    /** Mark allocated block p free; its list comes later. */
    method MarkFree(p: int, size: int, ghost live: map<int, int>, ghost m0: Memory)
      requires Shape() && Amid(View(), B, L, {}, live, m0) && NoAdjacentFree(B)
      requires p in B && !B[p].free && B[p].size == size >= 16 && p !in live
      modifies mem, this`B
      ensures Shape() && Amid(View(), B, L, {p}, live, m0) && !Listed(p, L)
      ensures B == Retag(old(B), p, true) && SeparateBut(B, p) && Live(B) == Live(old(B)) - {p}
    {
      hide *;
      AmidParts(View(), B, L, {}, live, m0);
      NotListed(B, L, {}, p);
      assert {} + {p} == {p};
      AmidRetag(View(), B, L, {}, live, m0, p, true);
      RetagSeparates(B, p);
      WriteTags(p, size, false);
      B := Retag(B, p, true);
    }

    /** Write the tags that join p and its right neighbour n, neither of them listed. */
    method Join(p: int, n: int, total: int, ghost e: int, ghost pending: set<int>, ghost live: map<int, int>,
                ghost m0: Memory)
      requires Shape() && Amid(View(), B, L, pending, live, m0) && pending <= {p, n}
      requires p in B && n in B && p + B[p].size == n && B[p].free && B[n].free
      requires total == B[p].size + B[n].size && !Listed(p, L) && !Listed(n, L)
      requires SeparateBut(B, e) && (e == p || e == n)
      modifies mem, this`B
      ensures Shape() && Amid(View(), B, L, {p}, live, m0)
      ensures B == Merge(old(B), p) && p in B && B[p] == Block(total, true)
      ensures SeparateBut(B, p) && Live(B) == Live(old(B))
      ensures e == n || old(LeftClear(B, p)) ==> LeftClear(B, p)
      ensures e == p ==> RightClear(B, p)
    {
      hide *;
      AmidParts(View(), B, L, pending, live, m0);
      AmidFree(View(), B, L, pending, live, m0, p);
      AmidFree(View(), B, L, pending, live, m0, n);
      AmidMerge(View(), B, L, pending, live, m0, p);
      MergeSeparates(View().lo, View().brk, B, p, e);
      MergeLive(B, p);
      MergeParts(B, p);
      assert (pending + {p}) - {n} == {p};
      WriteTags(p, total, false);
      B := Merge(B, p);
    }

    /** Unlist a free neighbour, if it is big enough to be on a list. */
    method Detach(x: int, size: int, ghost e: int, ghost live: map<int, int>, ghost m0: Memory)
      returns (ghost pending: set<int>)
      requires Shape() && Amid(View(), B, L, {e}, live, m0) && !Listed(e, L)
      requires x in B && B[x].free && B[x].size == size && x != e
      modifies mem, flist, this`L
      ensures Shape() && Amid(View(), B, L, pending, live, m0) && pending <= {e, x}
      ensures !Listed(e, L) && !Listed(x, L)
    {
      hide *;
      if 16 <= size {
        pending := {e} + {x};
        DelList(x, {e}, live, m0);
      } else {
        pending := {e};
        AmidParts(View(), B, L, {e}, live, m0);
        NotListed(B, L, {e}, x);
      }
    }

    /** Coalesce just-freed block ptr with its left neighbour, if that is free. */
    method JoinLeft(ptr: int, size: int, ghost live: map<int, int>, ghost m0: Memory) returns (left: int, total: int)
      requires Shape() && Amid(View(), B, L, {ptr}, live, m0) && !Listed(ptr, L)
      requires ptr in B && B[ptr] == Block(size, true) && SeparateBut(B, ptr) && ptr != View().lo + 8
      modifies mem, flist, this`B, this`L
      ensures Shape() && Amid(View(), B, L, {left}, live, m0) && !Listed(left, L)
      ensures left in B && B[left] == Block(total, true) && left + total == ptr + size && total >= size
      ensures SeparateBut(B, left) && LeftClear(B, left) && Live(B) == Live(old(B))
      ensures forall x :: x in old(B) && x > ptr ==> x in B && B[x] == old(B)[x]
    {
      hide *;
      AmidParts(View(), B, L, {ptr}, live, m0);
      ghost var q := LeftNeighbour(View().lo, View().brk, B, ptr);
      AmidRead(View(), B, L, {ptr}, live, m0, q);
      LeftNeighbourDecides(View().lo, View().brk, B, q, ptr);
      SizePositive(View().lo, View().brk, B, q);
      var psize, _ := ReadTag(ptr - 8);
      var prev := ptr - psize;
      var prevSize, prevFree := ReadTag(prev - 4);
      left, total := ptr, size;
      if prevSize > 0 && prevFree {
        ghost var pending := Detach(prev, prevSize, ptr, live, m0);
        MergeOthers(B, prev);
        Join(prev, ptr, prevSize + size, ptr, pending, live, m0);
        left, total := prev, prevSize + size;
      }
    }

    /** Coalesce it with its right neighbour, if that is free. */
    method JoinRight(left: int, total: int, ghost live: map<int, int>, ghost m0: Memory)
      requires Shape() && Amid(View(), B, L, {left}, live, m0) && !Listed(left, L)
      requires left in B && B[left] == Block(total, true) && left + total in B
      requires SeparateBut(B, left) && LeftClear(B, left)
      modifies mem, flist, this`B, this`L
      ensures Shape() && Amid(View(), B, L, {left}, live, m0) && !Listed(left, L)
      ensures left in B && B[left].free && B[left].size >= total
      ensures NoAdjacentFree(B) && Live(B) == Live(old(B))
    {
      hide *;
      var next := left + total;
      AmidParts(View(), B, L, {left}, live, m0);
      SizePositive(View().lo, View().brk, B, next);
      SizePositive(View().lo, View().brk, B, left);
      AmidRead(View(), B, L, {left}, live, m0, next);
      RightNeighbourDecides(B, left);
      var nextSize, nextFree := ReadTag(next - 4);
      if nextSize > 0 && nextFree {
        ghost var pending := Detach(next, nextSize, left, live, m0);
        Join(left, next, total + nextSize, left, pending, live, m0);
      }
      ClearSides(B, left);
    }

    /** mm_free's branch for a block with neighbours on both sides. */
    method FreeInterior(ptr: int, size: int, ghost live: map<int, int>, ghost m0: Memory)
      requires Shape() && Amid(View(), B, L, {ptr}, live, m0) && !Listed(ptr, L)
      requires ptr in B && B[ptr] == Block(size, true) && size >= 16 && SeparateBut(B, ptr)
      requires ptr != View().lo + 8 && ptr + size in B
      modifies mem, flist, this`B, this`L
      ensures Shape() && Amid(View(), B, L, {}, live, m0) && NoAdjacentFree(B) && Live(B) == Live(old(B))
    {
      hide *;
      AmidParts(View(), B, L, {ptr}, live, m0);
      SizePositive(View().lo, View().brk, B, ptr);
      var left, total := JoinLeft(ptr, size, live, m0);
      JoinRight(left, total, live, m0);
      PutList(left, {left}, live, m0);
      assert {left} - {left} == {};
    }

    /** dellist as the edge branches call it, on a neighbour of any size.  ok is false
        when delete stores outside the heap. */
    method DetachEdge(x: int, ghost e: int, ghost live: map<int, int>, ghost m0: Memory)
      returns (ok: bool, ghost pending: set<int>)
      requires Shape() && Amid(View(), B, L, {e}, live, m0) && !Listed(e, L)
      requires x in B && B[x].free && x != e
      modifies mem, flist, this`L
      ensures Shape() && |old(View()).flist| == CLASSES
      ensures ok <==> !(B[x].size == 8 && old(View()).flist[0] != NULL)
      ensures ok ==> Amid(View(), B, L, pending, live, m0) && pending <= {e, x}
      ensures ok ==> !Listed(e, L) && !Listed(x, L)
    {
      AmidParts(View(), B, L, {e}, live, m0);
      AmidRead(View(), B, L, {e}, live, m0, x);
      SizePositive(View().lo, View().brk, B, x);
      hide Shape, View, Words, Amid, Listed;
      var size, _ := ReadTag(x - 4);
      if size >= 16 {
        ok, pending := true, {e} + {x};
        DelList(x, {e}, live, m0);
      } else {
        pending := {e};
        NotListed(B, L, {e}, x);
        FragmentTraps(View(), B, L, {e}, live, m0, x);
        assert SizeClass(size - 8) == 0;
        LowHeap();
        ok := DeleteNode(SizeClass(size - 8), x);
      }
    }

    /** mm_free's branch for the first block of the heap, when it is not also the last. */
    method FreeFirst(ptr: int, size: int, ghost live: map<int, int>, ghost m0: Memory) returns (ok: bool)
      requires Shape() && Amid(View(), B, L, {ptr}, live, m0) && !Listed(ptr, L)
      requires ptr in B && B[ptr] == Block(size, true) && size >= 16 && SeparateBut(B, ptr)
      requires ptr == View().lo + 8 && ptr + size in B && |View().flist| == CLASSES
      modifies mem, flist, this`B, this`L
      ensures ok <==> !(old(B)[ptr + size] == Block(8, true) && old(View()).flist[0] != NULL)
      ensures ok ==> Shape() && Amid(View(), B, L, {}, live, m0) && NoAdjacentFree(B) && Live(B) == Live(old(B))
    {
      hide *;
      var next := ptr + size;
      AmidParts(View(), B, L, {ptr}, live, m0);
      FirstIsLeftClear(View().lo, View().brk, B);
      AmidRead(View(), B, L, {ptr}, live, m0, next);
      RightNeighbourDecides(B, ptr);
      SizePositive(View().lo, View().brk, B, next);
      var nextSize, nextFree := ReadTag(next - 4);
      if nextFree {
        ghost var pending;
        ok, pending := DetachEdge(next, ptr, live, m0);
        if !ok {
          return;
        }
        Join(ptr, next, size + nextSize, ptr, pending, live, m0);
      } else {
        ok := true;
        Rewrite(ptr, size, live, m0);
      }
      ClearSides(B, ptr);
      PutList(ptr, {ptr}, live, m0);
      assert {ptr} - {ptr} == {};
    }

    /** Store a free block's tags again. */
    method Rewrite(ptr: int, size: int, ghost live: map<int, int>, ghost m0: Memory)
      requires Shape() && Amid(View(), B, L, {ptr}, live, m0)
      requires ptr in B && B[ptr] == Block(size, true) && size >= 16
      modifies mem
      ensures Shape() && Amid(View(), B, L, {ptr}, live, m0)
    {
      hide *;
      AmidFree(View(), B, L, {ptr}, live, m0, ptr);
      AmidRetag(View(), B, L, {ptr}, live, m0, ptr, true);
      RetagSame(B, ptr);
      assert {ptr} + {ptr} == {ptr};
      WriteTags(ptr, size, false);
    }

    /** mm_free's branch for the last block of the heap, when it is not also the first. */
    method FreeLast(ptr: int, size: int, ghost q: int, ghost live: map<int, int>, ghost m0: Memory) returns (ok: bool)
      requires Shape() && Amid(View(), B, L, {ptr}, live, m0) && !Listed(ptr, L)
      requires ptr in B && B[ptr] == Block(size, true) && size >= 16 && SeparateBut(B, ptr)
      requires q in B && q + B[q].size == ptr && ptr + size == View().brk && |View().flist| == CLASSES
      modifies mem, flist, this`B, this`L
      ensures ok <==> !(old(B)[q] == Block(8, true) && old(View()).flist[0] != NULL)
      ensures ok ==> Shape() && Amid(View(), B, L, {}, live, m0) && NoAdjacentFree(B) && Live(B) == Live(old(B))
    {
      hide *;
      AmidParts(View(), B, L, {ptr}, live, m0);
      AmidRead(View(), B, L, {ptr}, live, m0, q);
      LeftNeighbourDecides(View().lo, View().brk, B, q, ptr);
      LastIsRightClear(View().lo, View().brk, B, ptr);
      SizePositive(View().lo, View().brk, B, q);
      var psize, _ := ReadTag(ptr - 8);
      var prev := ptr - psize;
      var prevSize, prevFree := ReadTag(prev - 4);
      if prevFree {
        LowHeap();
        ghost var pending;
        ok, pending := DetachEdge(prev, ptr, live, m0);
        if !ok {
          return;
        }
        Join(prev, ptr, size + prevSize, ptr, pending, live, m0);
        AmidParts(View(), B, L, {prev}, live, m0);
        LowHeap();
        LastIsRightClear(View().lo, View().brk, B, prev);
        ClearSides(B, prev);
        PutList(prev, {prev}, live, m0);
        assert {prev} - {prev} == {};
      } else {
        ok := true;
        Rewrite(ptr, size, live, m0);
        ClearSides(B, ptr);
        PutList(ptr, {ptr}, live, m0);
        assert {ptr} - {ptr} == {};
      }
    }

    /** mm_free's branch for the only block of the heap: putlist gets the address of the
        header, not of the payload, and overwrites the header it has just written. */
    method FreeWhole()
      requires Shape() && lo + 16 <= brk
      modifies mem, flist
      ensures Shape() && forall B', L' :: !Consistent(View(), B', L')
    {
      var size := brk - 1 - lo - 7;
      WholeCells();
      Put(lo + 4, size);
      Put(brk - 8, size);
      for k := 0 to CLASSES
        invariant Shape() && View().mem.Keys == old(View().mem.Keys)
        invariant forall j :: 0 <= j < k ==> flist[j] == NULL
      {
        SetHead(k, NULL);
      }
      var w := Get(lo);
      InsertInHead(SizeClass((SizeOf(w) - 8) % 0x1_0000_0000), lo + 4);
      ZeroHeaderBroken(View());
    }

    lemma WholeCells()
      requires Shape() && lo + 16 <= brk
      ensures lo in View().mem && lo + 4 in View().mem && lo + 8 in View().mem && brk - 8 in View().mem
    {
      AlignedWords(lo + 8, brk - lo - 8);
      AlignedWords(lo, 8);
      var a, b := lo + 4, brk - 8;
      assert InHeap(lo) && InHeap(a) && InHeap(lo + 8) && InHeap(b);
    }

    /** The word at a is the tag of a free 8-byte block. */
    static predicate FragmentTag(w: int) { AllocOf(w) == 0 && SizeOf(w) == 8 }

    /** The frees that mm_free gets right, as a caller can tell from the words around the
        block: not the only block of the heap; and at either edge of the heap, no 8-byte
        free neighbour unless the first list is empty. */
    ghost predicate Freeable(ptr: int)
      reads this, mem, flist
      requires Valid() && ptr in Live(B)
    {
      var size := Live(B)[ptr];
      var first, last := ptr == lo + 8, ptr + size == brk;
      EdgeWords(ptr);
      !(first && last) &&
      (first && flist[0] != NULL ==> !FragmentTag(View().mem[ptr + size - 4])) &&
      (last && flist[0] != NULL ==> !FragmentTag(View().mem[ptr - 8]))
    }

    /** The words on either side of a live block are its neighbours' tags. */
    lemma EdgeWords(ptr: int)
      requires Valid() && ptr in Live(B)
      ensures lo + 16 <= brk
      ensures ptr + Live(B)[ptr] != brk ==> ptr + Live(B)[ptr] - 4 in View().mem
      ensures ptr != lo + 8 ==> ptr - 8 in View().mem
    {
      var h, n := View(), ptr + Live(B)[ptr];
      assert Placed(h.lo, h.brk, B, ptr);
      if n != brk { ReadBlock(h, B, L, n); }
      if ptr != lo + 8 {
        var q := LeftNeighbour(h.lo, h.brk, B, ptr);
        ReadBlock(h, B, L, q);
      }
    }

    lemma RightFragment(ptr: int)
      requires Valid() && ptr in B && ptr + B[ptr].size != brk
      ensures ptr + B[ptr].size in B && ptr + B[ptr].size - 4 in View().mem
      ensures FragmentTag(View().mem[ptr + B[ptr].size - 4]) <==> B[ptr + B[ptr].size] == Block(8, true)
    {
      assert Placed(View().lo, View().brk, B, ptr);
      ReadBlock(View(), B, L, ptr + B[ptr].size);
      hide Consistent;
    }

    lemma LeftFragment(ptr: int, q: int)
      requires Valid() && q in B && q + B[q].size == ptr
      ensures ptr - 8 in View().mem
      ensures FragmentTag(View().mem[ptr - 8]) <==> B[q] == Block(8, true)
    {
      ReadBlock(View(), B, L, q);
      hide Consistent;
    }

    /** Freeable in terms of the blocks. */
    lemma FreeableMeaning(ptr: int, q: int)
      requires Valid() && ptr in Live(B)
      requires ptr != lo + 8 ==> q in B && q + B[q].size == ptr
      ensures var n := ptr + Live(B)[ptr];
              (n != brk ==> n in B) &&
              (Freeable(ptr) <==>
                if ptr == lo + 8 then n != brk && !(B[n] == Block(8, true) && flist[0] != NULL)
                else n == brk ==> !(B[q] == Block(8, true) && flist[0] != NULL))
    {
      EdgeWords(ptr);
      if ptr + Live(B)[ptr] != brk { RightFragment(ptr); }
      if ptr != lo + 8 { LeftFragment(ptr, q); }
      hide Consistent, View, Words, FragmentTag;
    }

    lemma StartFree(ptr: int)
      requires Valid() && ptr in Live(B)
      ensures Shape()
      ensures Amid(View(), B, L, {}, Live(B) - {ptr}, View().mem) && NoAdjacentFree(B)
      ensures ptr - 4 in View().mem && SizeOf(View().mem[ptr - 4]) == B[ptr].size
      ensures ptr in B && !B[ptr].free && B[ptr].size >= 16 && Live(B)[ptr] == B[ptr].size
      ensures |View().flist| == CLASSES
    {
      var h := View();
      Begin(h, B, L);
      AmidLess(h, B, L, {}, Live(B), h.mem, ptr);
      AmidRead(h, B, L, {}, Live(B), h.mem, ptr);
      assert Placed(h.lo, h.brk, B, ptr);
    }

    lemma LeftOf(ptr: int) returns (q: int)
      requires Valid() && ptr in B
      ensures ptr != lo + 8 ==> q in B && q + B[q].size == ptr && q != ptr
      ensures ptr == lo + 8 ==> q == ptr
    {
      q := ptr;
      if ptr != lo + 8 {
        q := LeftNeighbour(View().lo, View().brk, B, ptr);
        SizePositive(View().lo, View().brk, B, q);
      }
    }

    /** Free block ptr of size bytes, with left neighbour q if it has one. */
    method Release(ptr: int, size: int, ghost q: int, ghost live: map<int, int>, ghost m0: Memory) returns (ok: bool)
      requires Shape() && Amid(View(), B, L, {}, live, m0) && NoAdjacentFree(B) && |View().flist| == CLASSES
      requires ptr in B && B[ptr] == Block(size, false) && size >= 16 && ptr !in live
      requires ptr != lo + 8 ==> q in B && q != ptr && q + B[q].size == ptr
      requires ptr + size != brk ==> ptr + size in B
      requires lo + 16 <= brk
      modifies mem, flist, this`B, this`L
      ensures var safe :=
                if ptr == lo + 8 then ptr + size != brk &&
                    !(old(B)[ptr + size] == Block(8, true) && old(flist[0]) != NULL)
                else ptr + size == brk ==> !(old(B)[q] == Block(8, true) && old(flist[0]) != NULL);
              if safe
              then ok && Shape() && Amid(View(), B, L, {}, live, m0) && NoAdjacentFree(B) &&
              Live(B) == Live(old(B)) - {ptr}
              else if ptr == lo + 8 && ptr + size == brk
              then ok && Shape() && forall B', L' :: !Consistent(View(), B', L')
              else !ok
    {
      hide *;
      LowHeap();
      MarkFree(ptr, size, live, m0);
      RetagParts(old(B), ptr, true);
      RetagOthers(old(B), ptr);
      LowHeap();
      var first, last := ptr == lo + 8, ptr + size - 8 == brk - 8;
      if !last && !first {
        FreeInterior(ptr, size, live, m0);
        ok := true;
      } else if last && first {
        FreeWhole();
        ok := true;
      } else if first {
        ok := FreeFirst(ptr, size, live, m0);
      } else {
        ok := FreeLast(ptr, size, q, live, m0);
      }
    }

    /** mm_free.  On a Freeable block it keeps the invariant, gives up exactly that block
        and touches no live payload.  On any other it breaks the heap: the only block leaves
        a heap that no tiling fits, and beside a fragment a store outside the heap ends the
        run (ok is false). */
    method Free(ptr: int) returns (ok: bool)
      requires Valid() && ptr in Live(B)
      modifies mem, flist, this`B, this`L
      ensures old(Freeable(ptr)) ==> ok && Valid() && Live(B) == Live(old(B)) - {ptr}
      ensures old(Freeable(ptr)) ==> Kept(Live(B), old(View().mem), View().mem)
      ensures !old(Freeable(ptr)) ==>
              if ptr == lo + 8 && ptr + Live(old(B))[ptr] == brk
              then ok && Shape() && forall B', L' :: !Consistent(View(), B', L')
              else !ok
    {
      hide *;
      StartFree(ptr);
      LowHeap();
      EdgeWords(ptr);
      ghost var q := LeftOf(ptr);
      FreeableMeaning(ptr, q);
      ghost var h, live := View(), Live(B) - {ptr};
      var size, _ := ReadTag(ptr - 4);
      ok := Release(ptr, size, q, live, h.mem);
      if old(Freeable(ptr)) {
        Finish(View(), B, L, live, h.mem);
        BecomesValid();
      }
    }

    // ------------------------------------------------------------ clients

    /** An owner stores into its own live payload. */
    method Store(q: int, a: int, w: int)
      requires Valid() && q in Live(B) && q <= a < q + Live(B)[q] - 8 && a % 4 == 0
      modifies mem
      ensures Valid() && View().mem == old(View().mem)[a := w]
      ensures Kept(Live(B) - {q}, old(View().mem), View().mem)
    {
      ghost var h := View();
      StoreKeeps(h, B, L, q, a, w);
      hide *;
      LowHeap();
      Put(a, w);
      BecomesValid();
    }
  }

  /** The only block of the heap: from mm_init on, one request for the whole chunk and one
      free leave a heap that no blocks and lists fit. */
  method FreeOnlyBlock() returns (a: Allocator)
    ensures fresh(a) && a.Shape() && forall B, L :: !Consistent(a.View(), B, L)
  {
    a := new Allocator(16);
    FirstFits();
    assert Allocator.Align(4080) == 4080;
    var p := a.Malloc(4080);
    OnlyBlock(a, p);
    var ok := a.Free(p);
  }

  /** A heap of the invariant, 16 and 4112 its ends, with these live blocks. */
  ghost predicate HeapOf(a: Allocator, live: map<int, int>)
    reads a, a.mem, a.flist
  {
    a.Valid() && a.lo == 16 && a.brk == 4112 && Live(a.B) == live
  }

  /** The first block has an 8-byte free neighbour, and another small block is free: five
      requests and two frees from mm_init on. */
  method FragmentRun() returns (a: Allocator, p: int)
    ensures fresh(a) && fresh(a.mem) && fresh(a.flist) && HeapOf(a, map[24 := 24, 56 := 16, 88 := 4024])
    ensures p == 24 && !a.Freeable(p)
  {
    a := FourBlocks();
    hide *;
    AfterFour(a);
    Return(a, 72, map[24 := 32, 56 := 16, 72 := 16, 88 := 4024], map[24 := 32, 56 := 16, 88 := 4024]);
    AfterFive(a);
    Return(a, 24, map[24 := 32, 56 := 16, 88 := 4024], map[56 := 16, 88 := 4024]);
    AfterSix(a);
    AlignedSizes();
    p := Request(a, 16, map[56 := 16, 88 := 4024], 24);
    assert map[56 := 16, 88 := 4024][24 := 24] == map[24 := 24, 56 := 16, 88 := 4024];
    Fragment(a);
  }

  /** The whole heap in four live blocks. */
  method FourBlocks() returns (a: Allocator)
    ensures fresh(a) && fresh(a.mem) && fresh(a.flist)
    ensures HeapOf(a, map[24 := 32, 56 := 16, 72 := 16, 88 := 4024])
  {
    a := new Allocator(16);
    AlignedSizes();
    FirstFits();
    assert HeapOf(a, map[]);
    hide *;
    var p := Request(a, 24, map[], 24);
    AfterOne(a);
    p := Request(a, 8, map[24 := 32], 56);
    AfterTwo(a);
    p := Request(a, 8, map[24 := 32, 56 := 16], 72);
    AfterThree(a);
    p := Request(a, 4016, map[24 := 32, 56 := 16, 72 := 16], 88);
  }

  /** mm_malloc where only one free block fits. */
  method Request(a: Allocator, size: int, ghost live: map<int, int>, ghost at: int) returns (p: int)
    requires HeapOf(a, live) && 0 < size <= 0xFFFF_FFF8 && Allocator.Align(size) == size
    requires !NoneFits(a.B, size) && forall x :: x in a.B && a.B[x].free && a.B[x].size >= size + 8 ==> x == at
    modifies a, a.mem, a.flist
    ensures p == at && HeapOf(a, live[at := size + 8])
  {
    hide NoneFits, Allocator.Align, Live, Allocator.Valid, Kept, Chunks, TopFree;
    RoomThere(a, size);
    p := a.Malloc(size);
  }

  lemma RoomThere(a: Allocator, size: int)
    requires a.Valid() && !NoneFits(a.B, size) && Allocator.Align(size) == size
    ensures a.Shape() && a.Room(size)
  {}

  /** mm_free of a block that it handles. */
  method Return(a: Allocator, p: int, ghost live: map<int, int>, ghost now: map<int, int>)
    requires HeapOf(a, live) && p in live && now == live - {p} && p in Live(a.B) && a.Freeable(p)
    modifies a, a.mem, a.flist
    ensures HeapOf(a, now)
  {
    hide Live, Allocator.Valid, Kept, Allocator.Freeable;
    var ok := a.Free(p);
  }

  /** Freeing that first block sends delete outside the heap. */
  method FreeBesideFragment() returns (ok: bool)
    ensures !ok
  {
    var a, p := FragmentRun();
    NotAlone(a);
    ok := a.Free(p);
  }

  lemma AlignedSizes()
    ensures Allocator.Align(24) == 24 && Allocator.Align(8) == 8 && Allocator.Align(16) == 16 &&
            Allocator.Align(4016) == 4016
  {}

  lemma NotAlone(a: Allocator)
    requires HeapOf(a, map[24 := 24, 56 := 16, 88 := 4024])
    ensures 24 in Live(a.B) && 24 + Live(a.B)[24] != a.brk
  {}

  /** Blocks that tile the heap from 16 to 4112, no two free ones side by side. */
  ghost predicate Tiled(B: Blocks, live: map<int, int>) {
    Tiling(16, 4112, B) && NoAdjacentFree(B) && Live(B) == live
  }

  lemma HeapTiled(a: Allocator, live: map<int, int>)
    requires HeapOf(a, live)
    ensures Tiled(a.B, live) && a.Valid()
  {}

  /** Where a free block can be: at the start of the heap or behind a live block. */
  lemma FreeAt(B: Blocks, live: map<int, int>, x: int)
    requires Tiled(B, live) && x in B && B[x].free
    ensures x == 24 || exists q :: q in live && q + live[q] == x
  {
    FreeStart(16, 4112, B, x);
  }

  /** Behind a live block is another block, or the end. */
  lemma LiveAt(B: Blocks, live: map<int, int>, q: int)
    requires Tiled(B, live) && q in live
    ensures q in B && !B[q].free && B[q].size == live[q] && (q + live[q] == 4112 || q + live[q] in B)
  {
    assert Placed(16, 4112, B, q);
  }

  lemma FirstThere(B: Blocks, live: map<int, int>)
    requires Tiled(B, live)
    ensures 24 in B
  {}

  /** A free block in front of live block e, or of the end. */
  lemma GapOf(B: Blocks, live: map<int, int>, x: int, e: int)
    requires Tiled(B, live) && x in B && x !in live && x < e && (e == 4112 || e in live)
    requires forall q :: q in live ==> !(x <= q < e)
    ensures B[x] == Block(e - x, true)
  {
    GapSize(16, 4112, B, x, e);
  }

  lemma Fits(B: Blocks, x: int, size: int)
    requires x in B && B[x].free && B[x].size >= size + 8
    ensures !NoneFits(B, size)
  {}

  lemma AfterOne(a: Allocator)
    requires HeapOf(a, map[24 := 32])
    ensures !NoneFits(a.B, 8) && forall x :: x in a.B && a.B[x].free ==> x == 56
  {
    var live := map[24 := 32];
    HeapTiled(a, live);
    hide *;
    LiveAt(a.B, live, 24);
    GapOf(a.B, live, 56, 4112);
    Fits(a.B, 56, 8);
    forall x | x in a.B && a.B[x].free
      ensures x == 56
    {
      FreeAt(a.B, live, x);
    }
  }

  lemma AfterTwo(a: Allocator)
    requires HeapOf(a, map[24 := 32, 56 := 16])
    ensures !NoneFits(a.B, 8) && forall x :: x in a.B && a.B[x].free ==> x == 72
  {
    var live := map[24 := 32, 56 := 16];
    HeapTiled(a, live);
    hide *;
    LiveAt(a.B, live, 24);
    LiveAt(a.B, live, 56);
    GapOf(a.B, live, 72, 4112);
    Fits(a.B, 72, 8);
    forall x | x in a.B && a.B[x].free
      ensures x == 72
    {
      FreeAt(a.B, live, x);
    }
  }

  lemma AfterThree(a: Allocator)
    requires HeapOf(a, map[24 := 32, 56 := 16, 72 := 16])
    ensures !NoneFits(a.B, 4016) && forall x :: x in a.B && a.B[x].free ==> x == 88
  {
    var live := map[24 := 32, 56 := 16, 72 := 16];
    HeapTiled(a, live);
    hide *;
    LiveAt(a.B, live, 24);
    LiveAt(a.B, live, 56);
    LiveAt(a.B, live, 72);
    GapOf(a.B, live, 88, 4112);
    Fits(a.B, 88, 4016);
    forall x | x in a.B && a.B[x].free
      ensures x == 88
    {
      FreeAt(a.B, live, x);
    }
  }

  lemma AfterFour(a: Allocator)
    requires HeapOf(a, map[24 := 32, 56 := 16, 72 := 16, 88 := 4024])
    ensures 72 in Live(a.B) && a.Freeable(72)
  {}

  lemma AfterFive(a: Allocator)
    requires HeapOf(a, map[24 := 32, 56 := 16, 88 := 4024])
    ensures 24 in Live(a.B) && a.Freeable(24)
  {
    HeapTiled(a, map[24 := 32, 56 := 16, 88 := 4024]);
    FirstThere(a.B, map[24 := 32, 56 := 16, 88 := 4024]);
    LiveAt(a.B, map[24 := 32, 56 := 16, 88 := 4024], 24);
    LiveAt(a.B, map[24 := 32, 56 := 16, 88 := 4024], 56);
    a.FreeableMeaning(24, 24);
    hide HeapOf;
  }

  lemma AfterSix(a: Allocator)
    requires HeapOf(a, map[56 := 16, 88 := 4024])
    ensures !NoneFits(a.B, 16) && forall x :: x in a.B && a.B[x].free && a.B[x].size >= 24 ==> x == 24
  {
    var live := map[56 := 16, 88 := 4024];
    HeapTiled(a, live);
    hide *;
    FirstThere(a.B, live);
    LiveAt(a.B, live, 56);
    LiveAt(a.B, live, 88);
    GapOf(a.B, live, 24, 56);
    GapOf(a.B, live, 72, 88);
    Fits(a.B, 24, 16);
    forall x | x in a.B && a.B[x].free && a.B[x].size >= 24
      ensures x == 24
    {
      FreeAt(a.B, live, x);
    }
  }

  lemma SmallList(a: Allocator)
    requires a.Valid() && 72 in a.B && a.B[72] == Block(16, true)
    ensures a.flist.Length == CLASSES && a.flist[0] != NULL
  {
    SmallListed(a.View(), a.B, a.L, 72);
  }

  lemma FragmentThere(B: Blocks)
    requires Tiled(B, map[24 := 24, 56 := 16, 88 := 4024])
    ensures 48 in B && B[48] == Block(8, true) && 72 in B && B[72] == Block(16, true)
  {
    var live := map[24 := 24, 56 := 16, 88 := 4024];
    hide *;
    LiveAt(B, live, 24);
    LiveAt(B, live, 56);
    LiveAt(B, live, 88);
    GapOf(B, live, 48, 56);
    GapOf(B, live, 72, 88);
  }

  lemma Fragment(a: Allocator)
    requires HeapOf(a, map[24 := 24, 56 := 16, 88 := 4024])
    ensures !a.Freeable(24)
  {
    HeapTiled(a, map[24 := 24, 56 := 16, 88 := 4024]);
    FragmentThere(a.B);
    SmallList(a);
    a.FreeableMeaning(24, 24);
    hide HeapOf;
  }

  lemma FirstFits()
    ensures !NoneFits(FirstBlocks(16), 4080) && !NoneFits(FirstBlocks(16), 24)
  {
    assert 24 in FirstBlocks(16);
  }

  lemma OnlyBlock(a: Allocator, p: int)
    requires a.Valid() && a.lo == 16 && a.brk == 4112 && Live(a.B) == map[p := 4088]
    ensures p in Live(a.B) && !a.Freeable(p) && p == a.lo + 8 && p + Live(a.B)[p] == a.brk
  {
    assert p in Live(a.B);
    assert Placed(16, 4112, a.B, p);
  }
}
