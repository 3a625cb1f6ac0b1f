/** The state of the segregated-fit allocator of malloclab/mm.c as values: a word
    memory, the blocks that tile it, and the seven free lists threaded through the
    payloads of free blocks.  MmHeap.dfy holds the allocator itself.

    A block is named by its payload address p: its header is the word p - 4, its
    footer the word p + size - 8, and the next block's payload is p + size. */
module HeapModel {
  import opened Sequences

  const NULL := 0
  const CLASSES := 7

  type Memory = map<int, int>
  datatype Block = Block(size: int, free: bool)
  type Blocks = map<int, Block>
  type Lists = seq<seq<int>>

  // ---------------------------------------------------------------- words

  /** The free list a payload size belongs to (fg).  65 is in no list but the last. */
  function SizeClass(size: int): (k: nat)
    ensures k < CLASSES
  {
    if size <= 16 then 0
    else if size > 16 && size <= 64 then 1
    else if size > 65 && size <= 512 then 2
    else if size > 512 && size <= 2048 then 3
    else if size > 2048 && size <= 4096 then 4
    else if size > 4096 && size <= 8192 then 5
    else 6
  }

  /** Searching upward from a request's class never skips a fitting block: the
      classes are monotone on the double-word sizes that occur. */
  lemma SizeClassMonotone(a: int, b: int)
    requires a % 8 == 0 && b % 8 == 0 && a <= b
    ensures SizeClass(a) <= SizeClass(b)
  {}

  /** The classes of the sizes that occur. */
  lemma SizeClassRanges(size: int)
    requires size % 8 == 0 && size > 0
    ensures SizeClass(size) == 0 <==> size <= 16
    ensures SizeClass(size) == 1 <==> 16 < size <= 64
    ensures SizeClass(size) == 2 <==> 64 < size <= 512
    ensures SizeClass(size) == 3 <==> 512 < size <= 2048
    ensures SizeClass(size) == 4 <==> 2048 < size <= 4096
    ensures SizeClass(size) == 5 <==> 4096 < size <= 8192
    ensures SizeClass(size) == 6 <==> 8192 < size
  {}

  /** GET_SIZE and GET_ALLOC: the word without its three low bits, and its lowest bit. */
  function SizeOf(w: int): int { w / 8 * 8 }
  function AllocOf(w: int): int { w % 2 }

  /** PACK: the size is a multiple of 8, so setting the low bit is adding it. */
  function Tag(b: Block): int { b.size + if b.free then 0 else 1 }

  lemma TagParts(b: Block)
    requires b.size % 8 == 0
    ensures SizeOf(Tag(b)) == b.size
    ensures AllocOf(Tag(b)) == if b.free then 0 else 1
  {
    var k := b.size / 8;
    assert b.size == 8 * k;
    assert Tag(b) == 8 * k + (if b.free then 0 else 1);
  }

  // ---------------------------------------------------------------- tiling

  ghost predicate Placed(lo: int, brk: int, B: Blocks, p: int)
    requires p in B
  {
    var size := B[p].size;
    (size == 8 || size >= 16) && (!B[p].free ==> size >= 16) &&
    lo + 8 <= p && p + size <= brk && (p + size == brk || p + size in B)
  }

  /** The blocks start right after the first word pair, follow one another without
      gap or overlap, and end at the break. */
  ghost predicate Tiling(lo: int, brk: int, B: Blocks) {
    && 0 <= lo && lo + 8 in B
    && (forall p {:trigger Placed(lo, brk, B, p)} :: p in B ==> Placed(lo, brk, B, p))
    && Disjoint(B)
  }

  ghost predicate Disjoint(B: Blocks) {
    forall p, q :: p in B && q in B && p < q ==> p + B[p].size <= q
  }

  ghost predicate Aligned(x: int) { x % 8 == 0 }

  /** Payloads and block sizes are multiples of the double word. */
  ghost predicate Alignment(lo: int, brk: int, B: Blocks) {
    Aligned(lo) && Aligned(brk) && forall p :: p in B ==> Aligned(p) && Aligned(B[p].size)
  }

  lemma AlignedPlus8(a: int)
    requires Aligned(a)
    ensures Aligned(a + 8)
  {}

  lemma AlignedSum(a: int, b: int)
    requires Aligned(a) && Aligned(b)
    ensures Aligned(a + b) && Aligned(a - b)
  {}

  /** Every address of the heap lies in exactly one block's span. */
  lemma {:induction false} CoveringBlock(lo: int, brk: int, B: Blocks, from: int, a: int) returns (p: int)
    requires Tiling(lo, brk, B) && from in B
    requires from - 4 <= a < brk - 4
    ensures p in B && p - 4 <= a < p - 4 + B[p].size
    ensures forall q :: q in B && q - 4 <= a < q - 4 + B[q].size ==> q == p
    decreases brk - from
  {
    assert Placed(lo, brk, B, from);
    var next := from + B[from].size;
    if a < next - 4 {
      p := from;
    } else {
      p := CoveringBlock(lo, brk, B, next, a);
    }
  }

  /** Every block but the first has a left neighbour. */
  lemma LeftNeighbour(lo: int, brk: int, B: Blocks, p: int) returns (q: int)
    requires Tiling(lo, brk, B) && p in B && p != lo + 8
    ensures q in B && q + B[q].size == p
  {
    assert Placed(lo, brk, B, p);
    q := CoveringBlock(lo, brk, B, lo + 8, p - 5);
    assert Placed(lo, brk, B, q);
  }

  /** The last block ends at the break. */
  lemma LastBlock(lo: int, brk: int, B: Blocks) returns (q: int)
    requires Tiling(lo, brk, B)
    ensures q in B && q + B[q].size == brk
  {
    assert Placed(lo, brk, B, lo + 8);
    q := CoveringBlock(lo, brk, B, lo + 8, brk - 5);
    assert Placed(lo, brk, B, q);
  }

  /** Headers and footers agree with the blocks. */
  ghost predicate Tagged(mem: Memory, B: Blocks) {
    forall p :: p in B ==>
      p - 4 in mem && mem[p - 4] == Tag(B[p]) &&
      p + B[p].size - 8 in mem && mem[p + B[p].size - 8] == Tag(B[p])
  }

  ghost predicate NoAdjacentFree(B: Blocks) {
    forall p :: p in B && B[p].free && p + B[p].size in B ==> !B[p + B[p].size].free
  }

  /** The memory is the word-aligned addresses between lo and the break. */
  ghost predicate Cells(lo: int, brk: int, mem: Memory) {
    forall a :: a in mem <==> lo <= a < brk && a % 4 == 0
  }

  // ---------------------------------------------------------------- free lists

  function NextIn(s: seq<int>, i: nat): int { if i + 1 < |s| then s[i + 1] else NULL }
  function PrevIn(s: seq<int>, i: nat): int
    requires i <= |s|
  { if i > 0 then s[i - 1] else NULL }
  function HeadOf(s: seq<int>): int { if |s| > 0 then s[0] else NULL }

  /** s is threaded through memory: next in the first payload word, previous in the second. */
  ghost predicate LinkAt(mem: Memory, s: seq<int>, i: nat)
    requires i < |s|
  {
    s[i] in mem && s[i] + 4 in mem && mem[s[i]] == NextIn(s, i) && mem[s[i] + 4] == PrevIn(s, i)
  }

  ghost predicate Linked(mem: Memory, s: seq<int>) {
    forall i {:trigger LinkAt(mem, s, i)} :: 0 <= i < |s| ==> LinkAt(mem, s, i)
  }

  /** The first link word of one node is never the second link word of another. */
  ghost predicate Spaced(s: seq<int>) {
    forall i, j :: 0 <= i < |s| && 0 <= j < |s| ==> s[i] != s[j] + 4
  }

  ghost predicate Apart(x: int, y: int) { x != y && x != y + 4 && y != x + 4 }

  ghost predicate ListOk(mem: Memory, head: int, s: seq<int>) {
    head == HeadOf(s) && Linked(mem, s) && Distinct(s) && Spaced(s) && NULL !in s
  }

  ghost predicate ListsOk(mem: Memory, flist: seq<int>, L: Lists) {
    && |L| == CLASSES && |flist| == CLASSES
    && (forall k :: 0 <= k < CLASSES ==> ListOk(mem, flist[k], L[k]))
    && (forall j, k, x :: 0 <= j < CLASSES && 0 <= k < CLASSES && x in L[j] && x in L[k] ==> j == k)
  }

  /** insert_in_head's stores. */
  function InsertMem(mem: Memory, head: int, node: int): Memory {
    if head == NULL then mem[node := NULL][node + 4 := NULL]
    else mem[node := head][node + 4 := NULL][head + 4 := node]
  }

  /** delete's stores, its four cases in one: bridge the neighbours that exist,
      then clear the node. */
  function DeleteMem(mem: Memory, node: int): Memory
    requires node in mem && node + 4 in mem
  {
    var next, prev := mem[node], mem[node + 4];
    var m1 := if prev == NULL then mem else mem[prev := next];
    var m2 := if next == NULL then m1 else m1[next + 4 := prev];
    m2[node := NULL][node + 4 := NULL]
  }

  /** delete's stores into the neighbours stay inside the heap. */
  predicate Bridgeable(mem: Memory, node: int)
    requires node in mem && node + 4 in mem
  {
    (mem[node + 4] == NULL || mem[node + 4] in mem) && (mem[node] == NULL || mem[node] + 4 in mem)
  }

  function RemoveAt(s: seq<int>, i: nat): seq<int>
    requires i < |s|
  { s[..i] + s[i + 1..] }

  lemma InsertLink(mem: Memory, head: int, s: seq<int>, node: int, i: nat)
    requires ListOk(mem, head, s) && i < |s|
    requires node in mem && node + 4 in mem && forall x :: x in s ==> Apart(node, x)
    ensures LinkAt(InsertMem(mem, head, node), [node] + s, i + 1)
  {
    var t := [node] + s;
    assert LinkAt(mem, s, i);
    assert t[i + 1] == s[i] && NextIn(t, i + 1) == NextIn(s, i);
    assert Apart(node, s[i]) && s[0] != s[i] + 4 && s[i] != s[0] + 4;
  }

  lemma LinkedInsert(mem: Memory, head: int, s: seq<int>, node: int)
    requires ListOk(mem, head, s)
    requires node != NULL && node in mem && node + 4 in mem && forall x :: x in s ==> Apart(node, x)
    ensures ListOk(InsertMem(mem, head, node), node, [node] + s)
  {
    var m, t := InsertMem(mem, head, node), [node] + s;
    assert LinkAt(m, t, 0) by {
      if |s| > 0 { assert Apart(node, s[0]); assert t[1] == s[0]; }
    }
    forall i | 0 <= i < |t|
      ensures LinkAt(m, t, i)
    {
      if i > 0 { InsertLink(mem, head, s, node, i - 1); }
    }
    ConsApart(s, node);
  }

  lemma ConsApart(s: seq<int>, node: int)
    requires Distinct(s) && Spaced(s) && forall x :: x in s ==> Apart(node, x)
    ensures Distinct([node] + s) && Spaced([node] + s)
  {
    var t := [node] + s;
    forall i | 0 < i < |t|
      ensures t[i] == s[i - 1] && Apart(node, t[i])
    {}
  }

  lemma DeleteLink(mem: Memory, head: int, s: seq<int>, i: nat, j: nat)
    requires ListOk(mem, head, s) && i < |s| && j + 1 < |s|
    requires LinkAt(mem, s, i)
    ensures LinkAt(DeleteMem(mem, s[i]), RemoveAt(s, i), j)
  {
    var t := RemoveAt(s, i);
    var o := if j < i then j else j + 1;
    assert LinkAt(mem, s, o);
    assert t[j] == s[o];
    assert s[o] != s[i] && s[o] != s[i] + 4 && s[i] != s[o] + 4;
    if i + 1 < |s| {
      assert s[o] != s[i + 1] + 4;
      if o != i + 1 { assert s[o] != s[i + 1]; }
    }
    if i > 0 {
      assert s[i - 1] != s[o] + 4;
      if o != i - 1 { assert s[o] != s[i - 1]; }
    }
    assert NextIn(t, j) == if o + 1 == i then NextIn(s, i) else NextIn(s, o);
    assert PrevIn(t, j) == if o == i + 1 then PrevIn(s, i) else PrevIn(s, o);
  }

  lemma LinkedDelete(mem: Memory, head: int, s: seq<int>, i: nat)
    requires ListOk(mem, head, s) && i < |s|
    requires LinkAt(mem, s, i)
    ensures ListOk(DeleteMem(mem, s[i]), if i == 0 then NextIn(s, i) else head, RemoveAt(s, i))
  {
    var m, t := DeleteMem(mem, s[i]), RemoveAt(s, i);
    forall j | 0 <= j < |t|
      ensures LinkAt(m, t, j)
    {
      DeleteLink(mem, head, s, i, j);
    }
    assert Distinct(t) && Spaced(t);
  }

  /** A list does not notice stores outside its nodes' two link words. */
  lemma LinkedFrame(mem: Memory, m: Memory, head: int, s: seq<int>)
    requires ListOk(mem, head, s)
    requires forall x :: x in s && x in mem && x + 4 in mem ==>
      x in m && x + 4 in m && m[x] == mem[x] && m[x + 4] == mem[x + 4]
    ensures ListOk(m, head, s)
  {
    forall i | 0 <= i < |s|
      ensures LinkAt(m, s, i)
    {
      assert LinkAt(mem, s, i);
      assert s[i] in s;
    }
  }

  // ---------------------------------------------------------------- the seven lists

  /** Nodes of all the lists keep their link words apart. */
  ghost predicate AllApart(L: Lists) {
    forall j, k, x, y :: 0 <= j < |L| && 0 <= k < |L| && x in L[j] && y in L[k] && x != y ==> Apart(x, y)
  }

  ghost predicate ApartFrom(node: int, L: Lists) {
    forall k, x :: 0 <= k < |L| && x in L[k] ==> Apart(node, x)
  }

  ghost predicate Listed(x: int, L: Lists) {
    exists k :: 0 <= k < |L| && x in L[k]
  }

  lemma ListsInsert(mem: Memory, flist: seq<int>, L: Lists, k: nat, node: int)
    requires ListsOk(mem, flist, L) && AllApart(L) && k < CLASSES
    requires node != NULL && node in mem && node + 4 in mem && ApartFrom(node, L)
    ensures ListsOk(InsertMem(mem, flist[k], node), flist[k := node], L[k := [node] + L[k]])
  {
    var m := InsertMem(mem, flist[k], node);
    assert ListOk(m, node, [node] + L[k]) by { LinkedInsert(mem, flist[k], L[k], node); }
    forall j | 0 <= j < CLASSES && j != k
      ensures ListOk(m, flist[j], L[j])
    {
      forall x | x in L[j] && x in mem && x + 4 in mem
        ensures x in m && x + 4 in m && m[x] == mem[x] && m[x + 4] == mem[x + 4]
      {
        assert Apart(node, x);
        if flist[k] != NULL {
          assert L[k][0] in L[k];
          assert x != L[k][0];
          assert Apart(x, L[k][0]);
        }
      }
      LinkedFrame(mem, m, flist[j], L[j]);
    }
    assert forall x :: x in [node] + L[k] <==> x == node || x in L[k];
    assert !Apart(node, node);
  }

  /** The list head after delete: it moves only when the node had no predecessor. */
  function DeleteHead(mem: Memory, head: int, node: int): int
    requires node in mem && node + 4 in mem
  {
    if mem[node + 4] == NULL then mem[node] else head
  }

  lemma ListsDelete(mem: Memory, flist: seq<int>, L: Lists, k: nat, i: nat)
    requires ListsOk(mem, flist, L) && AllApart(L) && k < CLASSES && i < |L[k]|
    ensures var node := L[k][i];
            node in mem && node + 4 in mem &&
            ListsOk(DeleteMem(mem, node), flist[k := DeleteHead(mem, flist[k], node)], L[k := RemoveAt(L[k], i)])
  {
    var s, node := L[k], L[k][i];
    assert LinkAt(mem, s, i);
    var m := DeleteMem(mem, node);
    assert DeleteHead(mem, flist[k], node) == if i == 0 then NextIn(s, i) else flist[k] by {
      if i > 0 { assert s[i - 1] in s; }
    }
    LinkedDelete(mem, flist[k], s, i);
    forall j | 0 <= j < CLASSES && j != k
      ensures ListOk(m, flist[j], L[j])
    {
      forall x | x in L[j] && x in mem && x + 4 in mem
        ensures x in m && x + 4 in m && m[x] == mem[x] && m[x + 4] == mem[x + 4]
      {
        DeleteElsewhere(mem, s, i, x);
      }
      LinkedFrame(mem, m, flist[j], L[j]);
    }
  }

  /** delete leaves both link words of an address apart from the list's nodes. */
  lemma DeleteElsewhere(mem: Memory, s: seq<int>, i: nat, x: int)
    requires i < |s| && LinkAt(mem, s, i)
    requires forall y :: y in s ==> Apart(x, y)
    requires x in mem && x + 4 in mem
    ensures var m := DeleteMem(mem, s[i]);
            x in m && x + 4 in m && m[x] == mem[x] && m[x + 4] == mem[x + 4]
  {
    assert s[i] in s;
    if i + 1 < |s| { assert s[i + 1] in s; }
    if i > 0 { assert s[i - 1] in s; }
  }

  lemma ListsFrame(mem: Memory, m: Memory, flist: seq<int>, L: Lists)
    requires ListsOk(mem, flist, L)
    requires forall k, x :: 0 <= k < |L| && x in L[k] && x in mem && x + 4 in mem ==>
      x in m && x + 4 in m && m[x] == mem[x] && m[x + 4] == mem[x + 4]
    ensures ListsOk(m, flist, L)
  {
    forall k | 0 <= k < CLASSES
      ensures ListOk(m, flist[k], L[k])
    {
      LinkedFrame(mem, m, flist[k], L[k]);
    }
  }

  // ---------------------------------------------------------------- the whole state

  /** What the allocator's memory and list heads say, between any two of its steps. */
  datatype Heap = Heap(lo: int, brk: int, mem: Memory, flist: seq<int>)

  /** Every listed node is a block that has room for its two link words. */
  ghost predicate Hosted(B: Blocks, L: Lists) {
    forall k, x :: 0 <= k < |L| && x in L[k] ==> x in B && B[x].size >= 16
  }

  /** The part of the invariant that holds after every step inside an operation. */
  ghost predicate Core(h: Heap, B: Blocks, L: Lists) {
    && Cells(h.lo, h.brk, h.mem)
    && Tiling(h.lo, h.brk, B)
    && Alignment(h.lo, h.brk, B)
    && Tagged(h.mem, B)
    && ListsOk(h.mem, h.flist, L)
    && Hosted(B, L)
  }

  ghost predicate OnList(B: Blocks, x: int, k: int) {
    x in B && B[x].free && B[x].size >= 16 && SizeClass(B[x].size - 8) == k
  }

  /** x is on exactly the list its block calls for. */
  ghost predicate Filed(B: Blocks, L: Lists, x: int) {
    forall k :: 0 <= k < |L| ==> (x in L[k] <==> OnList(B, x, k))
  }

  ghost predicate AllFiled(B: Blocks, L: Lists) {
    forall x :: Filed(B, L, x)
  }

  /** The allocator's invariant between operations. */
  ghost predicate Consistent(h: Heap, B: Blocks, L: Lists) {
    Core(h, B, L) && AllFiled(B, L) && NoAdjacentFree(B)
  }

  /** Contents of the live payloads are the same in both memories. */
  ghost predicate Kept(live: map<int, int>, mem: Memory, m: Memory) {
    forall q, a :: q in live && q <= a < q + live[q] - 8 && a in mem ==> a in m && m[a] == mem[a]
  }

  /** live names allocated blocks, with their sizes. */
  ghost predicate LiveIn(live: map<int, int>, B: Blocks) {
    forall q :: q in live ==> q in B && !B[q].free && B[q].size == live[q]
  }

  ghost predicate NoneLive(live: map<int, int>, L: Lists) {
    forall k, x :: 0 <= k < |L| && x in L[k] ==> x !in live
  }

  /** Two blocks of at least 16 bytes keep their link words apart. */
  lemma HostsApart(lo: int, brk: int, B: Blocks, x: int, y: int)
    requires Tiling(lo, brk, B) && x in B && y in B && x != y && B[x].size >= 16 && B[y].size >= 16
    ensures Apart(x, y)
  {}

  lemma HostedApart(h: Heap, B: Blocks, L: Lists)
    requires Core(h, B, L)
    ensures AllApart(L)
    ensures forall node :: node in B && B[node].size >= 16 && !Listed(node, L) ==> ApartFrom(node, L)
  {
    forall j, k, x, y | 0 <= j < |L| && 0 <= k < |L| && x in L[j] && y in L[k] && x != y
      ensures Apart(x, y)
    {
      HostsApart(h.lo, h.brk, B, x, y);
    }
    forall node, k, x | node in B && B[node].size >= 16 && !Listed(node, L) && 0 <= k < |L| && x in L[k]
      ensures Apart(node, x)
    {
      HostsApart(h.lo, h.brk, B, node, x);
    }
  }

  /** The words of a block are words of the heap. */
  lemma BlockCells(h: Heap, B: Blocks, p: int)
    requires Cells(h.lo, h.brk, h.mem) && Tiling(h.lo, h.brk, B) && Alignment(h.lo, h.brk, B) && p in B
    ensures p > 0 && p - 4 in h.mem && p + B[p].size - 8 in h.mem
    ensures B[p].size >= 16 ==> p in h.mem && p + 4 in h.mem
  {
    hide Cells, Aligned;
    assert Placed(h.lo, h.brk, B, p);
    SpanCells(h, p, B[p].size);
  }

  lemma SpanCells(h: Heap, p: int, size: int)
    requires Cells(h.lo, h.brk, h.mem) && Aligned(p) && Aligned(size)
    requires h.lo + 8 <= p && p + size <= h.brk && size >= 8
    ensures p - 4 in h.mem && p + size - 8 in h.mem
    ensures size >= 16 ==> p in h.mem && p + 4 in h.mem
  {
    AlignedWords(p, size);
    hide Aligned;
    var a, b := p - 4, p + size - 8;
    assert a in h.mem && b in h.mem;
  }

  lemma AlignedWords(p: int, size: int)
    requires Aligned(p) && Aligned(size)
    ensures (p - 4) % 4 == 0 && p % 4 == 0 && (p + 4) % 4 == 0 && (p + size - 8) % 4 == 0
  {}

  /** Link words are neither headers nor footers, whichever block they are seen from. */
  lemma LinksAreNotTags(lo: int, brk: int, B: Blocks, x: int, p: int)
    requires Tiling(lo, brk, B) && x in B && B[x].size >= 16 && p in B
    ensures x != p - 4 && x + 4 != p - 4 && x != p + B[p].size - 8 && x + 4 != p + B[p].size - 8
  {
    assert Placed(lo, brk, B, x) && Placed(lo, brk, B, p);
  }

  /** Link words lie in no payload but their own block's. */
  lemma LinksOutsidePayload(lo: int, brk: int, B: Blocks, x: int, q: int, a: int)
    requires Tiling(lo, brk, B) && x in B && B[x].size >= 16 && q in B && q != x
    requires q <= a < q + B[q].size - 8
    ensures a != x && a != x + 4
  {}

  // ---------------------------------------------------------------- list steps

  function Insert(h: Heap, k: nat, node: int): Heap
    requires k < |h.flist|
  {
    h.(mem := InsertMem(h.mem, h.flist[k], node), flist := h.flist[k := node])
  }

  function Delete(h: Heap, k: nat, node: int): Heap
    requires k < |h.flist| && node in h.mem && node + 4 in h.mem
  {
    h.(mem := DeleteMem(h.mem, node), flist := h.flist[k := DeleteHead(h.mem, h.flist[k], node)])
  }

  /** a is one of the two link words of a block with room for them that is not live. */
  ghost predicate LinkWord(B: Blocks, live: map<int, int>, a: int) {
    exists x :: x in B && B[x].size >= 16 && x !in live && (a == x || a == x + 4)
  }

  /** m differs from mem at most in such link words. */
  ghost predicate OnlyLinks(B: Blocks, live: map<int, int>, mem: Memory, m: Memory) {
    mem.Keys == m.Keys && forall a :: a in mem ==> m[a] == mem[a] || LinkWord(B, live, a)
  }

  lemma IsLinkWord(B: Blocks, live: map<int, int>, x: int)
    requires x in B && B[x].size >= 16 && x !in live
    ensures LinkWord(B, live, x) && LinkWord(B, live, x + 4)
  {}

  lemma InsertOnlyLinks(h: Heap, B: Blocks, L: Lists, k: nat, node: int, live: map<int, int>)
    requires ListsOk(h.mem, h.flist, L) && Hosted(B, L) && NoneLive(live, L) && k < CLASSES
    requires node in h.mem && node + 4 in h.mem && node in B && B[node].size >= 16 && node !in live
    ensures OnlyLinks(B, live, h.mem, Insert(h, k, node).mem)
  {
    IsLinkWord(B, live, node);
    if h.flist[k] != NULL {
      assert LinkAt(h.mem, L[k], 0);
      assert L[k][0] in L[k];
      IsLinkWord(B, live, L[k][0]);
    }
    hide LinkWord;
  }

  /** The words that delete writes. */
  lemma DeleteWrites(mem: Memory, node: int, a: int)
    requires node in mem && node + 4 in mem && Bridgeable(mem, node) && a in mem
    ensures var m := DeleteMem(mem, node);
            a in m && (m[a] == mem[a] || a == node || a == node + 4 ||
                       (mem[node + 4] != NULL && a == mem[node + 4]) ||
                       (mem[node] != NULL && a == mem[node] + 4))
    ensures DeleteMem(mem, node).Keys == mem.Keys
  {}

  lemma DeleteOnlyLinks(h: Heap, B: Blocks, L: Lists, k: nat, i: nat, live: map<int, int>)
    requires ListsOk(h.mem, h.flist, L) && Hosted(B, L) && NoneLive(live, L) && k < CLASSES && i < |L[k]|
    ensures var node := L[k][i];
            node in h.mem && node + 4 in h.mem && OnlyLinks(B, live, h.mem, Delete(h, k, node).mem)
  {
    var s, node := L[k], L[k][i];
    NodeLinks(h, B, L, k, i, live);
    if i + 1 < |s| { NodeLinks(h, B, L, k, i + 1, live); }
    if i > 0 { NodeLinks(h, B, L, k, i - 1, live); }
    hide LinkWord, ListsOk, Hosted, NoneLive, DeleteMem;
    DeleteWrites(h.mem, node, node);
    forall a | a in h.mem
      ensures DeleteMem(h.mem, node)[a] == h.mem[a] || LinkWord(B, live, a)
    {
      DeleteWrites(h.mem, node, a);
    }
  }

  lemma NodeLinks(h: Heap, B: Blocks, L: Lists, k: nat, i: nat, live: map<int, int>)
    requires ListsOk(h.mem, h.flist, L) && Hosted(B, L) && NoneLive(live, L) && k < CLASSES && i < |L[k]|
    ensures LinkAt(h.mem, L[k], i)
    ensures LinkWord(B, live, L[k][i]) && LinkWord(B, live, L[k][i] + 4)
  {
    assert LinkAt(h.mem, L[k], i);
    assert L[k][i] in L[k];
    IsLinkWord(B, live, L[k][i]);
  }

  lemma TagIsNoLink(lo: int, brk: int, B: Blocks, live: map<int, int>, p: int)
    requires Tiling(lo, brk, B) && p in B
    ensures !LinkWord(B, live, p - 4) && !LinkWord(B, live, p + B[p].size - 8)
  {
    forall x | x in B && B[x].size >= 16
      ensures x != p - 4 && x + 4 != p - 4 && x != p + B[p].size - 8 && x + 4 != p + B[p].size - 8
    {
      LinksAreNotTags(lo, brk, B, x, p);
    }
    hide Tiling;
  }

  lemma TagsSurviveLinks(lo: int, brk: int, mem: Memory, B: Blocks, live: map<int, int>, m: Memory)
    requires Tiling(lo, brk, B) && Tagged(mem, B) && OnlyLinks(B, live, mem, m)
    ensures Tagged(m, B)
  {
    hide LinkWord, Tiling;
    forall p | p in B
      ensures p - 4 in m && m[p - 4] == Tag(B[p])
      ensures p + B[p].size - 8 in m && m[p + B[p].size - 8] == Tag(B[p])
    {
      TagIsNoLink(lo, brk, B, live, p);
    }
  }

  lemma PayloadIsNoLink(lo: int, brk: int, B: Blocks, live: map<int, int>, q: int, a: int)
    requires Tiling(lo, brk, B) && LiveIn(live, B)
    requires q in live && q <= a < q + live[q] - 8
    ensures !LinkWord(B, live, a)
  {
    forall x | x in B && B[x].size >= 16 && x != q
      ensures a != x && a != x + 4
    {
      LinksOutsidePayload(lo, brk, B, x, q, a);
    }
    hide Tiling;
  }

  lemma PayloadsSurviveLinks(lo: int, brk: int, mem: Memory, B: Blocks, live: map<int, int>, m: Memory)
    requires Tiling(lo, brk, B) && OnlyLinks(B, live, mem, m) && LiveIn(live, B)
    ensures Kept(live, mem, m)
  {
    hide LinkWord, Tiling;
    forall q, a | q in live && q <= a < q + live[q] - 8 && a in mem
      ensures a in m && m[a] == mem[a]
    {
      PayloadIsNoLink(lo, brk, B, live, q, a);
    }
  }

  lemma InsertStep(h: Heap, B: Blocks, L: Lists, k: nat, node: int, live: map<int, int>)
    requires Core(h, B, L) && k < CLASSES
    requires node in B && B[node].size >= 16 && !Listed(node, L)
    requires LiveIn(live, B) && NoneLive(live, L) && node !in live
    ensures Core(Insert(h, k, node), B, L[k := [node] + L[k]])
    ensures NoneLive(live, L[k := [node] + L[k]])
    ensures Kept(live, h.mem, Insert(h, k, node).mem)
  {
    var h' := Insert(h, k, node);
    BlockCells(h, B, node);
    HostedApart(h, B, L);
    ListsInsert(h.mem, h.flist, L, k, node);
    InsertOnlyLinks(h, B, L, k, node, live);
    TagsSurviveLinks(h.lo, h.brk, h.mem, B, live, h'.mem);
    PayloadsSurviveLinks(h.lo, h.brk, h.mem, B, live, h'.mem);
    InCons(L, k, node);
    assert Cells(h'.lo, h'.brk, h'.mem);
  }

  lemma InCons(L: Lists, k: nat, node: int)
    requires k < |L|
    ensures forall j, x :: 0 <= j < |L| ==>
      (x in L[k := [node] + L[k]][j] <==> x in L[j] || (j == k && x == node))
  {
    assert forall x :: x in [node] + L[k] <==> x == node || x in L[k];
  }

  lemma InRemove(L: Lists, k: nat, i: nat)
    requires k < |L| && i < |L[k]| && Distinct(L[k])
    ensures forall j, x :: 0 <= j < |L| ==>
      (x in L[k := RemoveAt(L[k], i)][j] <==> x in L[j] && !(j == k && x == L[k][i]))
  {
    var s := L[k];
    var t := RemoveAt(s, i);
    forall x | x in s && x != s[i]
      ensures x in t
    {
      var o :| 0 <= o < |s| && s[o] == x;
      assert t[if o < i then o else o - 1] == x;
    }
    forall x | x in t
      ensures x in s && x != s[i]
    {
      var o :| 0 <= o < |t| && t[o] == x;
      assert s[if o < i then o else o + 1] == x;
    }
  }

  /** Inserting and removing change the standing of that one node only. */
  lemma ConsStays(L: Lists, node: int, x: int)
    requires !Listed(x, L) && x != node
    ensures forall k :: 0 <= k < |L| ==> !Listed(x, L[k := [node] + L[k]])
  {
    forall k | 0 <= k < |L|
      ensures !Listed(x, L[k := [node] + L[k]])
    {
      InCons(L, k, node);
    }
  }

  lemma RemoveStays(L: Lists, k: nat, i: nat, x: int)
    requires k < |L| && i < |L[k]| && !Listed(x, L)
    ensures !Listed(x, L[k := RemoveAt(L[k], i)])
  {
    var s := L[k];
    assert x !in s;
    assert forall y :: y in RemoveAt(s, i) ==> y in s;
  }

  lemma DeleteStep(h: Heap, B: Blocks, L: Lists, k: nat, i: nat, live: map<int, int>)
    requires Core(h, B, L) && k < CLASSES && i < |L[k]|
    requires LiveIn(live, B) && NoneLive(live, L)
    ensures var node := L[k][i];
            node in h.mem && node + 4 in h.mem &&
            Core(Delete(h, k, node), B, L[k := RemoveAt(L[k], i)]) &&
            NoneLive(live, L[k := RemoveAt(L[k], i)]) &&
            Kept(live, h.mem, Delete(h, k, node).mem)
  {
    var node := L[k][i];
    assert node in L[k];
    BlockCells(h, B, node);
    HostedApart(h, B, L);
    ListsDelete(h.mem, h.flist, L, k, i);
    DeleteOnlyLinks(h, B, L, k, i, live);
    var h' := Delete(h, k, node);
    TagsSurviveLinks(h.lo, h.brk, h.mem, B, live, h'.mem);
    PayloadsSurviveLinks(h.lo, h.brk, h.mem, B, live, h'.mem);
    InRemove(L, k, i);
    assert Cells(h'.lo, h'.brk, h'.mem);
  }

  // ---------------------------------------------------------------- tag steps

  /** Write a block's header and footer. */
  function PutTags(mem: Memory, p: int, b: Block): Memory {
    mem[p - 4 := Tag(b)][p + b.size - 8 := Tag(b)]
  }

  ghost predicate TaggedBut(mem: Memory, B: Blocks, pending: set<int>) {
    forall p :: p in B && p !in pending ==>
      p - 4 in mem && mem[p - 4] == Tag(B[p]) &&
      p + B[p].size - 8 in mem && mem[p + B[p].size - 8] == Tag(B[p])
  }

  lemma TagCellsApart(lo: int, brk: int, B: Blocks, p: int, q: int)
    requires Tiling(lo, brk, B) && p in B && q in B && p != q
    ensures p - 4 != q - 4 && p - 4 != q + B[q].size - 8
    ensures p + B[p].size - 8 != q - 4 && p + B[p].size - 8 != q + B[q].size - 8
  {
    assert Placed(lo, brk, B, p) && Placed(lo, brk, B, q);
  }

  /** Writing one pending block's tags disturbs no other block's. */
  lemma PutTagsStep(lo: int, brk: int, B: Blocks, mem: Memory, pending: set<int>, p: int)
    requires Tiling(lo, brk, B) && TaggedBut(mem, B, pending) && p in B
    ensures TaggedBut(PutTags(mem, p, B[p]), B, pending - {p})
  {
    var m := PutTags(mem, p, B[p]);
    forall q | q in B && q !in pending - {p}
      ensures q - 4 in m && m[q - 4] == Tag(B[q])
      ensures q + B[q].size - 8 in m && m[q + B[q].size - 8] == Tag(B[q])
    {
      if q != p { TagCellsApart(lo, brk, B, p, q); }
    }
  }

  ghost predicate TagCell(B: Blocks, a: int) {
    exists p :: p in B && (a == p - 4 || a == p + B[p].size - 8)
  }

  ghost predicate OnlyTags(B: Blocks, mem: Memory, m: Memory) {
    mem.Keys == m.Keys && forall a :: a in mem ==> m[a] == mem[a] || TagCell(B, a)
  }

  lemma PutTagsOnlyTags(B: Blocks, mem: Memory, p: int)
    requires p in B && p - 4 in mem && p + B[p].size - 8 in mem
    ensures OnlyTags(B, mem, PutTags(mem, p, B[p]))
  {}

  lemma LinksAreNoTagCells(lo: int, brk: int, B: Blocks, x: int)
    requires Tiling(lo, brk, B) && x in B && B[x].size >= 16
    ensures !TagCell(B, x) && !TagCell(B, x + 4)
  {
    forall p | p in B
      ensures x != p - 4 && x + 4 != p - 4 && x != p + B[p].size - 8 && x + 4 != p + B[p].size - 8
    {
      LinksAreNotTags(lo, brk, B, x, p);
    }
    hide Tiling;
  }

  lemma PayloadIsNoTagCell(lo: int, brk: int, B: Blocks, q: int, a: int)
    requires Tiling(lo, brk, B) && q in B && q <= a < q + B[q].size - 8
    ensures !TagCell(B, a)
  {
    forall p | p in B
      ensures a != p - 4 && a != p + B[p].size - 8
    {
      assert Placed(lo, brk, B, p);
    }
  }

  /** The invariant inside an operation, except for the tags of some blocks. */
  ghost predicate CoreBut(h: Heap, B: Blocks, L: Lists, pending: set<int>) {
    && Cells(h.lo, h.brk, h.mem)
    && Tiling(h.lo, h.brk, B)
    && Alignment(h.lo, h.brk, B)
    && TaggedBut(h.mem, B, pending)
    && ListsOk(h.mem, h.flist, L)
    && Hosted(B, L)
  }

  /** A step that rewrites tags only, into those of the blocks B, keeps the free lists
      and the live payloads. */
  lemma TagStep(h: Heap, B: Blocks, L: Lists, pending: set<int>, m: Memory, live: map<int, int>)
    requires CoreBut(h, B, L, pending) && OnlyTags(B, h.mem, m) && LiveIn(live, B)
    ensures Cells(h.lo, h.brk, m) && ListsOk(m, h.flist, L) && Kept(live, h.mem, m)
  {
    hide TagCell, Tiling, Alignment, TaggedBut;
    forall k, x | 0 <= k < |L| && x in L[k] && x in h.mem && x + 4 in h.mem
      ensures x in m && x + 4 in m && m[x] == h.mem[x] && m[x + 4] == h.mem[x + 4]
    {
      LinksAreNoTagCells(h.lo, h.brk, B, x);
    }
    ListsFrame(h.mem, m, h.flist, L);
    forall q, a | q in live && q <= a < q + live[q] - 8 && a in h.mem
      ensures a in m && m[a] == h.mem[a]
    {
      PayloadIsNoTagCell(h.lo, h.brk, B, q, a);
    }
  }

  /** Writing the tags of one pending block. */
  lemma PutTagsCore(h: Heap, B: Blocks, L: Lists, pending: set<int>, p: int, live: map<int, int>)
    requires CoreBut(h, B, L, pending) && p in B && LiveIn(live, B)
    ensures CoreBut(h.(mem := PutTags(h.mem, p, B[p])), B, L, pending - {p})
    ensures Kept(live, h.mem, PutTags(h.mem, p, B[p]))
  {
    BlockCells(h, B, p);
    PutTagsStep(h.lo, h.brk, B, h.mem, pending, p);
    PutTagsOnlyTags(B, h.mem, p);
    TagStep(h, B, L, pending, PutTags(h.mem, p, B[p]), live);
    hide PutTags, Tiling, Alignment, TaggedBut, Cells, ListsOk, OnlyTags, Kept, LiveIn, Hosted;
  }

  // ---------------------------------------------------------------- block steps

  function Retag(B: Blocks, p: int, free: bool): Blocks
    requires p in B
  { B[p := Block(B[p].size, free)] }

  /** Cut an allocated block of s1 bytes off the front of free block p. */
  function Split(B: Blocks, p: int, s1: int): Blocks
    requires p in B
  { B[p := Block(s1, false)][p + s1 := Block(B[p].size - s1, true)] }

  /** Join free block p with its right neighbour. */
  function Merge(B: Blocks, p: int): Blocks
    requires p in B && p + B[p].size in B
  {
    var n := p + B[p].size;
    (B - {n})[p := Block(B[p].size + B[n].size, true)]
  }

  lemma RetagTiling(lo: int, brk: int, B: Blocks, p: int, free: bool)
    requires Tiling(lo, brk, B) && Alignment(lo, brk, B) && p in B && B[p].size >= 16
    ensures Tiling(lo, brk, Retag(B, p, free)) && Alignment(lo, brk, Retag(B, p, free))
  {
    hide Aligned;
    var B' := Retag(B, p, free);
    forall q | q in B'
      ensures Placed(lo, brk, B', q)
    {
      assert Placed(lo, brk, B, q);
    }
  }

  lemma SplitParts(B: Blocks, p: int, s1: int)
    requires p in B && s1 > 0
    ensures var B' := Split(B, p, s1);
            p in B' && p + s1 in B' && B'[p] == Block(s1, false) && B'[p + s1] == Block(B[p].size - s1, true)
  {}

  lemma RetagParts(B: Blocks, p: int, free: bool)
    requires p in B
    ensures p in Retag(B, p, free) && Retag(B, p, free)[p] == Block(B[p].size, free)
  {}

  lemma SplitDisjoint(B: Blocks, p: int, s1: int)
    requires Disjoint(B) && p in B && 0 < s1 < B[p].size
    ensures Disjoint(Split(B, p, s1)) && p + s1 !in B
  {
    var B' := Split(B, p, s1);
    forall q, r | q in B' && r in B' && q < r
      ensures q + B'[q].size <= r
    {
      if q == p + s1 { assert p < r; }
    }
  }

  lemma SplitTiling(lo: int, brk: int, B: Blocks, p: int, s1: int)
    requires Tiling(lo, brk, B) && p in B
    requires s1 >= 16 && (B[p].size - s1 == 8 || B[p].size - s1 >= 16)
    ensures p + s1 !in B
    ensures Tiling(lo, brk, Split(B, p, s1))
  {
    var B' := Split(B, p, s1);
    SplitDisjoint(B, p, s1);
    hide Disjoint;
    forall q | q in B'
      ensures Placed(lo, brk, B', q)
    {
      assert Placed(lo, brk, B, p);
      if q in B { assert Placed(lo, brk, B, q); }
    }
  }

  lemma SplitAlignment(lo: int, brk: int, B: Blocks, p: int, s1: int)
    requires Alignment(lo, brk, B) && p in B && Aligned(s1)
    ensures Alignment(lo, brk, Split(B, p, s1))
  {
    AlignedSum(p, s1);
    AlignedSum(B[p].size, s1);
    hide Aligned;
  }

  lemma MergeDisjoint(B: Blocks, p: int)
    requires Disjoint(B) && p in B && p + B[p].size in B && B[p].size > 0
    ensures Disjoint(Merge(B, p))
  {
    var n, B' := p + B[p].size, Merge(B, p);
    forall q, r | q in B' && r in B' && q < r
      ensures q + B'[q].size <= r
    {
      if q == p { assert n < r; }
    }
  }

  lemma MergeTiling(lo: int, brk: int, B: Blocks, p: int)
    requires Tiling(lo, brk, B) && p in B && p + B[p].size in B
    ensures Tiling(lo, brk, Merge(B, p))
  {
    var n, B' := p + B[p].size, Merge(B, p);
    assert Placed(lo, brk, B, p) && Placed(lo, brk, B, n);
    MergeDisjoint(B, p);
    forall q | q in B'
      ensures Placed(lo, brk, B', q)
    {
      assert Placed(lo, brk, B, q);
    }
  }

  lemma MergeAlignment(lo: int, brk: int, B: Blocks, p: int)
    requires Alignment(lo, brk, B) && p in B && p + B[p].size in B
    ensures Alignment(lo, brk, Merge(B, p))
  {
    AlignedSum(B[p].size, B[p + B[p].size].size);
    hide Aligned;
  }

  lemma BelowBreak(lo: int, brk: int, B: Blocks)
    requires Tiling(lo, brk, B)
    ensures forall q :: q in B ==> q < brk && q + B[q].size <= brk
  {
    forall q | q in B
      ensures q < brk && q + B[q].size <= brk
    {
      assert Placed(lo, brk, B, q);
    }
  }

  /** The last block takes in ext bytes of new heap. */
  lemma GrowTiling(lo: int, brk: int, B: Blocks, p: int, ext: int)
    requires Tiling(lo, brk, B) && p in B && p + B[p].size == brk && ext >= 16
    ensures Tiling(lo, brk + ext, B[p := Block(B[p].size + ext, true)])
  {
    var B' := B[p := Block(B[p].size + ext, true)];
    BelowBreak(lo, brk, B);
    assert Disjoint(B');
    forall q | q in B'
      ensures Placed(lo, brk + ext, B', q)
    {
      assert Placed(lo, brk, B, q) && Placed(lo, brk, B, p);
    }
  }

  /** New heap becomes a block of its own. */
  lemma AppendTiling(lo: int, brk: int, B: Blocks, ext: int)
    requires Tiling(lo, brk, B) && ext >= 16
    ensures brk !in B
    ensures Tiling(lo, brk + ext, B[brk := Block(ext, true)])
  {
    var B' := B[brk := Block(ext, true)];
    BelowBreak(lo, brk, B);
    assert Disjoint(B');
    forall q | q in B'
      ensures Placed(lo, brk + ext, B', q)
    {
      if q != brk { assert Placed(lo, brk, B, q); }
    }
  }

  // ---------------------------------------------------------------- block steps on the whole state

  lemma HostedStays(B: Blocks, L: Lists, B': Blocks)
    requires Hosted(B, L)
    requires forall k, x :: 0 <= k < |L| && x in L[k] ==> x in B' && (B'[x].size >= 16 || B'[x] == B[x])
    ensures Hosted(B', L)
  {}

  lemma RetagCore(h: Heap, B: Blocks, L: Lists, p: int, free: bool, live: map<int, int>)
    requires Core(h, B, L) && p in B && B[p].size >= 16
    requires LiveIn(live, Retag(B, p, free))
    ensures Core(h.(mem := PutTags(h.mem, p, Block(B[p].size, free))), Retag(B, p, free), L)
    ensures Kept(live, h.mem, PutTags(h.mem, p, Block(B[p].size, free)))
  {
    RetagTiling(h.lo, h.brk, B, p, free);
    PutTagsCore(h, Retag(B, p, free), L, {p}, p, live);
  }

  /** allocate's stores when it cuts a block: the remainder's tags and the front's. */
  function SplitMem(mem: Memory, p: int, s1: int, s2: int): Memory {
    PutTags(PutTags(mem, p + s1, Block(s2, true)), p, Block(s1, false))
  }

  /** The order of the four stores does not matter. */
  lemma CutStores(mem: Memory, p: int, s1: int, s2: int)
    requires s1 >= 16 && s2 >= 8
    ensures SplitMem(mem, p, s1, s2) ==
      mem[p + s1 + s2 - 8 := s2][p - 4 := s1 + 1][p + s1 - 8 := s1 + 1][p + s1 - 4 := s2]
  {}

  lemma SplitCore(h: Heap, B: Blocks, L: Lists, p: int, s1: int, live: map<int, int>)
    requires Core(h, B, L) && p in B && Aligned(s1)
    requires s1 >= 16 && (B[p].size - s1 == 8 || B[p].size - s1 >= 16)
    requires LiveIn(live, Split(B, p, s1))
    ensures Core(h.(mem := SplitMem(h.mem, p, s1, B[p].size - s1)), Split(B, p, s1), L)
    ensures Kept(live, h.mem, SplitMem(h.mem, p, s1, B[p].size - s1))
  {
    var B', r := Split(B, p, s1), p + s1;
    SplitTiling(h.lo, h.brk, B, p, s1);
    SplitAlignment(h.lo, h.brk, B, p, s1);
    SplitParts(B, p, s1);
    assert CoreBut(h, B', L, {p, r});
    hide *;
    PutTagsCore(h, B', L, {p, r}, r, live);
    var h1 := h.(mem := PutTags(h.mem, r, B'[r]));
    PutTagsCore(h1, B', L, {p, r} - {r}, p, live);
    assert {p, r} - {r} - {p} == {};
    SplitMemParts(h.mem, p, s1, B[p].size - s1);
    KeptTwice(live, h.mem, h1.mem, SplitMem(h.mem, p, s1, B[p].size - s1));
    CoreButNone(h.(mem := SplitMem(h.mem, p, s1, B[p].size - s1)), B', L);
  }

  lemma SplitMemParts(mem: Memory, p: int, s1: int, s2: int)
    ensures SplitMem(mem, p, s1, s2) == PutTags(PutTags(mem, p + s1, Block(s2, true)), p, Block(s1, false))
  {}

  lemma CoreButNone(h: Heap, B: Blocks, L: Lists)
    requires CoreBut(h, B, L, {})
    ensures Core(h, B, L)
  {}

  /** The four words that cutting a block writes. */
  lemma SplitCells(h: Heap, B: Blocks, L: Lists, p: int, s1: int)
    requires Core(h, B, L) && p in B && Aligned(s1)
    requires s1 >= 16 && (B[p].size - s1 == 8 || B[p].size - s1 >= 16)
    ensures p - 4 in h.mem && p + s1 - 8 in h.mem && p + s1 - 4 in h.mem && p + B[p].size - 8 in h.mem
  {
    var B' := Split(B, p, s1);
    SplitTiling(h.lo, h.brk, B, p, s1);
    SplitAlignment(h.lo, h.brk, B, p, s1);
    BlockCells(h, B', p);
    BlockCells(h, B', p + s1);
  }

  lemma KeptTwice(live: map<int, int>, m0: Memory, m1: Memory, m2: Memory)
    requires Kept(live, m0, m1) && Kept(live, m1, m2)
    ensures Kept(live, m0, m2)
  {}

  lemma MergeCore(h: Heap, B: Blocks, L: Lists, p: int, live: map<int, int>)
    requires Core(h, B, L) && p in B && p + B[p].size in B
    requires !Listed(p + B[p].size, L)
    requires LiveIn(live, Merge(B, p))
    ensures var m := PutTags(h.mem, p, Merge(B, p)[p]);
            Core(h.(mem := m), Merge(B, p), L) && Kept(live, h.mem, m)
  {
    MergeTiling(h.lo, h.brk, B, p);
    MergeAlignment(h.lo, h.brk, B, p);
    assert Placed(h.lo, h.brk, B, p) && Placed(h.lo, h.brk, B, p + B[p].size);
    HostedStays(B, L, Merge(B, p));
    PutTagsCore(h, Merge(B, p), L, {p}, p, live);
  }

  /** h' is h with ext more bytes of arbitrary contents at the top. */
  ghost predicate Extended(h: Heap, h': Heap, ext: int) {
    h'.lo == h.lo && h'.brk == h.brk + ext && h'.flist == h.flist && ext >= 0 &&
    Cells(h'.lo, h'.brk, h'.mem) && forall a :: a in h.mem ==> a in h'.mem && h'.mem[a] == h.mem[a]
  }

  /** New heap, once it is tagged as part of block p, completes the state again. */
  lemma ExtendCore(h: Heap, B: Blocks, L: Lists, h1: Heap, ext: int, B': Blocks, p: int, live: map<int, int>)
    requires Core(h, B, L) && Extended(h, h1, ext)
    requires p in B' && B'.Keys == B.Keys + {p} && (forall q :: q in B && q != p ==> B'[q] == B[q])
    requires Tiling(h1.lo, h1.brk, B') && Alignment(h1.lo, h1.brk, B') && B'[p].size >= 16
    requires LiveIn(live, B')
    ensures var m := PutTags(h1.mem, p, B'[p]);
            Core(h1.(mem := m), B', L) && Kept(live, h.mem, m)
  {
    assert TaggedBut(h1.mem, B', {p});
    HostedStays(B, L, B');
    ListsFrame(h.mem, h1.mem, h.flist, L);
    assert CoreBut(h1, B', L, {p});
    PutTagsCore(h1, B', L, {p}, p, live);
    hide Tiling, Alignment, Tagged, Cells, ListsOk, Hosted;
  }

  // ---------------------------------------------------------------- reading the state

  /** What the words around a block say. */
  lemma ReadBlock(h: Heap, B: Blocks, L: Lists, p: int)
    requires Core(h, B, L) && p in B
    ensures p - 4 in h.mem && SizeOf(h.mem[p - 4]) == B[p].size
    ensures AllocOf(h.mem[p - 4]) == if B[p].free then 0 else 1
    ensures p + B[p].size - 8 in h.mem && h.mem[p + B[p].size - 8] == h.mem[p - 4]
    ensures B[p].size >= 16 ==> p in h.mem && p + 4 in h.mem
  {
    BlockCells(h, B, p);
    AlignedTag(B[p]);
    hide *;
  }

  lemma AlignedTag(b: Block)
    requires Aligned(b.size)
    ensures SizeOf(Tag(b)) == b.size
    ensures AllocOf(Tag(b)) == if b.free then 0 else 1
  {
    TagParts(b);
  }

  /** What the link words of the i-th node of list k say. */
  lemma ReadNode(h: Heap, B: Blocks, L: Lists, k: nat, i: nat)
    requires Core(h, B, L) && k < CLASSES && i < |L[k]|
    ensures var x := L[k][i];
            x in B && B[x].size >= 16 && x != NULL && x in h.mem && x + 4 in h.mem &&
            h.mem[x] == NextIn(L[k], i) && h.mem[x + 4] == PrevIn(L[k], i)
  {
    assert LinkAt(h.mem, L[k], i);
    assert L[k][i] in L[k];
    BlockCells(h, B, L[k][i]);
  }

  /** Deleting a listed node never stores outside the heap. */
  lemma NodeBridgeable(h: Heap, B: Blocks, L: Lists, k: nat, i: nat)
    requires Core(h, B, L) && k < CLASSES && i < |L[k]|
    ensures |h.flist| == CLASSES && h.flist[k] != NULL
    ensures L[k][i] in h.mem && L[k][i] + 4 in h.mem && Bridgeable(h.mem, L[k][i])
  {
    ReadNode(h, B, L, k, i);
    ReadNode(h, B, L, k, 0);
    if i + 1 < |L[k]| { ReadNode(h, B, L, k, i + 1); }
    if i > 0 { ReadNode(h, B, L, k, i - 1); }
  }

  lemma HeadInMemory(h: Heap, B: Blocks, L: Lists, k: nat)
    requires Core(h, B, L) && k < CLASSES
    ensures |h.flist| == CLASSES && |L| == CLASSES && h.flist[k] == HeadOf(L[k])
    ensures h.flist[k] != NULL ==> h.flist[k] + 4 in h.mem
  {
    if |L[k]| > 0 { ReadNode(h, B, L, k, 0); }
  }

  /** The first node of s whose block has room for size payload bytes. */
  ghost function FirstFit(B: Blocks, s: seq<int>, size: int): (r: int)
    requires InBlocks(B, s)
    ensures r != NULL ==> r in s && B[r].size >= size + 8
    ensures r == NULL ==> forall x :: x in s ==> B[x].size < size + 8
  {
    if |s| == 0 then NULL
    else if B[s[0]].size >= size + 8 then s[0]
    else FirstFit(B, s[1..], size)
  }

  ghost predicate InBlocks(B: Blocks, s: seq<int>) {
    forall i :: 0 <= i < |s| ==> s[i] in B && s[i] != NULL
  }

  lemma ListInBlocks(h: Heap, B: Blocks, L: Lists, k: nat)
    requires Core(h, B, L) && k < CLASSES
    ensures InBlocks(B, L[k])
  {
    forall i | 0 <= i < |L[k]|
      ensures L[k][i] in B && L[k][i] != NULL
    {
      ReadNode(h, B, L, k, i);
    }
  }

  /** Block x, if it is one, has no room for size payload bytes. */
  ghost predicate TooSmall(B: Blocks, x: int, size: int) { x in B ==> B[x].size < size + 8 }

  /** Node i of list k: no node before it has room, in its list or in one from the request's
      class on. */
  ghost predicate FirstAt(B: Blocks, L: Lists, size: int, k: nat, i: nat) {
    k < |L| && i < |L[k]| && SizeClass(size) <= k && (forall m :: 0 <= m < i ==> TooSmall(B, L[k][m], size)) &&
    forall j, x :: SizeClass(size) <= j < k && x in L[j] ==> TooSmall(B, x, size)
  }

  /** r is the first block with room for size payload bytes. */
  ghost predicate FirstFitting(B: Blocks, L: Lists, size: int, r: int) {
    exists k: nat, i: nat :: FirstAt(B, L, size, k, i) && L[k][i] == r
  }

  lemma {:induction false} FirstFitAt(B: Blocks, s: seq<int>, size: int) returns (i: nat)
    requires InBlocks(B, s) && FirstFit(B, s, size) != NULL
    ensures i < |s| && s[i] == FirstFit(B, s, size) && forall m :: 0 <= m < i ==> TooSmall(B, s[m], size)
  {
    if B[s[0]].size >= size + 8 {
      i := 0;
    } else {
      var j := FirstFitAt(B, s[1..], size);
      i := j + 1;
      forall m | 0 <= m < i
        ensures TooSmall(B, s[m], size)
      {
        if m > 0 { assert s[m] == s[1..][m - 1]; }
      }
    }
  }

  lemma FoundFirst(B: Blocks, L: Lists, size: int, k: nat)
    requires k < |L| && InBlocks(B, L[k]) && FirstFit(B, L[k], size) != NULL && SizeClass(size) <= k
    requires forall j, x :: SizeClass(size) <= j < k && x in L[j] && x in B ==> B[x].size < size + 8
    ensures FirstFitting(B, L, size, FirstFit(B, L[k], size))
  {
    hide SizeClass;
    var i := FirstFitAt(B, L[k], size);
    assert FirstAt(B, L, size, k, i);
  }

  lemma FirstFitHere(B: Blocks, s: seq<int>, i: nat, size: int)
    requires InBlocks(B, s) && i < |s| && B[s[i]].size >= size + 8
    ensures InBlocks(B, s[i..]) && FirstFit(B, s[i..], size) == s[i]
  {}

  lemma FirstFitNone(B: Blocks, s: seq<int>, size: int)
    requires InBlocks(B, s)
    ensures InBlocks(B, s[|s|..]) && FirstFit(B, s[|s|..], size) == NULL && s[0..] == s
  {}

  lemma NextInMeaning(B: Blocks, s: seq<int>, i: nat)
    requires InBlocks(B, s) && i < |s|
    ensures NextIn(s, i) == NULL <==> i + 1 == |s|
    ensures i + 1 < |s| ==> NextIn(s, i) == s[i + 1]
  {}

  lemma HeadOfMeaning(B: Blocks, s: seq<int>)
    requires InBlocks(B, s)
    ensures HeadOf(s) == NULL <==> |s| == 0
    ensures |s| > 0 ==> HeadOf(s) == s[0]
  {}

  lemma FirstFitStep(B: Blocks, s: seq<int>, i: nat, size: int)
    requires InBlocks(B, s) && i < |s| && B[s[i]].size < size + 8
    ensures InBlocks(B, s[i..]) && InBlocks(B, s[i + 1..])
    ensures FirstFit(B, s[i..], size) == FirstFit(B, s[i + 1..], size)
  {
    assert s[i..][1..] == s[i + 1..];
  }

  // ---------------------------------------------------------------- filing

  /** Every block outside pending is on exactly the list it belongs to. */
  ghost predicate FiledBut(B: Blocks, L: Lists, pending: set<int>) {
    forall x :: x !in pending ==> Filed(B, L, x)
  }

  lemma FiledInsert(B: Blocks, L: Lists, pending: set<int>, k: nat, node: int)
    requires FiledBut(B, L, pending) && k < |L| && OnList(B, node, k) && !Listed(node, L)
    ensures FiledBut(B, L[k := [node] + L[k]], pending - {node})
  {
    var L' := L[k := [node] + L[k]];
    InCons(L, k, node);
    forall x | x !in pending - {node}
      ensures Filed(B, L', x)
    {
      if x != node { assert Filed(B, L, x); }
    }
  }

  lemma FiledDelete(mem: Memory, flist: seq<int>, B: Blocks, L: Lists, pending: set<int>, k: nat, i: nat)
    requires ListsOk(mem, flist, L) && FiledBut(B, L, pending) && k < CLASSES && i < |L[k]|
    ensures FiledBut(B, L[k := RemoveAt(L[k], i)], pending + {L[k][i]})
    ensures !Listed(L[k][i], L[k := RemoveAt(L[k], i)])
  {
    var node, L' := L[k][i], L[k := RemoveAt(L[k], i)];
    InRemove(L, k, i);
    assert node in L[k];
    forall x | x !in pending + {node}
      ensures Filed(B, L', x)
    {
      assert Filed(B, L, x);
    }
  }

  /** Changing blocks leaves the filing of the blocks that stay as they are. */
  lemma FiledBlocks(B: Blocks, B': Blocks, L: Lists, pending: set<int>, changed: set<int>)
    requires FiledBut(B, L, pending)
    requires forall x :: x !in changed ==> (x in B <==> x in B') && (x in B ==> B'[x] == B[x])
    ensures FiledBut(B', L, pending + changed)
  {
    forall x | x !in pending + changed
      ensures Filed(B', L, x)
    {
      assert Filed(B, L, x);
    }
  }

  /** A pending block that belongs on no list and is on none is filed. */
  lemma FiledNowhere(B: Blocks, L: Lists, pending: set<int>, x: int)
    requires FiledBut(B, L, pending) && !Listed(x, L)
    requires x !in B || !B[x].free || B[x].size < 16
    ensures FiledBut(B, L, pending - {x})
  {
    forall y | y !in pending - {x}
      ensures Filed(B, L, y)
    {
      if y != x { assert Filed(B, L, y); }
    }
  }

  lemma NotListed(B: Blocks, L: Lists, pending: set<int>, x: int)
    requires FiledBut(B, L, pending) && x !in pending
    requires x !in B || !B[x].free || B[x].size < 16
    ensures !Listed(x, L)
  {
    assert Filed(B, L, x);
  }

  lemma IsListed(B: Blocks, L: Lists, pending: set<int>, x: int) returns (i: nat)
    requires FiledBut(B, L, pending) && x !in pending && |L| == CLASSES
    requires x in B && B[x].free && B[x].size >= 16
    ensures var k := SizeClass(B[x].size - 8); i < |L[k]| && L[k][i] == x
  {
    assert Filed(B, L, x);
    var k := SizeClass(B[x].size - 8);
    assert OnList(B, x, k);
    i :| i < |L[k]| && L[k][i] == x;
  }

  // ---------------------------------------------------------------- between two steps

  /** Between two steps of an operation: the blocks in pending may be on the wrong
      list, and the payloads of live are as they were in m0. */
  ghost predicate Amid(h: Heap, B: Blocks, L: Lists, pending: set<int>, live: map<int, int>, m0: Memory) {
    Core(h, B, L) && FiledBut(B, L, pending) &&
    LiveIn(live, B) && NoneLive(live, L) && Kept(live, m0, h.mem)
  }

  lemma AmidUnlink(h: Heap, B: Blocks, L: Lists, pending: set<int>, live: map<int, int>, m0: Memory, k: nat, i: nat)
    requires Amid(h, B, L, pending, live, m0) && k < CLASSES && i < |L[k]|
    ensures var node, L' := L[k][i], L[k := RemoveAt(L[k], i)];
            |h.flist| == CLASSES && h.flist[k] != NULL &&
            node in h.mem && node + 4 in h.mem && Bridgeable(h.mem, node) &&
            Amid(Delete(h, k, node), B, L', pending + {node}, live, m0) && !Listed(node, L')
  {
    NodeBridgeable(h, B, L, k, i);
    DeleteStep(h, B, L, k, i, live);
    FiledDelete(h.mem, h.flist, B, L, pending, k, i);
    hide Core, FiledBut, LiveIn, NoneLive, Delete, Listed;
  }

  lemma AmidLink(h: Heap, B: Blocks, L: Lists, pending: set<int>, live: map<int, int>, m0: Memory, k: nat, node: int)
    requires Amid(h, B, L, pending, live, m0) && k < CLASSES && OnList(B, node, k) && !Listed(node, L)
    ensures |h.flist| == CLASSES && node in h.mem && node + 4 in h.mem
    ensures h.flist[k] != NULL ==> h.flist[k] + 4 in h.mem
    ensures Amid(Insert(h, k, node), B, L[k := [node] + L[k]], pending - {node}, live, m0)
  {
    BlockCells(h, B, node);
    HeadInMemory(h, B, L, k);
    InsertStep(h, B, L, k, node, live);
    FiledInsert(B, L, pending, k, node);
    hide Core, FiledBut, LiveIn, NoneLive, Insert;
  }

  lemma AmidRetag(h: Heap, B: Blocks, L: Lists, pending: set<int>, live: map<int, int>, m0: Memory, p: int, free: bool)
    requires Amid(h, B, L, pending, live, m0) && p in B && B[p].size >= 16 && p !in live
    ensures p - 4 in h.mem && p + B[p].size - 8 in h.mem
    ensures Amid(h.(mem := PutTags(h.mem, p, Block(B[p].size, free))), Retag(B, p, free), L, pending + {p}, live, m0)
  {
    BlockCells(h, B, p);
    RetagCore(h, B, L, p, free, live);
    FiledBlocks(B, Retag(B, p, free), L, pending, {p});
  }

  lemma AmidSplit(h: Heap, B: Blocks, L: Lists, live: map<int, int>, m0: Memory, p: int, s1: int)
    requires Amid(h, B, L, {}, live, m0) && p in B && B[p].free && Aligned(s1)
    requires s1 >= 16 && (B[p].size - s1 == 8 || B[p].size - s1 >= 16)
    ensures p - 4 in h.mem && p + s1 - 8 in h.mem && p + s1 - 4 in h.mem && p + B[p].size - 8 in h.mem
    ensures p + s1 !in live && !Listed(p + s1, L)
    ensures Amid(h.(mem := SplitMem(h.mem, p, s1, B[p].size - s1)), Split(B, p, s1), L, {p, p + s1}, live, m0)
  {
    SplitCells(h, B, L, p, s1);
    SplitTiling(h.lo, h.brk, B, p, s1);
    SplitCore(h, B, L, p, s1, live);
    NotListed(B, L, {}, p + s1);
    FiledBlocks(B, Split(B, p, s1), L, {}, {p, p + s1});
    assert {} + {p, p + s1} == {p, p + s1};
    hide Core, FiledBut, SplitMem, NoneLive, Listed;
  }

  lemma AmidMerge(h: Heap, B: Blocks, L: Lists, pending: set<int>, live: map<int, int>, m0: Memory, p: int)
    requires Amid(h, B, L, pending, live, m0) && p in B && p + B[p].size in B
    requires p !in live && p + B[p].size !in live && !Listed(p + B[p].size, L)
    ensures var b := Merge(B, p)[p];
            p - 4 in h.mem && p + b.size - 8 in h.mem &&
            Amid(h.(mem := PutTags(h.mem, p, b)), Merge(B, p), L, (pending + {p}) - {p + B[p].size}, live, m0)
  {
    var n := p + B[p].size;
    BlockCells(h, B, p);
    BlockCells(h, B, n);
    MergeCore(h, B, L, p, live);
    FiledBlocks(B, Merge(B, p), L, pending, {p, n});
    assert Placed(h.lo, h.brk, B, p);
    FiledNowhere(Merge(B, p), L, pending + {p, n}, n);
    assert (pending + {p, n}) - {n} == (pending + {p}) - {n};
    hide Core, FiledBut, PutTags, Listed, Filed;
  }

  lemma AmidExtend(h: Heap, B: Blocks, L: Lists, pending: set<int>, live: map<int, int>, m0: Memory,
                   h1: Heap, ext: int, B': Blocks, p: int)
    requires Amid(h, B, L, pending, live, m0) && Extended(h, h1, ext) && p !in live
    requires p in B' && B'.Keys == B.Keys + {p} && (forall q :: q in B && q != p ==> B'[q] == B[q])
    requires Tiling(h1.lo, h1.brk, B') && Alignment(h1.lo, h1.brk, B') && B'[p].size >= 16
    ensures p - 4 in h1.mem && p + B'[p].size - 8 in h1.mem
    ensures Amid(h1.(mem := PutTags(h1.mem, p, B'[p])), B', L, pending + {p}, live, m0)
  {
    BlockCells(h1, B', p);
    ExtendCore(h, B, L, h1, ext, B', p, live);
    FiledBlocks(B, B', L, pending, {p});
    hide Core, FiledBut, PutTags;
  }

  lemma AmidNowhere(h: Heap, B: Blocks, L: Lists, pending: set<int>, live: map<int, int>, m0: Memory, x: int)
    requires Amid(h, B, L, pending, live, m0) && !Listed(x, L)
    requires x !in B || !B[x].free || B[x].size < 16
    ensures Amid(h, B, L, pending - {x}, live, m0)
  {
    FiledNowhere(B, L, pending, x);
  }

  lemma AmidRead(h: Heap, B: Blocks, L: Lists, pending: set<int>, live: map<int, int>, m0: Memory, p: int)
    requires Amid(h, B, L, pending, live, m0) && p in B
    ensures p - 4 in h.mem && SizeOf(h.mem[p - 4]) == B[p].size
    ensures AllocOf(h.mem[p - 4]) == if B[p].free then 0 else 1
    ensures p + B[p].size - 8 in h.mem && h.mem[p + B[p].size - 8] == h.mem[p - 4]
    ensures B[p].size >= 16 ==> p in h.mem && p + 4 in h.mem
  {
    ReadBlock(h, B, L, p);
  }

  // ---------------------------------------------------------------- whole operations on blocks

  /** The live blocks with their sizes: what the allocator's clients know. */
  function Live(B: Blocks): map<int, int> {
    map q | q in B && !B[q].free :: B[q].size
  }

  /** The blocks after allocating s1 bytes at free block p. */
  function Take(B: Blocks, p: int, s1: int): Blocks
    requires p in B
  {
    if B[p].size == s1 then Retag(B, p, false) else Split(B, p, s1)
  }

  lemma TakeCases(B: Blocks, p: int, s1: int)
    requires p in B
    ensures B[p].size == s1 ==> Take(B, p, s1) == Retag(B, p, false)
    ensures B[p].size != s1 ==> Take(B, p, s1) == Split(B, p, s1)
  {}

  /** What is left of a block beyond a request is a whole number of double words. */
  lemma AlignedRest(lo: int, brk: int, B: Blocks, p: int, size: int)
    requires Alignment(lo, brk, B) && p in B && Aligned(size) && B[p].size >= size + 8
    ensures B[p].size == size + 8 || B[p].size == size + 16 || B[p].size >= size + 24
  {}

  lemma TakeLive(B: Blocks, p: int, s1: int)
    requires Disjoint(B) && p in B && B[p].free && 0 < s1 <= B[p].size
    ensures Live(Take(B, p, s1)) == Live(B)[p := s1]
  {
    if s1 < B[p].size { SplitDisjoint(B, p, s1); }
  }

  lemma TakeSeparates(lo: int, brk: int, B: Blocks, p: int, s1: int)
    requires Tiling(lo, brk, B) && NoAdjacentFree(B) && p in B && B[p].free && 0 < s1 <= B[p].size
    ensures NoAdjacentFree(Take(B, p, s1))
  {
    var B' := Take(B, p, s1);
    if s1 < B[p].size { SplitDisjoint(B, p, s1); }
    forall q | q in B' && B'[q].free && q + B'[q].size in B'
      ensures !B'[q + B'[q].size].free
    {
      if q != p + s1 || s1 == B[p].size {
        assert Placed(lo, brk, B, q);
      }
    }
  }

  /** Distinct live payloads do not overlap, lie inside the heap, and are 8-aligned. */
  lemma LivePayloadsDisjoint(h: Heap, B: Blocks, L: Lists, p: int, q: int)
    requires Consistent(h, B, L) && p in Live(B) && q in Live(B) && p < q
    ensures p % 8 == 0 && h.lo + 8 <= p && p + Live(B)[p] - 8 <= q && q + Live(B)[q] - 8 <= h.brk - 8
  {
    assert Placed(h.lo, h.brk, B, p) && Placed(h.lo, h.brk, B, q);
  }

  // ---------------------------------------------------------------- fitting and growing

  ghost predicate NoneFits(B: Blocks, size: int) {
    forall x :: x in B && B[x].free ==> B[x].size < size + 8
  }

  /** A block with room for size bytes is on a list from size's class upward. */
  lemma FreeBlockPlace(h: Heap, B: Blocks, L: Lists, live: map<int, int>, m0: Memory, size: int, x: int)
    requires Amid(h, B, L, {}, live, m0) && Aligned(size) && size >= 8
    requires x in B && B[x].free && B[x].size >= 16
    ensures |L| == CLASSES && x in L[SizeClass(B[x].size - 8)]
    ensures B[x].size >= size + 8 ==> SizeClass(size) <= SizeClass(B[x].size - 8)
  {
    var i := IsListed(B, L, {}, x);
    if B[x].size >= size + 8 {
      AlignedClasses(size, B[x].size);
    }
  }

  /** When no list from the request's class upward has a fit, no free block fits. */
  lemma NoneFitsAnywhere(h: Heap, B: Blocks, L: Lists, live: map<int, int>, m0: Memory, size: int)
    requires Amid(h, B, L, {}, live, m0) && Aligned(size) && size >= 8 && |L| == CLASSES
    requires forall k, x :: SizeClass(size) <= k < CLASSES && x in L[k] && x in B ==> B[x].size < size + 8
    ensures NoneFits(B, size)
  {
    forall x | x in B && B[x].free
      ensures B[x].size < size + 8
    {
      if B[x].size >= 16 { FreeBlockPlace(h, B, L, live, m0, size, x); }
    }
  }

  lemma AlignedClasses(size: int, total: int)
    requires Aligned(size) && Aligned(total) && total >= size + 8
    ensures SizeClass(size) <= SizeClass(total - 8)
  {
    SizeClassMonotone(size, total - 8);
  }

  /** Everything a free listed block needs to be allocated from. */
  lemma ListedIsFree(h: Heap, B: Blocks, L: Lists, live: map<int, int>, m0: Memory, k: nat, x: int)
    requires Amid(h, B, L, {}, live, m0) && k < CLASSES && x in L[k]
    ensures x in B && B[x].free
  {
    assert Filed(B, L, x);
  }

  /** The footer of the last block is the word eight bytes below the break. */
  lemma ReadLast(h: Heap, B: Blocks, L: Lists, live: map<int, int>, m0: Memory) returns (q: int)
    requires Amid(h, B, L, {}, live, m0)
    ensures q in B && q + B[q].size == h.brk && (B[q].free ==> q !in live)
    ensures h.brk - 8 in h.mem && SizeOf(h.mem[h.brk - 8]) == B[q].size
    ensures AllocOf(h.mem[h.brk - 8]) == if B[q].free then 0 else 1
    ensures B[q].size == 8 || B[q].size >= 16
  {
    q := LastBlock(h.lo, h.brk, B);
    ReadBlock(h, B, L, q);
    assert Placed(h.lo, h.brk, B, q);
  }

  /** The free bytes at the top of the heap. */
  function TopFree(h: Heap): int {
    if h.brk - 8 in h.mem && AllocOf(h.mem[h.brk - 8]) == 0 then SizeOf(h.mem[h.brk - 8]) else 0
  }

  /** Growth comes in chunks. */
  function Chunks(need: int): (n: int)
    ensures need <= n
    ensures n >= 0 && n % 4096 == 0
    ensures need > 0 ==> n < need + 4096
  {
    if need <= 0 then 0 else 4096 + Chunks(need - 4096)
  }

  /** The blocks once ext new bytes belong to the block that ends at the old break,
      or to a block of their own. */
  function GrowLast(B: Blocks, q: int, ext: int): Blocks
    requires q in B
  { B[q := Block(B[q].size + ext, true)] }

  function AppendNew(B: Blocks, brk: int, ext: int): Blocks { B[brk := Block(ext, true)] }

  lemma AmidParts(h: Heap, B: Blocks, L: Lists, pending: set<int>, live: map<int, int>, m0: Memory)
    requires Amid(h, B, L, pending, live, m0)
    ensures Tiling(h.lo, h.brk, B) && Alignment(h.lo, h.brk, B) && LiveIn(live, B) && FiledBut(B, L, pending)
    ensures |L| == CLASSES && |h.flist| == CLASSES
  {}

  lemma GrowAlignment(lo: int, brk: int, B: Blocks, q: int, ext: int)
    requires Alignment(lo, brk, B) && q in B && Aligned(ext)
    ensures Alignment(lo, brk + ext, GrowLast(B, q, ext))
  {
    AlignedSum(B[q].size, ext);
    AlignedSum(brk, ext);
    hide Aligned;
  }

  lemma AmidGrow(h: Heap, B: Blocks, L: Lists, pending: set<int>, live: map<int, int>, m0: Memory,
                 h1: Heap, ext: int, q: int)
    requires Amid(h, B, L, pending, live, m0) && Extended(h, h1, ext) && ext >= 16 && Aligned(ext)
    requires q in B && q + B[q].size == h.brk && B[q].free && q !in live && B[q].size >= 8
    ensures q - 4 in h1.mem && h1.brk - 8 in h1.mem
    ensures Amid(h1.(mem := PutTags(h1.mem, q, Block(B[q].size + ext, true))), GrowLast(B, q, ext), L, pending + {q},
            live, m0)
  {
    var B' := GrowLast(B, q, ext);
    assert h1.lo == h.lo && h1.brk == h.brk + ext;
    AmidParts(h, B, L, pending, live, m0);
    hide Amid, Extended, Tiling, Alignment, LiveIn, FiledBut, PutTags, Aligned;
    GrowTiling(h.lo, h.brk, B, q, ext);
    GrowAlignment(h.lo, h.brk, B, q, ext);
    AmidExtend(h, B, L, pending, live, m0, h1, ext, B', q);
  }

  lemma GrowSeparates(lo: int, brk: int, B: Blocks, q: int, ext: int)
    requires Tiling(lo, brk, B) && NoAdjacentFree(B) && q in B && q + B[q].size == brk && B[q].free && ext > 0
    ensures NoAdjacentFree(GrowLast(B, q, ext)) && Live(GrowLast(B, q, ext)) == Live(B)
  {
    BelowBreak(lo, brk, B);
  }

  lemma AppendAlignment(lo: int, brk: int, B: Blocks, ext: int)
    requires Alignment(lo, brk, B) && Aligned(ext)
    ensures Alignment(lo, brk + ext, AppendNew(B, brk, ext))
  {
    AlignedSum(brk, ext);
    hide Aligned;
  }

  lemma AmidAppend(h: Heap, B: Blocks, L: Lists, live: map<int, int>, m0: Memory, h1: Heap, ext: int)
    requires Amid(h, B, L, {}, live, m0) && Extended(h, h1, ext) && ext >= 16 && Aligned(ext)
    ensures h.brk - 4 in h1.mem && h1.brk - 8 in h1.mem && !Listed(h.brk, L)
    ensures Amid(h1.(mem := PutTags(h1.mem, h.brk, Block(ext, true))), AppendNew(B, h.brk, ext), L, {h.brk}, live, m0)
  {
    var B' := AppendNew(B, h.brk, ext);
    assert h1.lo == h.lo && h1.brk == h.brk + ext;
    AmidParts(h, B, L, {}, live, m0);
    AppendTiling(h.lo, h.brk, B, ext);
    NotListed(B, L, {}, h.brk);
    assert h.brk !in live;
    assert {} + {h.brk} == {h.brk};
    hide Amid, Extended, Tiling, Alignment, LiveIn, FiledBut, PutTags, Aligned, Listed;
    AppendAlignment(h.lo, h.brk, B, ext);
    AmidExtend(h, B, L, {}, live, m0, h1, ext, B', h.brk);
  }

  lemma AppendSeparates(lo: int, brk: int, B: Blocks, q: int, ext: int)
    requires Tiling(lo, brk, B) && NoAdjacentFree(B) && q in B && q + B[q].size == brk && !B[q].free && ext > 0
    ensures NoAdjacentFree(AppendNew(B, brk, ext)) && Live(AppendNew(B, brk, ext)) == Live(B)
  {
    BelowBreak(lo, brk, B);
    forall p | p in B && p + B[p].size == brk
      ensures p == q
    {
      assert Placed(lo, brk, B, p) && Placed(lo, brk, B, q);
    }
  }

  lemma GrowParts(B: Blocks, q: int, ext: int)
    requires q in B
    ensures q in GrowLast(B, q, ext) && GrowLast(B, q, ext)[q] == Block(B[q].size + ext, true)
  {}

  lemma AppendParts(B: Blocks, brk: int, ext: int)
    ensures brk in AppendNew(B, brk, ext) && AppendNew(B, brk, ext)[brk] == Block(ext, true)
  {}

  /** A grown block belongs to one of the three upper lists. */
  lemma GrownClass(B: Blocks, x: int)
    requires x in B && B[x].free && B[x].size >= 4096
    ensures 4 <= SizeClass(B[x].size - 8) < CLASSES && OnList(B, x, SizeClass(B[x].size - 8))
  {}

  lemma FitBound(B: Blocks, x: int, size: int)
    requires NoneFits(B, size) && x in B
    ensures B[x].free ==> B[x].size < size + 8
  {}

  lemma SomeFits(B: Blocks, x: int, size: int)
    requires x in B && B[x].free && B[x].size >= size + 8
    ensures !NoneFits(B, size)
  {}

  lemma ExtendedBreak(h: Heap, h1: Heap, ext: int)
    requires Extended(h, h1, ext)
    ensures h1.brk == h.brk + ext
  {}

  lemma ChunkAligned(n: int)
    requires n % 8 == 0
    ensures Aligned(n)
  {}

  lemma Begin(h: Heap, B: Blocks, L: Lists)
    requires Consistent(h, B, L)
    ensures Amid(h, B, L, {}, Live(B), h.mem) && NoAdjacentFree(B)
  {
    forall k, x | 0 <= k < |L| && x in L[k]
      ensures x !in Live(B)
    {
      assert Filed(B, L, x);
    }
  }

  lemma Finish(h: Heap, B: Blocks, L: Lists, live: map<int, int>, m0: Memory)
    requires Amid(h, B, L, {}, live, m0) && NoAdjacentFree(B)
    ensures Consistent(h, B, L) && Kept(live, m0, h.mem)
  {}

  // ---------------------------------------------------------------- the first state

  const FirstSize := 4088

  function FirstBlocks(lo: int): Blocks { map[lo + 8 := Block(FirstSize, true)] }
  function NoLists(): Lists { [[], [], [], [], [], [], []] }

  lemma EmptyLists(mem: Memory, flist: seq<int>)
    requires |flist| == CLASSES && forall k :: 0 <= k < CLASSES ==> flist[k] == NULL
    ensures ListsOk(mem, flist, NoLists()) && Hosted(map[], NoLists())
  {
    forall k | 0 <= k < CLASSES
      ensures ListOk(mem, flist[k], NoLists()[k])
    {
      assert NoLists()[k] == [];
    }
  }

  /** One chunk of raw memory, once tagged, is a heap of one block that waits for its list. */
  lemma FirstState(h: Heap)
    requires h.lo % 8 == 0 && h.lo >= 0 && h.brk == h.lo + 4096 && Cells(h.lo, h.brk, h.mem)
    requires |h.flist| == CLASSES && forall k :: 0 <= k < CLASSES ==> h.flist[k] == NULL
    ensures h.lo + 4 in h.mem && h.brk - 8 in h.mem && !Listed(h.lo + 8, NoLists())
    ensures var m := PutTags(h.mem, h.lo + 8, Block(FirstSize, true));
            Amid(h.(mem := m), FirstBlocks(h.lo), NoLists(), {h.lo + 8}, map[], m)
  {
    var B, L, p := FirstBlocks(h.lo), NoLists(), h.lo + 8;
    EmptyLists(h.mem, h.flist);
    assert Placed(h.lo, h.brk, B, p);
    assert Tiling(h.lo, h.brk, B);
    assert Alignment(h.lo, h.brk, B);
    assert CoreBut(h, B, L, {p});
    forall x | x !in {p}
      ensures Filed(B, L, x)
    {}
    BlockCells(h, B, p);
    hide Tiling, Alignment, Cells, ListsOk;
    PutTagsCore(h, B, L, {p}, p, map[]);
  }

  lemma FirstFacts(lo: int)
    ensures lo + 8 in FirstBlocks(lo) && FirstBlocks(lo)[lo + 8] == Block(FirstSize, true) && FirstSize == 4088
    ensures OnList(FirstBlocks(lo), lo + 8, 4) && |NoLists()| == CLASSES
  {}

  /** A heap of one free block satisfies the invariant once that block is filed. */
  lemma FirstConsistent(h: Heap, L: Lists, m: Memory)
    requires Amid(h, FirstBlocks(h.lo), L, {}, map[], m)
    ensures Consistent(h, FirstBlocks(h.lo), L) && Live(FirstBlocks(h.lo)) == map[]
  {}

  // ---------------------------------------------------------------- freeing

  lemma AmidFree(h: Heap, B: Blocks, L: Lists, pending: set<int>, live: map<int, int>, m0: Memory, p: int)
    requires Amid(h, B, L, pending, live, m0) && p in B && B[p].free
    ensures p !in live && p > 0 && B[p].size >= 8
  {
    BlockCells(h, B, p);
    assert Placed(h.lo, h.brk, B, p);
  }

  lemma TilingDisjoint(lo: int, brk: int, B: Blocks)
    requires Tiling(lo, brk, B)
    ensures Disjoint(B)
  {}

  lemma AmidLess(h: Heap, B: Blocks, L: Lists, pending: set<int>, live: map<int, int>, m0: Memory, p: int)
    requires Amid(h, B, L, pending, live, m0)
    ensures Amid(h, B, L, pending, live - {p}, m0)
  {}

  lemma RemoveKeepsUnlisted(L: Lists, k: nat, i: nat)
    requires k < |L| && i < |L[k]|
    ensures forall x :: !Listed(x, L) ==> !Listed(x, L[k := RemoveAt(L[k], i)])
  {
    forall x | !Listed(x, L)
      ensures !Listed(x, L[k := RemoveAt(L[k], i)])
    {
      RemoveStays(L, k, i, x);
    }
  }

  /** Only block p may have free neighbours although it is free. */
  ghost predicate SeparateBut(B: Blocks, p: int) {
    forall q :: q in B && B[q].free && q != p && q + B[q].size != p && q + B[q].size in B ==>
      !B[q + B[q].size].free
  }

  ghost predicate LeftClear(B: Blocks, p: int) {
    forall q :: q in B && q + B[q].size == p ==> !B[q].free
  }

  ghost predicate RightClear(B: Blocks, p: int)
    requires p in B
  {
    p + B[p].size in B ==> !B[p + B[p].size].free
  }

  lemma ClearSides(B: Blocks, p: int)
    requires p in B && SeparateBut(B, p) && LeftClear(B, p) && RightClear(B, p)
    ensures NoAdjacentFree(B)
  {}

  lemma RetagSeparates(B: Blocks, p: int)
    requires NoAdjacentFree(B) && p in B
    ensures SeparateBut(Retag(B, p, true), p)
    ensures Live(Retag(B, p, true)) == Live(B) - {p}
  {}

  lemma OneLeftNeighbour(lo: int, brk: int, B: Blocks, p: int)
    requires Tiling(lo, brk, B) && p in B
    ensures forall q :: q in B && q + B[q].size == p + B[p].size ==> q == p
    ensures B[p].size > 0
  {
    forall q | q in B && q + B[q].size == p + B[p].size
      ensures q == p
    {
      assert Placed(lo, brk, B, q) && Placed(lo, brk, B, p);
    }
    assert Placed(lo, brk, B, p);
  }

  lemma MergeParts(B: Blocks, p: int)
    requires p in B && p + B[p].size in B
    ensures p in Merge(B, p) && Merge(B, p)[p] == Block(B[p].size + B[p + B[p].size].size, true)
  {}

  lemma MergeLive(B: Blocks, p: int)
    requires p in B && p + B[p].size in B && B[p].free && B[p + B[p].size].free
    ensures Live(Merge(B, p)) == Live(B)
  {}

  /** Merging p with its right neighbour, one of them the block just freed. */
  lemma MergeSeparates(lo: int, brk: int, B: Blocks, p: int, e: int)
    requires Tiling(lo, brk, B) && p in B && p + B[p].size in B && B[p].free && B[p + B[p].size].free
    requires SeparateBut(B, e) && (e == p || e == p + B[p].size)
    ensures SeparateBut(Merge(B, p), p)
    ensures e == p && LeftClear(B, p) ==> LeftClear(Merge(B, p), p)
    ensures e != p ==> LeftClear(Merge(B, p), p)
    ensures e == p ==> RightClear(Merge(B, p), p)
  {
    OneLeftNeighbour(lo, brk, B, p);
    OneLeftNeighbour(lo, brk, B, p + B[p].size);
    hide Tiling;
  }

  lemma MergeOthers(B: Blocks, p: int)
    requires p in B && p + B[p].size in B && B[p].size > 0
    ensures forall x :: x in B && x > p + B[p].size ==> x in Merge(B, p) && Merge(B, p)[x] == B[x]
  {}

  lemma SizePositive(lo: int, brk: int, B: Blocks, p: int)
    requires Tiling(lo, brk, B) && p in B
    ensures B[p].size == 8 || B[p].size >= 16
  {
    assert Placed(lo, brk, B, p);
  }

  lemma RightNeighbourDecides(B: Blocks, p: int)
    requires p in B && p + B[p].size in B
    ensures RightClear(B, p) <==> !B[p + B[p].size].free
  {}

  lemma FirstIsLeftClear(lo: int, brk: int, B: Blocks)
    requires Tiling(lo, brk, B)
    ensures LeftClear(B, lo + 8)
  {
    forall q | q in B
      ensures q + B[q].size != lo + 8
    {
      assert Placed(lo, brk, B, q);
    }
  }

  lemma LastIsRightClear(lo: int, brk: int, B: Blocks, p: int)
    requires Tiling(lo, brk, B) && p in B && p + B[p].size == brk
    ensures RightClear(B, p)
  {
    BelowBreak(lo, brk, B);
  }

  lemma LeftNeighbourDecides(lo: int, brk: int, B: Blocks, q: int, p: int)
    requires Tiling(lo, brk, B) && q in B && p in B && q + B[q].size == p
    ensures LeftClear(B, p) <==> !B[q].free
  {
    forall r | r in B && r + B[r].size == p
      ensures r == q
    {
      assert Placed(lo, brk, B, r) && Placed(lo, brk, B, q);
    }
  }

  lemma RetagOthers(B: Blocks, p: int)
    requires p in B
    ensures forall x :: x in B && x != p ==> x in Retag(B, p, true) && Retag(B, p, true)[x] == B[x]
  {}

  lemma RetagSame(B: Blocks, p: int)
    requires p in B && B[p].free
    ensures Retag(B, p, true) == B
  {}

  /** An 8-byte block has no link words: read as a node, its footer is its next
      pointer, and delete would store through it. */
  lemma FragmentTraps(h: Heap, B: Blocks, L: Lists, pending: set<int>, live: map<int, int>, m0: Memory, x: int)
    requires Amid(h, B, L, pending, live, m0) && x in B && B[x] == Block(8, true) && h.lo >= 16
    ensures x in h.mem && x + 4 in h.mem && |h.flist| == CLASSES
    ensures h.mem[x] == 8 && !Bridgeable(h.mem, x)
  {
    ReadBlock(h, B, L, x);
    assert Placed(h.lo, h.brk, B, x);
    AlignedWords(x, 8);
    var a := x + 4;
    assert a in h.mem;
    var wild := 12;
    assert wild !in h.mem;
  }

  lemma FirstHeader(h: Heap, B: Blocks, L: Lists)
    requires Consistent(h, B, L)
    ensures h.lo + 4 in h.mem && h.mem[h.lo + 4] != 0
  {
    var p := h.lo + 8;
    assert Placed(h.lo, h.brk, B, p);
    assert h.mem[p - 4] == Tag(B[p]);
  }

  /** A zero header before the first payload fits no tiling by any blocks. */
  lemma ZeroHeaderBroken(h: Heap)
    requires h.lo + 4 in h.mem && h.mem[h.lo + 4] == 0
    ensures forall B, L :: !Consistent(h, B, L)
  {
    forall B, L
      ensures !Consistent(h, B, L)
    {
      if Consistent(h, B, L) { FirstHeader(h, B, L); }
    }
  }

  // ---------------------------------------------------------------- clients

  /** A store into a live payload keeps the invariant and every other payload. */
  lemma StoreKeeps(h: Heap, B: Blocks, L: Lists, q: int, a: int, w: int)
    requires Consistent(h, B, L) && q in Live(B) && q <= a < q + Live(B)[q] - 8 && a % 4 == 0
    ensures a in h.mem && Consistent(h.(mem := h.mem[a := w]), B, L)
    ensures Kept(Live(B) - {q}, h.mem, h.mem[a := w])
  {
    var m := h.mem[a := w];
    assert Placed(h.lo, h.brk, B, q);
    assert a in h.mem;
    PayloadIsNoTagCell(h.lo, h.brk, B, q, a);
    assert Tagged(m, B) by {
      forall p | p in B
        ensures a != p - 4 && a != p + B[p].size - 8
      {
        assert !TagCell(B, a);
      }
    }
    forall k, x | 0 <= k < |L| && x in L[k]
      ensures a != x && a != x + 4
    {
      assert Filed(B, L, x);
      assert OnList(B, x, k);
      LinksOutsidePayload(h.lo, h.brk, B, x, q, a);
    }
    ListsFrame(h.mem, m, h.flist, L);
    OthersApart(h.lo, h.brk, B, q, a);
  }

  lemma OthersApart(lo: int, brk: int, B: Blocks, q: int, a: int)
    requires Tiling(lo, brk, B) && q in B && q <= a < q + B[q].size - 8
    ensures forall r :: r in B && r != q ==> !(r <= a < r + B[r].size - 8)
  {}

  // ---------------------------------------------------------------- where free blocks are

  /** A free block is the first of the heap or follows a live one. */
  lemma FreeStart(lo: int, brk: int, B: Blocks, x: int)
    requires Tiling(lo, brk, B) && NoAdjacentFree(B) && x in B && B[x].free
    ensures x == lo + 8 || exists q :: q in Live(B) && q + Live(B)[q] == x
  {
    if x != lo + 8 {
      var q := LeftNeighbour(lo, brk, B, x);
      assert q in Live(B);
    }
  }

  /** It reaches to the next live block, or to the break. */
  lemma GapSize(lo: int, brk: int, B: Blocks, x: int, e: int)
    requires Tiling(lo, brk, B) && NoAdjacentFree(B) && x in B && x !in Live(B) && x < e && (e == brk || e in Live(B))
    requires forall q :: q in Live(B) ==> !(x <= q < e)
    ensures B[x] == Block(e - x, true)
  {
    assert Placed(lo, brk, B, x);
    var next := x + B[x].size;
    if next != brk { assert next in Live(B); }
    if e != brk { assert Placed(lo, brk, B, e) && x + B[x].size <= e; }
  }

  /** With a 16-byte block free, the first list is not empty. */
  lemma SmallListed(h: Heap, B: Blocks, L: Lists, x: int)
    requires Consistent(h, B, L) && x in B && B[x] == Block(16, true)
    ensures |h.flist| == CLASSES && h.flist[0] != NULL
  {
    assert Filed(B, L, x) && OnList(B, x, 0);
    assert ListOk(h.mem, h.flist[0], L[0]);
    assert L[0] != [] && L[0][0] in L[0];
  }
}
