/** The arena allocator of threads/malloc.c as values: where its blocks are, what its
    counters and free lists must say about them, and what each step keeps. */
module ArenaModel {
  import opened Sequences
  import opened ByteTypes
  import opened Bitmap
  import opened Arithmetic

  const PGSIZE := 4096
  const HEADER_SIZE := 12          // sizeof (struct arena)
  const ARENA_MAGIC := 0x9A54_8EED
  const NO_DESC := -1              // the null descriptor of a big block

  datatype Desc = Desc(blockSize: nat, perArena: nat)

  /** The struct arena at the start of a page.  Descriptors are numbers. */
  datatype Header = Header(magic: int, desc: int, freeCnt: int)

  /** What malloc_init sets up. */
  function Descs(): (r: seq<Desc>)
    ensures |r| == 7 && forall k :: 0 <= k < 7 ==> 16 <= r[k].blockSize <= 1024 && 3 <= r[k].perArena <= 255
  {
    [Desc(16, 255), Desc(32, 127), Desc(64, 63), Desc(128, 31), Desc(256, 15), Desc(512, 7), Desc(1024, 3)]
  }

  /** Block sizes double, and an arena holds as many blocks as fit behind its header. */
  lemma DescsMean(k: nat)
    requires k < 7
    ensures Descs()[k].blockSize == if k == 0 then 16 else 2 * Descs()[k - 1].blockSize
    ensures Descs()[k].blockSize < 2048 && (k == 6 ==> 2 * Descs()[k].blockSize >= 2048)
    ensures HEADER_SIZE + Descs()[k].perArena * Descs()[k].blockSize <= PGSIZE <
            HEADER_SIZE + (Descs()[k].perArena + 1) * Descs()[k].blockSize
  {}

  // ---------------------------------------------------------------- addresses

  /** The page an address is in; addresses count bytes from the base of the page pool. */
  function PageOf(b: int): int
  {
    b / PGSIZE
  }

  /** Block idx of an arena of descriptor k on page p. */
  function BlockAt(p: int, k: int, idx: int): int
    requires 0 <= k < 7
  {
    PGSIZE * p + HEADER_SIZE + idx * Descs()[k].blockSize
  }

  /** The offset of block idx in its page. */
  function OffsetAt(k: int, idx: int): int
    requires 0 <= k < 7
  {
    HEADER_SIZE + idx * Descs()[k].blockSize
  }

  lemma OffsetInPage(k: int, idx: int)
    requires 0 <= k < 7 && 0 <= idx < Descs()[k].perArena
    ensures HEADER_SIZE <= OffsetAt(k, idx) && OffsetAt(k, idx) + Descs()[k].blockSize <= PGSIZE
  {
    var d := Descs()[k];
    assert (idx + 1) * d.blockSize <= d.perArena * d.blockSize;
  }

  lemma PageAndOffset(p: int, ofs: int)
    requires 0 <= ofs < PGSIZE
    ensures (PGSIZE * p + ofs) / PGSIZE == p && (PGSIZE * p + ofs) % PGSIZE == ofs
  {}

  /** block_to_arena inverts arena_to_block, and a block lies inside its page. */
  lemma BlockToArenaInverts(p: int, k: int, idx: int)
    requires 0 <= k < 7 && 0 <= idx < Descs()[k].perArena
    ensures PageOf(BlockAt(p, k, idx)) == p
    ensures PGSIZE * p + HEADER_SIZE <= BlockAt(p, k, idx)
    ensures BlockAt(p, k, idx) + Descs()[k].blockSize <= PGSIZE * p + PGSIZE
    ensures BlockAt(p, k, idx) % PGSIZE == OffsetAt(k, idx)
  {
    OffsetInPage(k, idx);
    PageAndOffset(p, OffsetAt(k, idx));
  }

  /** Blocks of one arena do not overlap. */
  lemma BlocksApart(p: int, k: int, i: int, j: int)
    requires 0 <= k < 7 && i < j
    ensures BlockAt(p, k, i) + Descs()[k].blockSize <= BlockAt(p, k, j)
  {
    var s := Descs()[k].blockSize;
    assert (i + 1) * s <= j * s;
  }

  /** b is one of the blocks of an arena of descriptor k on its page. */
  ghost predicate IsBlock(b: int, k: int) {
    0 <= k < 7 && exists idx :: 0 <= idx < Descs()[k].perArena && b == BlockAt(PageOf(b), k, idx)
  }

  /** The alignment assertion of block_to_arena for an arena with descriptor k. */
  predicate AlignedFor(b: int, k: int)
    requires 0 <= k < 7
  {
    (b % PGSIZE - HEADER_SIZE) % Descs()[k].blockSize == 0
  }

  lemma MultipleOf(n: int, s: int)
    requires s > 0
    ensures n % s == 0 <==> n == n / s * s
    ensures n > -s && n % s == 0 ==> n / s >= 0
  {
    assert n == s * (n / s) + n % s;
    if n > -s && n % s == 0 {
      MulCancel(-1, n / s, s);
    }
  }

  lemma IdxOfMultiple(i: int, s: int)
    requires s > 0
    ensures (i * s) % s == 0 && (i * s) / s == i
  {
    var q, r := (i * s) / s, (i * s) % s;
    assert i * s == s * q + r;
    assert (i - q) * s == r;
    MulCancel(-1, i - q, s);
    MulCancel(i - q, 1, s);
  }

  /** The assertion accepts the blocks of the arena and one address more: the one right
      after the last block, where no whole block fits. */
  lemma AssertionAccepts(b: int, k: int)
    requires 0 <= k < 7
    ensures AlignedFor(b, k) <==> IsBlock(b, k) || b == BlockAt(PageOf(b), k, Descs()[k].perArena)
    ensures BlockAt(PageOf(b), k, Descs()[k].perArena) + Descs()[k].blockSize > PGSIZE * PageOf(b) + PGSIZE
  {
    var d, ofs := Descs()[k], b % PGSIZE;
    assert b == PGSIZE * PageOf(b) + ofs;
    MultipleOf(ofs - HEADER_SIZE, d.blockSize);
    var n := (ofs - HEADER_SIZE) / d.blockSize;
    if AlignedFor(b, k) {
      assert n * d.blockSize == ofs - HEADER_SIZE;
      assert b == BlockAt(PageOf(b), k, n);
      TailOnly(k, n);
    }
    if IsBlock(b, k) {
      var idx :| 0 <= idx < d.perArena && b == BlockAt(PageOf(b), k, idx);
      assert ofs - HEADER_SIZE == idx * d.blockSize;
      IdxOfMultiple(idx, d.blockSize);
    } else if b == BlockAt(PageOf(b), k, d.perArena) {
      IdxOfMultiple(d.perArena, d.blockSize);
    }
  }

  lemma TailOnly(k: int, n: int)
    requires 0 <= k < 7 && 0 <= n * Descs()[k].blockSize < PGSIZE - HEADER_SIZE
    ensures 0 <= n <= Descs()[k].perArena
  {
    var d := Descs()[k];
    MulCancel(-1, n, d.blockSize);
    MulCancel(n, d.perArena + 1, d.blockSize);
  }

  /** The number of a block in its arena. */
  lemma BlockIdx(b: int, k: int) returns (idx: int)
    requires IsBlock(b, k)
    ensures 0 <= idx < Descs()[k].perArena && b == BlockAt(PageOf(b), k, idx)
  {
    idx :| 0 <= idx < Descs()[k].perArena && b == BlockAt(PageOf(b), k, idx);
  }

  // ---------------------------------------------------------------- counting blocks

  /** The first n blocks of an arena. */
  ghost function BlockSet(p: int, k: int, n: nat): set<int>
    requires 0 <= k < 7
  {
    set idx | 0 <= idx < n :: BlockAt(p, k, idx)
  }

  lemma {:induction false} BlockSetSize(p: int, k: int, n: nat)
    requires 0 <= k < 7
    ensures |BlockSet(p, k, n)| == n
  {
    if n == 0 {
      assert BlockSet(p, k, 0) == {};
    } else {
      BlockSetSize(p, k, n - 1);
      var b := BlockAt(p, k, n - 1);
      forall i | 0 <= i < n - 1
        ensures BlockAt(p, k, i) != b
      {
        BlocksApart(p, k, i, n - 1);
      }
      assert BlockSet(p, k, n) == BlockSet(p, k, n - 1) + {b};
    }
  }

  lemma {:induction false} SubsetSize<T>(a: set<T>, b: set<T>)
    requires a <= b
    ensures |a| <= |b| && (|a| == |b| ==> a == b)
  {
    if a != {} {
      var x :| x in a;
      SubsetSize(a - {x}, b - {x});
    }
  }

  /** The blocks of page p on a free list. */
  ghost function FreeOf(list: seq<int>, p: int): set<int> {
    set b | b in list && PageOf(b) == p
  }

  // ---------------------------------------------------------------- the invariant

  /** The pages an arena takes: free_cnt holds their number in a big block. */
  function Span(h: Header): int {
    if h.desc == NO_DESC then h.freeCnt else 1
  }

  ghost predicate ArenaOk(used: seq<bool>, heads: seq<Header>, p: int) {
    0 <= p < |heads| && heads[p].magic == ARENA_MAGIC && -1 <= heads[p].desc < 7 &&
    Span(heads[p]) >= 1 && UsedRun(used, p, Span(heads[p]))
  }

  ghost predicate ArenasOk(used: seq<bool>, heads: seq<Header>, arenas: set<int>) {
    |used| == |heads| &&
    (forall p :: p in arenas ==> ArenaOk(used, heads, p)) &&
    forall p, q :: p in arenas && q in arenas && p < q ==> p + Span(heads[p]) <= q
  }

  /** b is a block of a live arena that descriptor k owns. */
  ghost predicate Belongs(heads: seq<Header>, arenas: set<int>, b: int, k: int) {
    PageOf(b) in arenas && 0 <= PageOf(b) < |heads| && heads[PageOf(b)].desc == k && IsBlock(b, k)
  }

  ghost predicate ListsOk(heads: seq<Header>, lists: seq<seq<int>>, arenas: set<int>) {
    |lists| == 7 &&
    forall k :: 0 <= k < 7 ==> Distinct(lists[k]) && forall b :: b in lists[k] ==> Belongs(heads, arenas, b, k)
  }

  /** free_cnt is the number of the arena's blocks on its descriptor's free list. */
  ghost predicate CountOk(heads: seq<Header>, lists: seq<seq<int>>, p: int)
    requires |lists| == 7
  {
    0 <= p < |heads| && -1 <= heads[p].desc < 7 &&
    (heads[p].desc >= 0 ==> heads[p].freeCnt == |FreeOf(lists[heads[p].desc], p)|)
  }

  /** b has been handed out: a block of a live arena that is not on a free list. */
  ghost predicate IsLive(heads: seq<Header>, lists: seq<seq<int>>, arenas: set<int>, b: int)
    requires |lists| == 7
  {
    var p := PageOf(b);
    p in arenas && 0 <= p < |heads| && -1 <= heads[p].desc < 7 &&
    if heads[p].desc == NO_DESC then b == PGSIZE * p + HEADER_SIZE
    else IsBlock(b, heads[p].desc) && b !in lists[heads[p].desc]
  }

  ghost predicate LiveOk(heads: seq<Header>, lists: seq<seq<int>>, arenas: set<int>, live: set<int>)
    requires |lists| == 7
  {
    forall b :: b in live <==> IsLive(heads, lists, arenas, b)
  }

  ghost predicate CountsOk(heads: seq<Header>, lists: seq<seq<int>>, arenas: set<int>)
    requires |lists| == 7
  {
    forall p :: p in arenas ==> CountOk(heads, lists, p)
  }

  ghost predicate Sound(used: seq<bool>, heads: seq<Header>, lists: seq<seq<int>>, arenas: set<int>, live: set<int>) {
    ArenasOk(used, heads, arenas) && ListsOk(heads, lists, arenas) && CountsOk(heads, lists, arenas) &&
    LiveOk(heads, lists, arenas, live)
  }

  /** No page is kept without a block in use. */
  ghost predicate NoIdle(heads: seq<Header>, arenas: set<int>) {
    forall p :: p in arenas ==> 0 <= p < |heads| && Working(heads[p])
  }

  predicate Working(h: Header) {
    -1 <= h.desc < 7 && (h.desc >= 0 ==> h.freeCnt < Descs()[h.desc].perArena)
  }

  // ---------------------------------------------------------------- what the invariant gives

  /** block_size. */
  function SizeOf(h: Header): int
    requires -1 <= h.desc < 7
  {
    if h.desc == NO_DESC then PGSIZE * h.freeCnt - HEADER_SIZE else Descs()[h.desc].blockSize
  }

  /** A live block lies in the used pages of its arena, behind the arena's header. */
  lemma LiveInside(used: seq<bool>, heads: seq<Header>, lists: seq<seq<int>>, arenas: set<int>, live: set<int>, b: int)
    requires Sound(used, heads, lists, arenas, live) && b in live
    ensures var p := PageOf(b);
            0 <= p < |heads| && -1 <= heads[p].desc < 7 && p in arenas && SizeOf(heads[p]) > 0 &&
            PGSIZE * p + HEADER_SIZE <= b && b + SizeOf(heads[p]) <= PGSIZE * (p + Span(heads[p])) &&
            UsedRun(used, p, Span(heads[p]))
  {
    var p := PageOf(b);
    assert ArenaOk(used, heads, p);
    if heads[p].desc != NO_DESC {
      var idx := BlockIdx(b, heads[p].desc);
      BlockToArenaInverts(p, heads[p].desc, idx);
    }
  }

  /** The bytes of two live blocks are apart. */
  lemma LiveBlocksDisjoint(used: seq<bool>, heads: seq<Header>, lists: seq<seq<int>>, arenas: set<int>, live: set<int>,
                           b: int, c: int)
    requires Sound(used, heads, lists, arenas, live) && b in live && c in live && b < c
    ensures 0 <= PageOf(b) < |heads| && -1 <= heads[PageOf(b)].desc < 7
    ensures b + SizeOf(heads[PageOf(b)]) <= c
  {
    LiveInside(used, heads, lists, arenas, live, b);
    LiveInside(used, heads, lists, arenas, live, c);
    var p, q := PageOf(b), PageOf(c);
    if p == q {
      var k := heads[p].desc;
      var i := BlockIdx(b, k);
      var j := BlockIdx(c, k);
      if i < j {
        BlocksApart(p, k, i, j);
      } else {
        SameOrBefore(p, k, j, i);
      }
    }
  }

  lemma SameOrBefore(p: int, k: int, j: int, i: int)
    requires 0 <= k < 7 && j <= i
    ensures BlockAt(p, k, j) <= BlockAt(p, k, i)
  {
    if j < i { BlocksApart(p, k, j, i); }
  }

  /** There are never more free blocks than blocks, and when all are free they are
      exactly the arena's blocks. */
  lemma FreeBound(used: seq<bool>, heads: seq<Header>, lists: seq<seq<int>>, arenas: set<int>, live: set<int>, p: int)
    requires Sound(used, heads, lists, arenas, live) && p in arenas
    ensures 0 <= p < |heads| && -1 <= heads[p].desc < 7
    ensures heads[p].desc >= 0 ==>
      var k := heads[p].desc;
      heads[p].freeCnt <= Descs()[k].perArena &&
      (heads[p].freeCnt == Descs()[k].perArena ==> FreeOf(lists[k], p) == BlockSet(p, k, Descs()[k].perArena))
  {
    assert CountOk(heads, lists, p);
    var k := heads[p].desc;
    if k >= 0 {
      var n := Descs()[k].perArena;
      forall b | b in FreeOf(lists[k], p)
        ensures b in BlockSet(p, k, n)
      {
        assert Belongs(heads, arenas, b, k);
        var idx := BlockIdx(b, k);
      }
      BlockSetSize(p, k, n);
      SubsetSize(FreeOf(lists[k], p), BlockSet(p, k, n));
    }
  }

  // ---------------------------------------------------------------- the steps

  /** A new arena: its page is taken, its header written, its blocks listed in order. */
  ghost function BlockList(p: int, k: int, n: nat): (r: seq<int>)
    requires 0 <= k < 7
    ensures |r| == n && forall i :: 0 <= i < n ==> r[i] == BlockAt(p, k, i)
  {
    seq(n, i => BlockAt(p, k, i))
  }

  lemma BlockListFree(p: int, k: int)
    requires 0 <= k < 7
    ensures Distinct(BlockList(p, k, Descs()[k].perArena))
    ensures forall b :: b in BlockList(p, k, Descs()[k].perArena) ==> PageOf(b) == p && IsBlock(b, k)
    ensures forall b :: PageOf(b) == p && IsBlock(b, k) ==> b in BlockList(p, k, Descs()[k].perArena)
    ensures FreeOf(BlockList(p, k, Descs()[k].perArena), p) == BlockSet(p, k, Descs()[k].perArena)
  {
    var n := Descs()[k].perArena;
    var list := BlockList(p, k, n);
    forall i, j | 0 <= i < j < n
      ensures list[i] != list[j]
    {
      BlocksApart(p, k, i, j);
    }
    forall b | b in list
      ensures PageOf(b) == p && IsBlock(b, k)
    {
      var i :| 0 <= i < n && b == list[i];
      BlockToArenaInverts(p, k, i);
    }
    forall b | PageOf(b) == p && IsBlock(b, k)
      ensures b in list
    {
      var i := BlockIdx(b, k);
      assert list[i] == b;
    }
    forall b | b in BlockSet(p, k, n)
      ensures b in FreeOf(list, p)
    {
      var i :| 0 <= i < n && b == BlockAt(p, k, i);
      assert list[i] == b;
    }
  }

  /** Free pages belong to no arena. */
  lemma FreeOutside(used: seq<bool>, heads: seq<Header>, arenas: set<int>, p: int, cnt: nat)
    requires ArenasOk(used, heads, arenas) && FreeRun(used, p, cnt) && cnt >= 1
    ensures p !in arenas
    ensures forall q :: q in arenas ==> q + Span(heads[q]) <= p || p + cnt <= q
  {
    forall q | q in arenas
      ensures q + Span(heads[q]) <= p || p + cnt <= q
    {
      assert ArenaOk(used, heads, q);
      var x := if q < p then p else q;
      assert q <= x < q + Span(heads[q]) ==> used[x];
      assert p <= x < p + cnt ==> !used[x];
    }
  }

  /** Taking free pages for an arena keeps the others as they are. */
  lemma ArenaAdded(used: seq<bool>, heads: seq<Header>, arenas: set<int>, p: int, h: Header)
    requires ArenasOk(used, heads, arenas) && Span(h) >= 1 && FreeRun(used, p, Span(h))
    requires h.magic == ARENA_MAGIC && -1 <= h.desc < 7
    ensures ArenasOk(SetRun(used, p, Span(h), true), heads[p := h], arenas + {p}) && p !in arenas
  {
    FreeOutside(used, heads, arenas, p, Span(h));
    var used', heads' := SetRun(used, p, Span(h), true), heads[p := h];
    forall q | q in arenas + {p}
      ensures ArenaOk(used', heads', q)
    {
      assert q != p ==> ArenaOk(used, heads, q);
    }
  }

  lemma AddSmall(used: seq<bool>, heads: seq<Header>, lists: seq<seq<int>>, arenas: set<int>, live: set<int>, p: int,
                 k: int)
    requires Sound(used, heads, lists, arenas, live) && FreeRun(used, p, 1) && 0 <= k < 7 && lists[k] == []
    ensures var n := Descs()[k].perArena;
            Sound(SetRun(used, p, 1, true), heads[p := Header(ARENA_MAGIC, k, n)], lists[k := BlockList(p, k, n)],
                  arenas + {p}, live)
    ensures p !in arenas
  {
    var n := Descs()[k].perArena;
    var h := Header(ARENA_MAGIC, k, n);
    ArenaAdded(used, heads, arenas, p, h);
    BlockListFree(p, k);
    BlockSetSize(p, k, n);
    var heads', lists', arenas' := heads[p := h], lists[k := BlockList(p, k, n)], arenas + {p};
    forall j, b | 0 <= j < 7 && b in lists'[j]
      ensures Belongs(heads', arenas', b, j)
    {
      assert j != k ==> Belongs(heads, arenas, b, j);
    }
    forall q | q in arenas'
      ensures CountOk(heads', lists', q)
    {
      if q != p {
        assert CountOk(heads, lists, q);
        if heads[q].desc == k {
          assert FreeOf(lists[k], q) == {} == FreeOf(lists'[k], q);
        }
      }
    }
    forall b
      ensures b in live <==> IsLive(heads', lists', arenas', b)
    {
      assert b in live <==> IsLive(heads, lists, arenas, b);
      if PageOf(b) != p && PageOf(b) in arenas {
        assert b !in BlockList(p, k, n);
      }
    }
  }

  /** A big block takes its own pages. */
  lemma AddBig(used: seq<bool>, heads: seq<Header>, lists: seq<seq<int>>, arenas: set<int>, live: set<int>, p: int,
               cnt: nat)
    requires Sound(used, heads, lists, arenas, live) && FreeRun(used, p, cnt) && cnt >= 1
    ensures Sound(SetRun(used, p, cnt, true), heads[p := Header(ARENA_MAGIC, NO_DESC, cnt)], lists, arenas + {p},
                  live + {PGSIZE * p + HEADER_SIZE})
    ensures p !in arenas && PGSIZE * p + HEADER_SIZE !in live && PageOf(PGSIZE * p + HEADER_SIZE) == p
  {
    var h := Header(ARENA_MAGIC, NO_DESC, cnt);
    ArenaAdded(used, heads, arenas, p, h);
    var b0 := PGSIZE * p + HEADER_SIZE;
    assert PageOf(b0) == p;
    var heads', arenas' := heads[p := h], arenas + {p};
    forall j, b | 0 <= j < 7 && b in lists[j]
      ensures Belongs(heads', arenas', b, j)
    {
      assert Belongs(heads, arenas, b, j);
    }
    forall q | q in arenas'
      ensures CountOk(heads', lists, q)
    {
      assert q != p ==> CountOk(heads, lists, q);
    }
    assert b0 !in live by { assert !IsLive(heads, lists, arenas, b0); }
    forall b
      ensures b in live + {b0} <==> IsLive(heads', lists, arenas', b)
    {
      assert b in live <==> IsLive(heads, lists, arenas, b);
    }
  }

  lemma FreeOfCons(b: int, list: seq<int>)
    ensures FreeOf([b] + list, PageOf(b)) == FreeOf(list, PageOf(b)) + {b}
    ensures Distinct([b] + list) ==>
      b !in list && Distinct(list) && |FreeOf([b] + list, PageOf(b))| == |FreeOf(list, PageOf(b))| + 1
  {
    var more := [b] + list;
    assert forall i :: 0 <= i < |list| ==> more[i + 1] == list[i];
    assert more[0] == b;
    assert FreeOf(more, PageOf(b)) == FreeOf(list, PageOf(b)) + {b};
  }

  /** The first free block is handed out. */
  lemma TakeBlock(used: seq<bool>, heads: seq<Header>, lists: seq<seq<int>>, arenas: set<int>, live: set<int>, k: int)
    requires Sound(used, heads, lists, arenas, live) && 0 <= k < 7 && lists[k] != []
    ensures var b := lists[k][0];
            var p := PageOf(b);
            Belongs(heads, arenas, b, k) && b !in live && heads[p].freeCnt >= 1 &&
            Sound(used, heads[p := heads[p].(freeCnt := heads[p].freeCnt - 1)], lists[k := lists[k][1..]], arenas,
            live + {b})
  {
    var b := lists[k][0];
    var p := PageOf(b);
    assert Belongs(heads, arenas, b, k);
    assert !IsLive(heads, lists, arenas, b);
    assert CountOk(heads, lists, p) && heads[p].desc == k;
    var list := lists[k][1..];
    assert lists[k] == [b] + list;
    FreeOfCons(b, list);
    assert [b] + list == lists[k];
    hide *;
    SameArenas(used, heads, arenas, p, heads[p].freeCnt - 1);
    OneListChanged(heads, lists, arenas, live, k, list, b, heads[p].freeCnt - 1);
  }

  /** Changing the count of a small arena keeps the arenas apart. */
  lemma SameArenas(used: seq<bool>, heads: seq<Header>, arenas: set<int>, p: int, cnt: int)
    requires ArenasOk(used, heads, arenas) && 0 <= p < |heads| && heads[p].desc != NO_DESC
    ensures ArenasOk(used, heads[p := heads[p].(freeCnt := cnt)], arenas)
  {
    var heads' := heads[p := heads[p].(freeCnt := cnt)];
    forall q | q in arenas
      ensures ArenaOk(used, heads', q)
    {
      assert ArenaOk(used, heads, q);
    }
  }

  /** Block b enters or leaves the list of descriptor k, and its arena's count follows. */
  lemma OneListChanged(heads: seq<Header>, lists: seq<seq<int>>, arenas: set<int>, live: set<int>, k: int,
                       list: seq<int>,
                       b: int, cnt: int)
    requires ListsOk(heads, lists, arenas) && CountsOk(heads, lists, arenas) && LiveOk(heads, lists, arenas, live)
    requires 0 <= k < 7 && Belongs(heads, arenas, b, k) && Distinct(list)
    requires forall c :: c != b ==> (c in list <==> c in lists[k])
    requires cnt == |FreeOf(list, PageOf(b))|
    ensures var heads' := heads[PageOf(b) := heads[PageOf(b)].(freeCnt := cnt)];
            ListsOk(heads', lists[k := list], arenas) && CountsOk(heads', lists[k := list], arenas) &&
            LiveOk(heads', lists[k := list], arenas, if b in list then live - {b} else live + {b})
  {
    var p := PageOf(b);
    var heads', lists' := heads[p := heads[p].(freeCnt := cnt)], lists[k := list];
    forall j, c | 0 <= j < 7 && c in lists'[j]
      ensures Belongs(heads', arenas, c, j)
    {
      assert c != b || j != k ==> Belongs(heads, arenas, c, j);
    }
    forall q | q in arenas
      ensures CountOk(heads', lists', q)
    {
      assert CountOk(heads, lists, q);
      if q != p && heads[q].desc == k {
        assert FreeOf(lists[k], q) == FreeOf(list, q);
      }
    }
    forall c
      ensures c in (if b in list then live - {b} else live + {b}) <==> IsLive(heads', lists', arenas, c)
    {
      assert c in live <==> IsLive(heads, lists, arenas, c);
    }
  }

  /** A live block of a small arena goes back to the front of its list. */
  lemma GiveBlock(used: seq<bool>, heads: seq<Header>, lists: seq<seq<int>>, arenas: set<int>, live: set<int>, b: int)
    requires Sound(used, heads, lists, arenas, live) && b in live
    ensures 0 <= PageOf(b) < |heads| && -1 <= heads[PageOf(b)].desc < 7
    ensures var p := PageOf(b);
            var k := heads[p].desc;
            k >= 0 ==>
              Sound(used, heads[p := heads[p].(freeCnt := heads[p].freeCnt + 1)], lists[k := [b] + lists[k]], arenas,
              live - {b})
  {
    var p := PageOf(b);
    assert IsLive(heads, lists, arenas, b);
    var k := heads[p].desc;
    if k >= 0 {
      assert CountOk(heads, lists, p);
      var list := [b] + lists[k];
      FreeOfCons(b, lists[k]);
      assert b in list;
      SameArenas(used, heads, arenas, p, heads[p].freeCnt + 1);
      OneListChanged(heads, lists, arenas, live, k, list, b, heads[p].freeCnt + 1);
    }
  }

  /** Pages that are given back. */
  lemma ArenaRemoved(used: seq<bool>, heads: seq<Header>, arenas: set<int>, p: int, heads': seq<Header>)
    requires ArenasOk(used, heads, arenas) && p in arenas && |heads'| == |heads|
    requires forall q :: 0 <= q < |heads| && !(p <= q < p + Span(heads[p])) ==> heads'[q] == heads[q]
    ensures 0 <= p && p + Span(heads[p]) <= |used| && Span(heads[p]) >= 1
    ensures ArenasOk(SetRun(used, p, Span(heads[p]), false), heads', arenas - {p})
    ensures forall q :: q in arenas && q != p ==> heads'[q] == heads[q]
  {
    assert ArenaOk(used, heads, p);
    var used' := SetRun(used, p, Span(heads[p]), false);
    forall q | q in arenas - {p}
      ensures heads'[q] == heads[q] && ArenaOk(used', heads', q)
    {
      assert ArenaOk(used, heads, q);
    }
  }

  /** A free list without the blocks in gone, the others in their order. */
  ghost function Without(list: seq<int>, gone: set<int>): (r: seq<int>)
    ensures forall b :: b in r <==> b in list && b !in gone
    ensures Distinct(list) ==> Distinct(r)
  {
    if list == [] then []
    else
      assert list == [list[0]] + list[1..];
      if list[0] in gone then Without(list[1..], gone) else [list[0]] + Without(list[1..], gone)
  }

  lemma {:induction false} WithoutNone(list: seq<int>)
    ensures Without(list, {}) == list
  {
    if list != [] {
      WithoutNone(list[1..]);
      assert list == [list[0]] + list[1..];
    }
  }

  /** list_remove: the list without the element b that is on it. */
  function ListRemove(list: seq<int>, b: int): (r: seq<int>)
    requires b in list
  {
    if list[0] == b then list[1..] else [list[0]] + ListRemove(list[1..], b)
  }

  lemma {:induction false} RemoveIsWithout(list: seq<int>, gone: set<int>, b: int)
    requires Distinct(list) && b in list && b !in gone
    ensures b in Without(list, gone) && ListRemove(Without(list, gone), b) == Without(list, gone + {b})
  {
    assert list == [list[0]] + list[1..];
    if list[0] == b {
      assert b !in list[1..];
      WithoutMore(list[1..], gone, b);
    } else {
      RemoveIsWithout(list[1..], gone, b);
    }
  }

  lemma {:induction false} WithoutMore(list: seq<int>, gone: set<int>, b: int)
    requires b !in list
    ensures Without(list, gone + {b}) == Without(list, gone)
  {
    if list != [] {
      assert list == [list[0]] + list[1..];
      WithoutMore(list[1..], gone, b);
    }
  }

  /** When all blocks of an arena are free, none of them is live. */
  lemma AllListed(list: seq<int>, p: int, k: int)
    requires 0 <= k < 7 && FreeOf(list, p) == BlockSet(p, k, Descs()[k].perArena)
    ensures forall b :: PageOf(b) == p && IsBlock(b, k) ==> b in list
  {
    forall b | PageOf(b) == p && IsBlock(b, k)
      ensures b in list
    {
      var i := BlockIdx(b, k);
      assert b in FreeOf(list, p);
    }
  }

  /** An arena all of whose blocks are free gives its page back. */
  lemma DropSmall(used: seq<bool>, heads: seq<Header>, lists: seq<seq<int>>, arenas: set<int>, live: set<int>,
                  p: int, heads': seq<Header>)
    requires Sound(used, heads, lists, arenas, live) && p in arenas && 0 <= p < |heads| && 0 <= heads[p].desc < 7
    requires heads[p].freeCnt == Descs()[heads[p].desc].perArena
    requires |heads'| == |heads| && forall q :: 0 <= q < |heads| && q != p ==> heads'[q] == heads[q]
    ensures 0 <= p < |used|
    ensures var k := heads[p].desc;
            Sound(SetRun(used, p, 1, false), heads',
                  lists[k := Without(lists[k], BlockSet(p, k, Descs()[k].perArena))], arenas - {p}, live)
  {
    var k := heads[p].desc;
    ArenaRemoved(used, heads, arenas, p, heads');
    FreeBound(used, heads, lists, arenas, live, p);
    AllListed(lists[k], p, k);
    var freed := FreeOf(lists[k], p);
    assert forall b :: b in lists[k] && PageOf(b) == p ==> b in freed;
    var lists', arenas' := lists[k := Without(lists[k], BlockSet(p, k, Descs()[k].perArena))], arenas - {p};
    forall j, b | 0 <= j < 7 && b in lists'[j]
      ensures Belongs(heads', arenas', b, j)
    {
      assert Belongs(heads, arenas, b, j);
    }
    forall q | q in arenas'
      ensures CountOk(heads', lists', q)
    {
      assert CountOk(heads, lists, q);
      if heads[q].desc == k {
        forall b | b in FreeOf(lists[k], q)
          ensures b in lists'[k]
        {
          assert b !in FreeOf(lists[k], p);
        }
        assert FreeOf(lists[k], q) == FreeOf(lists'[k], q);
      }
    }
    forall b
      ensures b in live <==> IsLive(heads', lists', arenas', b)
    {
      assert b in live <==> IsLive(heads, lists, arenas, b);
    }
  }

  /** A big block gives its pages back. */
  lemma DropBig(used: seq<bool>, heads: seq<Header>, lists: seq<seq<int>>, arenas: set<int>, live: set<int>,
                b: int, heads': seq<Header>)
    requires Sound(used, heads, lists, arenas, live) && b in live && 0 <= PageOf(b) < |heads|
    requires heads[PageOf(b)].desc == NO_DESC && |heads'| == |heads|
    requires var p := PageOf(b);
             forall q :: 0 <= q < |heads| && !(p <= q < p + heads[p].freeCnt) ==> heads'[q] == heads[q]
    ensures var p := PageOf(b);
            0 <= p && 1 <= heads[p].freeCnt && p + heads[p].freeCnt <= |used| && UsedRun(used, p, heads[p].freeCnt) &&
            Sound(SetRun(used, p, heads[p].freeCnt, false), heads', lists, arenas - {p}, live - {b})
  {
    var p := PageOf(b);
    assert IsLive(heads, lists, arenas, b);
    assert ArenaOk(used, heads, p);
    ArenaRemoved(used, heads, arenas, p, heads');
    var arenas' := arenas - {p};
    forall j, c | 0 <= j < 7 && c in lists[j]
      ensures Belongs(heads', arenas', c, j)
    {
      assert Belongs(heads, arenas, c, j);
    }
    forall q | q in arenas'
      ensures CountOk(heads', lists, q)
    {
      assert CountOk(heads, lists, q);
    }
    forall c
      ensures c in live - {b} <==> IsLive(heads', lists, arenas', c)
    {
      assert c in live <==> IsLive(heads, lists, arenas, c);
    }
  }

  // ---------------------------------------------------------------- requests

  function Wrap32(n: nat): nat { n % 0x1_0000_0000 }

  /** DIV_ROUND_UP (size + sizeof *a, PGSIZE) in 32-bit arithmetic. */
  function PagesFor(size: nat): nat { Wrap32(Wrap32(size + HEADER_SIZE) + PGSIZE - 1) / PGSIZE }

  /** No fewer pages would hold the request, and these do except for the eleven largest sizes, whose sum wraps to
      less than a page. */
  lemma PagesEnough(size: nat)
    requires size < 0x1_0000_0000 && PagesFor(size) >= 1
    ensures PGSIZE * PagesFor(size) - HEADER_SIZE >= size <==> size <= 0xFFFF_FFF4
    ensures PGSIZE * (PagesFor(size) - 1) - HEADER_SIZE < size
  {
    PagesCases(size);
  }

  lemma PagesCases(size: nat)
    requires size < 0x1_0000_0000
    ensures PagesFor(size) ==
            if size <= 0xFFFF_FFFF - HEADER_SIZE - PGSIZE + 1 then (size + HEADER_SIZE + PGSIZE - 1) / PGSIZE
            else if size <= 0xFFFF_FFF4 then 0 else 1
  {
    if size > 0xFFFF_FFF3 {
      assert Wrap32(size + HEADER_SIZE) == size + HEADER_SIZE - 0x1_0000_0000;
    }
  }

  /** The first descriptor whose blocks hold size bytes; 7 when there is none. */
  function DescFor(size: nat): (k: nat)
    ensures k <= 7 && (k < 7 ==> Descs()[k].blockSize >= size)
    ensures forall j :: 0 <= j < k ==> Descs()[j].blockSize < size
  {
    if size <= 16 then 0 else if size <= 32 then 1 else if size <= 64 then 2 else if size <= 128 then 3
    else if size <= 256 then 4 else if size <= 512 then 5 else if size <= 1024 then 6 else 7
  }

  /** When malloc returns a block: a free one is listed, or the pages for one are there. */
  ghost predicate CanServe(used: seq<bool>, lists: seq<seq<int>>, size: nat)
    requires |lists| == 7
  {
    size > 0 &&
    if DescFor(size) == 7 then PagesFor(size) > 0 && FirstRun(used, 0, PagesFor(size)) >= 0
    else lists[DescFor(size)] != [] || FirstRun(used, 0, 1) >= 0
  }

  /** How large a block malloc returns for a request. */
  function Granted(size: nat): int {
    if DescFor(size) == 7 then PGSIZE * PagesFor(size) - HEADER_SIZE else Descs()[DescFor(size)].blockSize
  }

  // ---------------------------------------------------------------- what stays

  ghost predicate InBlock(heads: seq<Header>, c: int, x: int) {
    0 <= PageOf(c) < |heads| && -1 <= heads[PageOf(c)].desc < 7 && c <= x < c + SizeOf(heads[PageOf(c)])
  }

  /** The bytes of these blocks are the same in both memories. */
  ghost predicate KeptBytes(mem: Bytes, mem': Bytes, heads: seq<Header>, blocks: set<int>) {
    |mem| == |mem'| &&
    forall c, x {:trigger InBlock(heads, c, x)} ::
      c in blocks && InBlock(heads, c, x) ==> 0 <= x < |mem| && mem'[x] == mem[x]
  }

  /** The arenas keep their kind and their size. */
  ghost predicate SameKinds(heads: seq<Header>, heads': seq<Header>, arenas: set<int>) {
    |heads| == |heads'| &&
    forall p :: p in arenas ==> 0 <= p < |heads| && -1 <= heads[p].desc < 7 && SameKind(heads[p], heads'[p])
  }

  ghost predicate SameKind(h: Header, h': Header) {
    h'.desc == h.desc && Span(h') == Span(h)
  }

  lemma KindsKept(used: seq<bool>, heads: seq<Header>, lists: seq<seq<int>>, arenas: set<int>, live: set<int>,
                  heads': seq<Header>)
    requires Sound(used, heads, lists, arenas, live) && |heads'| == |heads|
    requires forall p :: p in arenas && 0 <= p < |heads| ==> heads'[p] == heads[p] || SameKind(heads[p], heads'[p])
    ensures SameKinds(heads, heads', arenas)
  {
    forall p | p in arenas
      ensures 0 <= p < |heads| && -1 <= heads[p].desc < 7 && SameKind(heads[p], heads'[p])
    {
      assert ArenaOk(used, heads, p);
    }
  }

  /** No live block but b is on its page. */
  ghost predicate LastOnPage(live: set<int>, b: int) {
    forall c :: c in live && PageOf(c) == PageOf(b) ==> c == b
  }

  /** An arena's blocks are all free exactly when none of them is live. */
  lemma IdleMeansUnused(used: seq<bool>, heads: seq<Header>, lists: seq<seq<int>>, arenas: set<int>, live: set<int>,
                        p: int)
    requires Sound(used, heads, lists, arenas, live) && p in arenas
    ensures 0 <= p < |heads| && -1 <= heads[p].desc < 7
    ensures heads[p].desc >= 0 ==>
      (heads[p].freeCnt >= Descs()[heads[p].desc].perArena <==> forall c :: c in live ==> PageOf(c) != p)
  {
    FreeBound(used, heads, lists, arenas, live, p);
    assert CountOk(heads, lists, p);
    var k := heads[p].desc;
    if k >= 0 {
      if heads[p].freeCnt >= Descs()[k].perArena {
        AllListed(lists[k], p, k);
      } else if forall c :: c in live ==> PageOf(c) != p {
        var n := Descs()[k].perArena;
        forall i | 0 <= i < n
          ensures BlockAt(p, k, i) in FreeOf(lists[k], p)
        {
          var b := BlockAt(p, k, i);
          BlockToArenaInverts(p, k, i);
          assert IsBlock(b, k);
          assert !IsLive(heads, lists, arenas, b);
        }
        assert BlockSet(p, k, n) <= FreeOf(lists[k], p);
        BlockSetSize(p, k, n);
        SubsetSize(BlockSet(p, k, n), FreeOf(lists[k], p));
      }
    }
  }

  /** Writing inside one live block leaves the bytes of the others. */
  lemma OneBlockWritten(used: seq<bool>, heads: seq<Header>, lists: seq<seq<int>>, arenas: set<int>, live: set<int>,
                        b: int, mem: Bytes, mem': Bytes)
    requires Sound(used, heads, lists, arenas, live) && b in live && |mem| == |mem'| == PGSIZE * |heads|
    requires forall x :: 0 <= x < |mem| && !InBlock(heads, b, x) ==> mem'[x] == mem[x]
    ensures KeptBytes(mem, mem', heads, live - {b})
  {
    forall c, x {:trigger InBlock(heads, c, x)} | c in live - {b} && InBlock(heads, c, x)
      ensures 0 <= x < |mem| && mem'[x] == mem[x]
    {
      LiveInside(used, heads, lists, arenas, live, c);
      if b < c {
        LiveBlocksDisjoint(used, heads, lists, arenas, live, b, c);
      } else {
        LiveBlocksDisjoint(used, heads, lists, arenas, live, c, b);
      }
    }
  }

  /** Overwriting the pages of one arena leaves the live blocks of the others. */
  lemma PagesWritten(used: seq<bool>, heads: seq<Header>, lists: seq<seq<int>>, arenas: set<int>, live: set<int>,
                     p: int, mem: Bytes, mem': Bytes)
    requires Sound(used, heads, lists, arenas, live) && p in arenas && |mem| == |mem'| == PGSIZE * |heads|
    requires 0 <= p < |heads|
    requires forall x :: 0 <= x < |mem| && !(PGSIZE * p <= x < PGSIZE * (p + Span(heads[p]))) ==> mem'[x] == mem[x]
    ensures KeptBytes(mem, mem', heads, set c | c in live && PageOf(c) != p)
  {
    forall c, x {:trigger InBlock(heads, c, x)} | c in live && PageOf(c) != p && InBlock(heads, c, x)
      ensures 0 <= x < |mem| && mem'[x] == mem[x]
    {
      LiveInside(used, heads, lists, arenas, live, c);
    }
  }

  /** Freeing a block overwrites it or its whole page; the other live blocks keep their bytes. */
  lemma FreedBytes(used: seq<bool>, heads: seq<Header>, lists: seq<seq<int>>, arenas: set<int>, live: set<int>,
                   b: int, mem: Bytes, mem': Bytes)
    requires Sound(used, heads, lists, arenas, live) && b in live && |mem| == |mem'| == PGSIZE * |heads|
    requires 0 <= PageOf(b) < |heads|
    requires var p := PageOf(b);
             (forall x :: 0 <= x < |mem| && !InBlock(heads, b, x) ==> mem'[x] == mem[x]) ||
             (LastOnPage(live, b) &&
              forall x :: 0 <= x < |mem| && !(PGSIZE * p <= x < PGSIZE * (p + Span(heads[p]))) ==> mem'[x] == mem[x])
    ensures KeptBytes(mem, mem', heads, live - {b})
  {
    if forall x :: 0 <= x < |mem| && !InBlock(heads, b, x) ==> mem'[x] == mem[x] {
      OneBlockWritten(used, heads, lists, arenas, live, b, mem, mem');
    } else {
      assert IsLive(heads, lists, arenas, b);
      PagesWritten(used, heads, lists, arenas, live, PageOf(b), mem, mem');
      assert live - {b} == set c | c in live && PageOf(c) != PageOf(b);
    }
  }

  /** Nothing changes; null is no block. */
  lemma KeptSame(used: seq<bool>, heads: seq<Header>, lists: seq<seq<int>>, arenas: set<int>, live: set<int>,
                 mem: Bytes)
    requires Sound(used, heads, lists, arenas, live) && |mem| == PGSIZE * |heads|
    ensures KeptBytes(mem, mem, heads, live) && -1 !in live
  {
    forall c, x {:trigger InBlock(heads, c, x)} | c in live && InBlock(heads, c, x)
      ensures 0 <= x < |mem|
    {
      LiveInside(used, heads, lists, arenas, live, c);
    }
    assert !IsLive(heads, lists, arenas, -1) by {
      if -1 in live { LiveInside(used, heads, lists, arenas, live, -1); }
    }
  }

  /** A big block has its pages to itself. */
  lemma BigIsAlone(used: seq<bool>, heads: seq<Header>, lists: seq<seq<int>>, arenas: set<int>, live: set<int>, b: int)
    requires Sound(used, heads, lists, arenas, live) && b in live
    requires 0 <= PageOf(b) < |heads| && heads[PageOf(b)].desc == NO_DESC
    ensures LastOnPage(live, b)
  {
    forall c | c in live && PageOf(c) == PageOf(b)
      ensures c == b
    {
      assert IsLive(heads, lists, arenas, c) && IsLive(heads, lists, arenas, b);
    }
  }

  /** Bytes kept by two steps in a row, the first of which may have added blocks. */
  lemma KeptTwice(used: seq<bool>, heads: seq<Header>, lists: seq<seq<int>>, arenas: set<int>, live: set<int>,
                  heads1: seq<Header>, m0: Bytes, m1: Bytes, m2: Bytes, blocks: set<int>, more: set<int>)
    requires Sound(used, heads, lists, arenas, live) && blocks <= live && blocks <= more
    requires SameKinds(heads, heads1, arenas)
    requires KeptBytes(m0, m1, heads1, blocks) && KeptBytes(m1, m2, heads1, more)
    ensures KeptBytes(m0, m2, heads, blocks)
  {
    forall c, x {:trigger InBlock(heads, c, x)} | c in blocks && InBlock(heads, c, x)
      ensures 0 <= x < |m0| && m2[x] == m0[x]
    {
      assert IsLive(heads, lists, arenas, c);
      assert SameKind(heads[PageOf(c)], heads1[PageOf(c)]);
      assert InBlock(heads1, c, x);
    }
  }

  /** The n bytes that block b had are in block r. */
  ghost predicate Moved(m0: Bytes, m1: Bytes, b: int, r: int, n: int) {
    0 <= n && 0 <= b && b + n <= |m0| && 0 <= r && r + n <= |m1| && m1[r..r + n] == m0[b..b + n]
  }

  /** How much realloc copies out of a block with this header. */
  function CopySize(h: Header, newSize: int): int
    requires -1 <= h.desc < 7
  {
    if newSize < SizeOf(h) then newSize else SizeOf(h)
  }

  lemma CopySizeIs(h: Header, newSize: int)
    requires -1 <= h.desc < 7
    ensures newSize <= SizeOf(h) ==> CopySize(h, newSize) == newSize
    ensures newSize >= SizeOf(h) ==> CopySize(h, newSize) == SizeOf(h)
  {}

  /** What was moved into a kept block stays there. */
  lemma MovedKept(heads: seq<Header>, m0: Bytes, m1: Bytes, m2: Bytes, blocks: set<int>, b: int, r: int, n: int)
    requires Moved(m0, m1, b, r, n) && KeptBytes(m1, m2, heads, blocks) && r in blocks
    requires 0 <= PageOf(r) < |heads| && -1 <= heads[PageOf(r)].desc < 7 && n <= SizeOf(heads[PageOf(r)])
    ensures Moved(m0, m2, b, r, n)
  {
    KeptSlice(heads, m1, m2, blocks, r, n);
  }

  /** A slice of a kept block. */
  lemma KeptSlice(heads: seq<Header>, m0: Bytes, m1: Bytes, blocks: set<int>, b: int, n: nat)
    requires KeptBytes(m0, m1, heads, blocks) && b in blocks && 0 <= b && b + n <= |m0|
    requires 0 <= PageOf(b) < |heads| && -1 <= heads[PageOf(b)].desc < 7 && n <= SizeOf(heads[PageOf(b)])
    ensures m1[b..b + n] == m0[b..b + n]
  {
    var s0, s1 := m0[b..b + n], m1[b..b + n];
    forall j | 0 <= j < n
      ensures s1[j] == s0[j]
    {
      assert InBlock(heads, b, b + j);
    }
  }
}
