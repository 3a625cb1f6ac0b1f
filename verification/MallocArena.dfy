/** threads/malloc.c, with the page pool of threads/palloc.c that it draws on. */
module MallocArena {
  import opened Sequences
  import opened ByteTypes
  import opened Bitmap
  import opened ArenaModel

  const NULL := -1

  class Allocator {
    const used: array<bool>          // the pool's used_map
    const heads: array<Header>       // the arena header at the start of each page
    const mem: array<Byte>           // the bytes of the pool
    var descs: seq<Desc>
    var lists: seq<seq<int>>         // each descriptor's free_list
    ghost var arenas: set<int>       // the pages at which an arena starts
    ghost var live: set<int>         // the blocks that callers hold

    ghost predicate Shape()
      reads this
    {
      used.Length == heads.Length && mem.Length == PGSIZE * heads.Length && descs == Descs() && |lists| == 7
    }

    ghost predicate Valid()
      reads this, used, heads
    {
      Shape() && Sound(used[..], heads[..], lists, arenas, live) && NoIdle(heads[..], arenas)
    }

    /** malloc_init, on a pool some pages of which are taken. */
    constructor (taken: seq<bool>)
      ensures Valid() && live == {} && used[..] == taken
      ensures fresh(used) && fresh(heads) && fresh(mem)
    {
      used := new bool[|taken|](i requires 0 <= i < |taken| => taken[i]);
      heads := new Header[|taken|](_ => Header(0, 0, 0));
      mem := new Byte[PGSIZE * |taken|](_ => 0);
      descs := [];
      lists := [];
      arenas, live := {}, {};
      new;
      var blockSize := 16;
      while blockSize < PGSIZE / 2
        invariant |descs| == |lists| <= 7 && descs == Descs()[..|descs|]
        invariant blockSize == if |descs| < 7 then Descs()[|descs|].blockSize else 2048
        invariant forall k :: 0 <= k < |lists| ==> lists[k] == []
        invariant arenas == {} && live == {} && used[..] == taken
        decreases 7 - |descs|
      {
        assert |descs| + 1 <= 10;
        descs := descs + [Desc(blockSize, (PGSIZE - HEADER_SIZE) / blockSize)];
        lists := lists + [[]];
        blockSize := blockSize * 2;
      }
      EmptySound(used[..], heads[..], lists);
    }

    lemma EmptySound(u: seq<bool>, h: seq<Header>, l: seq<seq<int>>)
      requires |u| == |h| && |l| == 7 && forall k :: 0 <= k < 7 ==> l[k] == []
      ensures Sound(u, h, l, {}, {})
    {}

    // ------------------------------------------------------------ pages

    /** palloc_get_multiple. */
    method GetMultiple(cnt: nat) returns (page: int)
      modifies used
      ensures page == if cnt == 0 then NULL else FirstRun(old(used[..]), 0, cnt)
      ensures used[..] == if page >= 0 then SetRun(old(used[..]), page, cnt, true) else old(used[..])
    {
      if cnt == 0 {
        return NULL;
      }
      page := Scan(used, cnt);
      if page != -1 {
        SetMultiple(used, page, cnt, true);
      }
    }

    /** palloc_free_multiple.  Its assertion about the bitmap is the precondition; the pages
        are overwritten with 0xcc. */
    method FreeMultiple(page: int, cnt: nat)
      requires Shape() && cnt >= 1 && UsedRun(used[..], page, cnt)
      modifies used, heads, mem
      ensures used[..] == SetRun(old(used[..]), page, cnt, false)
      ensures forall q :: 0 <= q < heads.Length && !(page <= q < page + cnt) ==> heads[q] == old(heads[q])
      ensures forall x :: 0 <= x < mem.Length && !(PGSIZE * page <= x < PGSIZE * (page + cnt)) ==> mem[x] == old(mem[x])
    {
      Fill(PGSIZE * page, PGSIZE * cnt);
      for i := 0 to cnt
        modifies heads
        invariant forall q :: 0 <= q < heads.Length && !(page <= q < page + cnt) ==> heads[q] == old(heads[q])
      {
        heads[page + i] := Header(0xCCCC_CCCC, 0xCCCC_CCCC, 0xCCCC_CCCC);
      }
      SetMultiple(used, page, cnt, false);
    }

    /** memset (start, 0xcc, cnt). */
    method Fill(start: nat, cnt: nat)
      requires start + cnt <= mem.Length
      modifies mem
      ensures forall x :: 0 <= x < mem.Length ==> mem[x] == if start <= x < start + cnt then 0xCC else old(mem[x])
    {
      for i := 0 to cnt
        invariant forall x :: 0 <= x < mem.Length ==> mem[x] == if start <= x < start + i then 0xCC else old(mem[x])
      {
        mem[start + i] := 0xCC;
      }
    }

    // ------------------------------------------------------------ blocks and arenas

    /** b is on a live arena's page, where a block of that arena starts. */
    ghost predicate Genuine(b: int)
      reads this, used, heads
    {
      Shape() && ArenaOk(used[..], heads[..], PageOf(b)) &&
      var k := heads[PageOf(b)].desc;
      if k == NO_DESC then b == PGSIZE * PageOf(b) + HEADER_SIZE else IsBlock(b, k)
    }

    /** block_to_arena, with its assertions. */
    method BlockToArena(b: int) returns (p: nat)
      requires Genuine(b)
      ensures p == PageOf(b) && p < heads.Length
    {
      p := b / PGSIZE;
      var h := heads[p];
      assert h.magic == ARENA_MAGIC;
      if h.desc != NO_DESC {
        AssertionAccepts(b, h.desc);
      }
      assert h.desc == NO_DESC || (b % PGSIZE - HEADER_SIZE) % descs[h.desc].blockSize == 0;
      assert h.desc != NO_DESC || b % PGSIZE == HEADER_SIZE;
    }

    /** arena_to_block, with its assertions. */
    method ArenaToBlock(p: nat, idx: nat) returns (b: int)
      requires Shape() && p < heads.Length && heads[p].magic == ARENA_MAGIC
      requires 0 <= heads[p].desc < 7 && idx < Descs()[heads[p].desc].perArena
      ensures b == BlockAt(p, heads[p].desc, idx)
    {
      var h := heads[p];
      assert h.magic == ARENA_MAGIC && idx < descs[h.desc].perArena;
      b := PGSIZE * p + HEADER_SIZE + idx * descs[h.desc].blockSize;
    }

    lemma LiveIsGenuine(b: int)
      requires Shape() && Sound(used[..], heads[..], lists, arenas, live) && b in live
      ensures Genuine(b) && PageOf(b) in arenas
    {
      assert IsLive(heads[..], lists, arenas, b);
      assert ArenaOk(used[..], heads[..], PageOf(b));
    }

    /** block_size. */
    method BlockSize(b: int) returns (n: int)
      requires Valid() && b in live
      ensures 0 <= PageOf(b) < heads.Length && -1 <= heads[PageOf(b)].desc < 7
      ensures n == SizeOf(heads[PageOf(b)]) > 0
    {
      LiveIsGenuine(b);
      LiveInside(used[..], heads[..], lists, arenas, live, b);
      var p := BlockToArena(b);
      n := if heads[p].desc != NO_DESC then descs[heads[p].desc].blockSize
           else PGSIZE * heads[p].freeCnt - b % PGSIZE;
    }

    // ------------------------------------------------------------ malloc

    /** Every arena but perhaps the one on page p has a block in use. */
    ghost predicate NoIdleBut(p: int)
      reads this, heads
    {
      forall q :: q in arenas && q != p ==> 0 <= q < heads.Length && Working(heads[q])
    }

    /** The blocks of the new arena on page p are added to the list in order. */
    method ListBlocks(p: nat, k: nat)
      requires Shape() && |lists| == 7 && k < 7 && lists[k] == []
      requires p < heads.Length && heads[p].magic == ARENA_MAGIC && heads[p].desc == k
      modifies this`lists
      ensures lists == old(lists)[k := BlockList(p, k, Descs()[k].perArena)]
    {
      hide Descs;
      var i := 0;
      while i < descs[k].perArena
        invariant 0 <= i <= descs[k].perArena
        invariant lists == old(lists)[k := BlockList(p, k, i)]
      {
        var b := ArenaToBlock(p, i);
        lists := lists[k := lists[k] + [b]];
        assert lists[k] == BlockList(p, k, i + 1);
        i := i + 1;
      }
    }

    /** The part of malloc that makes a new arena for descriptor k. */
    method NewArena(k: nat) returns (ok: bool)
      requires Valid() && k < 7 && lists[k] == []
      modifies this`lists, this`arenas, used, heads
      ensures ok <==> FirstRun(old(used[..]), 0, 1) >= 0
      ensures Shape() && Sound(used[..], heads[..], lists, arenas, live)
      ensures SameKinds(old(heads[..]), heads[..], old(arenas)) && old(arenas) <= arenas
      ensures ok ==>
              lists[k] != [] && NoIdleBut(PageOf(lists[k][0])) && PageOf(lists[k][0]) == FirstRun(old(used[..]), 0, 1)
      ensures ok ==> used[..] == SetRun(old(used[..]), FirstRun(old(used[..]), 0, 1), 1, true)
      ensures !ok ==>
              lists == old(lists) && used[..] == old(used[..]) && heads[..] == old(heads[..]) && arenas == old(arenas)
    {
      hide Descs, Sound, SameKinds, BlockList;
      ghost var used0, heads0, lists0 := used[..], heads[..], lists;
      var p := GetMultiple(1);
      KindsKept(used0, heads0, lists0, arenas, live, heads0);
      if p == NULL {
        return false;
      }
      heads[p] := Header(ARENA_MAGIC, k, descs[k].perArena);
      assert heads[..] == heads0[p := Header(ARENA_MAGIC, k, Descs()[k].perArena)];
      ListBlocks(p, k);
      AddSmall(used0, heads0, lists0, arenas, live, p, k);
      KindsKept(used0, heads0, lists0, arenas, live, heads[..]);
      arenas := arenas + {p};
      FirstListed(p, k);
      ok := true;
    }

    lemma FirstListed(p: int, k: int)
      requires 0 <= k < 7
      ensures var list := BlockList(p, k, Descs()[k].perArena);
              list != [] && PageOf(list[0]) == p
    {
      BlockToArenaInverts(p, k, 0);
    }

    /** malloc's request for a block larger than any descriptor's. */
    method MallocBig(size: nat) returns (r: int)
      requires Valid() && size < 0x1_0000_0000
      modifies this`arenas, this`live, used, heads
      ensures Valid()
      ensures r != NULL <==> PagesFor(size) > 0 && FirstRun(old(used[..]), 0, PagesFor(size)) >= 0
      ensures r != NULL ==>
        r !in old(live) && live == old(live) + {r} && old(arenas) <= arenas && PageOf(r) in arenas &&
        0 <= PageOf(r) < heads.Length && heads[PageOf(r)].desc == NO_DESC &&
        SizeOf(heads[PageOf(r)]) == PGSIZE * PagesFor(size) - HEADER_SIZE
      ensures r != NULL ==>
        PageOf(r) == FirstRun(old(used[..]), 0, PagesFor(size)) &&
        used[..] == SetRun(old(used[..]), PageOf(r), PagesFor(size), true)
      ensures SameKinds(old(heads[..]), heads[..], old(arenas))
      ensures r == NULL ==>
              live == old(live) && arenas == old(arenas) && used[..] == old(used[..]) && heads[..] == old(heads[..])
    {
      ghost var used0, heads0 := used[..], heads[..];
      KindsKept(used0, heads0, lists, arenas, live, heads0);
      var pageCnt := PagesFor(size);
      var p := GetMultiple(pageCnt);
      if p == NULL {
        return NULL;
      }
      AddBig(used0, heads0, lists, arenas, live, p, pageCnt);
      heads[p] := Header(ARENA_MAGIC, NO_DESC, pageCnt);
      r := PGSIZE * p + HEADER_SIZE;
      assert heads[..] == heads0[p := Header(ARENA_MAGIC, NO_DESC, pageCnt)];
      KindsKept(used0, heads0, lists, arenas, live, heads[..]);
      arenas, live := arenas + {p}, live + {r};
    }

    /** The end of malloc: the first block on the list is handed out. */
    method TakeFront(k: nat) returns (b: int)
      requires Shape() && Sound(used[..], heads[..], lists, arenas, live) && k < 7 && lists[k] != []
      requires NoIdleBut(PageOf(lists[k][0]))
      modifies this`lists, this`live, heads
      ensures Valid() && b !in old(live) && live == old(live) + {b} && PageOf(b) in arenas && b != NULL
      ensures b == old(lists)[k][0] && lists == old(lists)[k := old(lists)[k][1..]]
      ensures 0 <= PageOf(b) < heads.Length && heads[PageOf(b)].desc == k
      ensures SameKinds(old(heads[..]), heads[..], arenas)
    {
      ghost var used0, heads0, lists0 := used[..], heads[..], lists;
      b := lists[k][0];
      TakeBlock(used0, heads0, lists0, arenas, live, k);
      FreeBound(used0, heads0, lists0, arenas, live, PageOf(b));
      assert Genuine(b) by { assert ArenaOk(used0, heads0, PageOf(b)); }
      lists := lists[k := lists[k][1..]];
      var p := BlockToArena(b);
      heads[p] := heads[p].(freeCnt := heads[p].freeCnt - 1);
      assert heads[..] == heads0[p := heads0[p].(freeCnt := heads0[p].freeCnt - 1)];
      KindsKept(used0, heads0, lists0, arenas, live, heads[..]);
      live := live + {b};
    }

    /** The first cnt free pages in a row, from page p on, have been taken, and no others. */
    static ghost predicate NewPages(was: seq<bool>, now: seq<bool>, p: int, cnt: nat) {
      p == FirstRun(was, 0, cnt) && 0 <= p && p + cnt <= |was| && now == SetRun(was, p, cnt, true)
    }

    /** malloc: a block that was not held and is as large as its size class says, exactly
        when one can be served. */
    method Malloc(size: nat) returns (r: int)
      requires Valid() && size < 0x1_0000_0000
      modifies this`lists, this`arenas, this`live, used, heads
      ensures Valid()
      ensures r != NULL <==> CanServe(old(used[..]), old(lists), size)
      ensures r != NULL ==>
        r !in old(live) && live == old(live) + {r} &&
        0 <= PageOf(r) < heads.Length && -1 <= heads[PageOf(r)].desc < 7 && SizeOf(heads[PageOf(r)]) == Granted(size)
      ensures r != NULL && DescFor(size) < 7 && old(lists)[DescFor(size)] != [] ==>
        var k := DescFor(size);
        r == old(lists)[k][0] && lists == old(lists)[k := old(lists)[k][1..]] && used[..] == old(used[..])
      ensures r != NULL && (DescFor(size) == 7 || old(lists)[DescFor(size)] == []) ==>
        NewPages(old(used[..]), used[..], PageOf(r), if DescFor(size) == 7 then PagesFor(size) else 1)
      ensures old(arenas) <= arenas && SameKinds(old(heads[..]), heads[..], old(arenas))
      ensures r == NULL ==>
        live == old(live) && arenas == old(arenas) && lists == old(lists) && used[..] == old(used[..]) &&
        heads[..] == old(heads[..])
    {
      KindsKept(used[..], heads[..], lists, arenas, live, heads[..]);
      if size == 0 {
        return NULL;
      }
      var k := 0;
      while k < |descs|
        invariant 0 <= k <= 7 && forall j :: 0 <= j < k ==> Descs()[j].blockSize < size
      {
        if descs[k].blockSize >= size {
          break;
        }
        k := k + 1;
      }
      assert k == DescFor(size);
      if k == |descs| {
        r := MallocBig(size);
        return;
      }
      if lists[k] == [] {
        var ok := NewArena(k);
        if !ok {
          return NULL;
        }
      }
      ghost var heads1 := heads[..];
      r := TakeFront(k);
      KindsChain(old(heads[..]), heads1, heads[..], old(arenas), arenas);
    }

    lemma KindsChain(h0: seq<Header>, h1: seq<Header>, h2: seq<Header>, a0: set<int>, a1: set<int>)
      requires SameKinds(h0, h1, a0) && SameKinds(h1, h2, a1) && a0 <= a1
      ensures SameKinds(h0, h2, a0)
    {}

    // ------------------------------------------------------------ free

    /** free's list_push_front and count. */
    method PushFront(b: int, p: nat, k: nat)
      requires Shape() && Sound(used[..], heads[..], lists, arenas, live) && b in live && p == PageOf(b)
      requires p < heads.Length && heads[p].desc == k < 7
      modifies this`lists, this`live, heads
      ensures Shape() && Sound(used[..], heads[..], lists, arenas, live) && live == old(live) - {b}
      ensures lists == old(lists)[k := [b] + old(lists)[k]]
      ensures heads[..] == old(heads[..])[p := old(heads[p]).(freeCnt := old(heads[p].freeCnt) + 1)]
    {
      GiveBlock(used[..], heads[..], lists, arenas, live, b);
      hide Sound;
      ghost var heads0 := heads[..];
      lists := lists[k := [b] + lists[k]];
      heads[p] := heads[p].(freeCnt := heads[p].freeCnt + 1);
      assert heads[..] == heads0[p := heads0[p].(freeCnt := heads0[p].freeCnt + 1)];
      live := live - {b};
    }

    /** Every block of the arena on page p is taken off the list. */
    method RemoveBlocks(p: nat, k: nat)
      requires Shape() && k < 7 && p < heads.Length && heads[p].magic == ARENA_MAGIC && heads[p].desc == k
      requires Distinct(lists[k]) && FreeOf(lists[k], p) == BlockSet(p, k, Descs()[k].perArena)
      modifies this`lists
      ensures lists == old(lists)[k := Without(old(lists[k]), BlockSet(p, k, Descs()[k].perArena))]
    {
      ghost var list := lists[k];
      WithoutNone(list);
      assert BlockSet(p, k, 0) == {};
      hide *;
      var i := 0;
      while i < descs[k].perArena
        modifies this`lists
        invariant Shape() && 0 <= i <= Descs()[k].perArena && descs == Descs()
        invariant lists == old(lists)[k := Without(list, BlockSet(p, k, i))]
      {
        RemoveBlock(p, k, i, list);
        i := i + 1;
      }
    }

    /** The list_remove of block i, the earlier ones being off the list. */
    method RemoveBlock(p: nat, k: nat, i: nat, ghost list: seq<int>)
      requires Shape() && k < 7 && p < heads.Length && heads[p].magic == ARENA_MAGIC && heads[p].desc == k
      requires i < Descs()[k].perArena && Distinct(list) && FreeOf(list, p) == BlockSet(p, k, Descs()[k].perArena)
      requires |lists| == 7 && lists[k] == Without(list, BlockSet(p, k, i))
      modifies this`lists
      ensures Shape() && lists == old(lists)[k := Without(list, BlockSet(p, k, i + 1))]
    {
      hide Descs, Distinct, Without, BlockSet, FreeOf, ListRemove, BlockAt;
      var b := ArenaToBlock(p, i);
      NextBlock(list, p, k, i);
      lists := lists[k := ListRemove(lists[k], b)];
    }

    lemma NextBlock(list: seq<int>, p: int, k: int, i: nat)
      requires 0 <= k < 7 && i < Descs()[k].perArena && Distinct(list)
      requires FreeOf(list, p) == BlockSet(p, k, Descs()[k].perArena)
      ensures var b, gone := BlockAt(p, k, i), BlockSet(p, k, i);
              b in Without(list, gone) && ListRemove(Without(list, gone), b) == Without(list, BlockSet(p, k, i + 1))
    {
      var b, gone := BlockAt(p, k, i), BlockSet(p, k, i);
      forall j | 0 <= j < i
        ensures BlockAt(p, k, j) != b
      {
        BlocksApart(p, k, j, i);
      }
      assert b in FreeOf(list, p);
      RemoveIsWithout(list, gone, b);
      assert BlockSet(p, k, i + 1) == gone + {b};
    }

    /** The arena on page p, all of whose blocks are free, goes back to the page pool. */
    method DropArena(p: nat, k: nat)
      requires Shape() && Sound(used[..], heads[..], lists, arenas, live) && NoIdleBut(p) && p in arenas
      requires p < heads.Length && heads[p].desc == k < 7 && heads[p].freeCnt == Descs()[k].perArena
      modifies this`lists, this`arenas, used, heads, mem
      ensures Valid() && arenas == old(arenas) - {p}
      ensures used[..] == SetRun(old(used[..]), p, 1, false)
      ensures SameKinds(old(heads[..]), heads[..], arenas)
      ensures forall x :: 0 <= x < mem.Length && !(PGSIZE * p <= x < PGSIZE * (p + 1)) ==> mem[x] == old(mem[x])
    {
      ghost var used0, heads0, lists0 := used[..], heads[..], lists;
      FreeBound(used0, heads0, lists0, arenas, live, p);
      assert ArenaOk(used0, heads0, p);
      RemoveBlocks(p, k);
      FreeMultiple(p, 1);
      ghost var heads1 := heads[..];
      assert forall q :: 0 <= q < |heads0| && q != p ==> heads1[q] == heads0[q];
      DropSmall(used0, heads0, lists0, arenas, live, p, heads1);
      hide Sound;
      arenas := arenas - {p};
      SoundLess(used[..], heads1, lists, arenas, live, heads0);
    }

    lemma SoundLess(u: seq<bool>, h: seq<Header>, l: seq<seq<int>>, a: set<int>, v: set<int>, h0: seq<Header>)
      requires Sound(u, h, l, a, v) && |h0| == |h| && forall q :: q in a && 0 <= q < |h| ==> h0[q] == h[q]
      ensures SameKinds(h0, h, a)
    {
      forall q | q in a
        ensures 0 <= q < |h| && -1 <= h[q].desc < 7
      {
        assert ArenaOk(u, h, q);
      }
    }

    /** free, for a block of a small arena. */
    method FreeSmall(b: int, p: nat)
      requires Valid() && b in live && p == PageOf(b) && p < heads.Length && 0 <= heads[p].desc < 7
      modifies this`lists, this`arenas, this`live, used, heads, mem
      ensures Valid() && live == old(live) - {b}
      ensures arenas == if LastOnPage(old(live), b) then old(arenas) - {p} else old(arenas)
      ensures used[..] == if LastOnPage(old(live), b) then SetRun(old(used[..]), p, 1, false) else old(used[..])
      ensures !LastOnPage(old(live), b) ==>
              lists == old(lists)[old(heads[p].desc) := [b] + old(lists)[old(heads[p].desc)]]
      ensures SameKinds(old(heads[..]), heads[..], arenas)
      ensures KeptBytes(old(mem[..]), mem[..], old(heads[..]), live)
    {
      ghost var used0, heads0, lists0, live0, mem0 := used[..], heads[..], lists, live, mem[..];
      LiveInside(used0, heads0, lists0, arenas, live0, b);
      hide Sound, LastOnPage, InBlock;
      var k := heads[p].desc;
      Fill(b, descs[k].blockSize);
      PushFront(b, p, k);
      IdleMeansUnused(used[..], heads[..], lists, arenas, live, p);
      FreeBound(used[..], heads[..], lists, arenas, live, p);
      ghost var heads1 := heads[..];
      KindsKept(used0, heads0, lists0, arenas, live0, heads1);
      LastMeans(live0, b);
      if heads[p].freeCnt >= descs[k].perArena {
        assert heads[p].freeCnt == descs[k].perArena;
        DropArena(p, k);
        KindsChain(heads0, heads1, heads[..], arenas, arenas);
      }
      FreedBytes(used0, heads0, lists0, old(arenas), live0, b, mem0, mem[..]);
    }

    lemma LastMeans(v: set<int>, b: int)
      ensures LastOnPage(v, b) <==> forall c :: c in v - {b} ==> PageOf(c) != PageOf(b)
    {}

    /** free, for a big block: its pages go back. */
    method FreeBig(b: int, p: nat)
      requires Valid() && b in live && p == PageOf(b) && p < heads.Length && heads[p].desc == NO_DESC
      modifies this`arenas, this`live, used, heads, mem
      ensures Valid() && live == old(live) - {b} && arenas == old(arenas) - {p} && LastOnPage(old(live), b)
      ensures old(heads[p].freeCnt) >= 1 && p + old(heads[p].freeCnt) <= used.Length
      ensures used[..] == SetRun(old(used[..]), p, old(heads[p].freeCnt), false)
      ensures SameKinds(old(heads[..]), heads[..], arenas)
      ensures KeptBytes(old(mem[..]), mem[..], old(heads[..]), live)
    {
      ghost var used0, heads0, live0, mem0 := used[..], heads[..], live, mem[..];
      BigIsAlone(used0, heads0, lists, arenas, live, b);
      DropBig(used0, heads0, lists, arenas, live, b, heads0);
      FreeMultiple(p, heads[p].freeCnt);
      DropBig(used0, heads0, lists, arenas, live, b, heads[..]);
      FreedBytes(used0, heads0, lists, arenas, live0, b, mem0, mem[..]);
      hide Sound;
      arenas, live := arenas - {p}, live - {b};
      SoundLess(used[..], heads[..], lists, arenas, live, heads0);
    }

    /** free: the block is no longer held, the other blocks keep their bytes, and the pages
        go back exactly when the last block on them is freed. */
    method Free(b: int)
      requires Valid() && (b == NULL || b in live)
      modifies this`lists, this`arenas, this`live, used, heads, mem
      ensures Valid() && live == old(live) - {b}
      ensures b != NULL ==> 0 <= PageOf(b) < heads.Length && -1 <= old(heads[PageOf(b)].desc) < 7
      ensures arenas == if b != NULL && LastOnPage(old(live), b) then old(arenas) - {PageOf(b)} else old(arenas)
      ensures b != NULL ==> 0 < Span(old(heads[PageOf(b)])) && PageOf(b) + Span(old(heads[PageOf(b)])) <= used.Length
      ensures used[..] == if b != NULL && LastOnPage(old(live), b)
                          then SetRun(old(used[..]), PageOf(b), Span(old(heads[PageOf(b)])), false) else old(used[..])
      ensures b != NULL && !LastOnPage(old(live), b) ==>
        var k := old(heads[PageOf(b)].desc);
        0 <= k && lists == old(lists)[k := [b] + old(lists)[k]]
      ensures SameKinds(old(heads[..]), heads[..], arenas)
      ensures KeptBytes(old(mem[..]), mem[..], old(heads[..]), live)
    {
      KindsKept(used[..], heads[..], lists, arenas, live, heads[..]);
      KeptSame(used[..], heads[..], lists, arenas, live, mem[..]);
      hide Sound, LastOnPage, InBlock;
      if b != NULL {
        LiveIsGenuine(b);
        LiveInside(used[..], heads[..], lists, arenas, live, b);
        var p := BlockToArena(b);
        if heads[p].desc != NO_DESC {
          FreeSmall(b, p);
        } else {
          FreeBig(b, p);
        }
      }
    }

    // ------------------------------------------------------------ realloc

    /** memcpy between places that do not overlap. */
    method Copy(dst: nat, src: nat, n: nat)
      requires dst + n <= mem.Length && src + n <= mem.Length && (dst + n <= src || src + n <= dst)
      modifies mem
      ensures mem[dst..dst + n] == old(mem[src..src + n])
      ensures forall x :: 0 <= x < mem.Length && !(dst <= x < dst + n) ==> mem[x] == old(mem[x])
    {
      for i := 0 to n
        invariant forall x :: 0 <= x < mem.Length ==>
          mem[x] == if dst <= x < dst + i then old(mem[src + (x - dst)]) else old(mem[x])
      {
        mem[dst + i] := mem[src + i];
      }
      ghost var was, now := old(mem[src..src + n]), mem[dst..dst + n];
      assert forall j :: 0 <= j < n ==> now[j] == mem[dst + j] && was[j] == old(mem[src + j]);
    }

    /** realloc's memcpy: the front of block b into block r. */
    method CopyFront(b: int, r: int, newSize: nat)
      requires Valid() && b in live && r in live && b != r
      requires 0 <= PageOf(b) < heads.Length && -1 <= heads[PageOf(b)].desc < 7
      requires 0 <= PageOf(r) < heads.Length && -1 <= heads[PageOf(r)].desc < 7
      requires CopySize(heads[PageOf(b)], newSize) <= SizeOf(heads[PageOf(r)])
      modifies mem
      ensures Moved(old(mem[..]), mem[..], b, r, CopySize(heads[PageOf(b)], newSize))
      ensures KeptBytes(old(mem[..]), mem[..], heads[..], live - {r})
    {
      hide Sound, NoIdle;
      ghost var m0 := mem[..];
      var oldSize := BlockSize(b);
      var minSize := if newSize < oldSize then newSize else oldSize;
      BothInside(b, r);
      Copy(r, b, minSize);
      CopiedKeeps(r, minSize, m0, mem[..]);
    }

    /** realloc's move: the front of block b is copied into the new block r, then b is freed. */
    method Move(b: int, r: int, newSize: nat)
      requires Valid() && b in live && r in live && b != r
      requires 0 <= PageOf(b) < heads.Length && -1 <= heads[PageOf(b)].desc < 7
      requires 0 <= PageOf(r) < heads.Length && -1 <= heads[PageOf(r)].desc < 7
      requires CopySize(heads[PageOf(b)], newSize) <= SizeOf(heads[PageOf(r)])
      modifies this`lists, this`arenas, this`live, used, heads, mem
      ensures Valid() && live == old(live) - {b} && SameKinds(old(heads[..]), heads[..], arenas)
      ensures Moved(old(mem[..]), mem[..], b, r, old(CopySize(heads[PageOf(b)], newSize)))
      ensures KeptBytes(old(mem[..]), mem[..], old(heads[..]), live - {r})
    {
      ghost var heads0, live0, m0 := heads[..], live, mem[..];
      ghost var used0, lists0, arenas0 := used[..], lists, arenas;
      ghost var n := CopySize(heads[PageOf(b)], newSize);
      KindsKept(used0, heads0, lists0, arenas0, live0, heads0);
      hide *;
      CopyFront(b, r, newSize);
      ghost var m1 := mem[..];
      Free(b);
      KeptTwice(used0, heads0, lists0, arenas0, live0, heads0, m0, m1, mem[..], live0 - {b} - {r}, live0 - {b});
      MovedKept(heads0, m0, m1, mem[..], live0 - {b}, b, r, n);
      assert live0 - {b} - {r} == live - {r};
    }

    /** Two live blocks are in memory and apart. */
    lemma BothInside(b: int, r: int)
      requires Valid() && b in live && r in live && b != r
      ensures 0 <= PageOf(b) < heads.Length && -1 <= heads[PageOf(b)].desc < 7
      ensures 0 <= PageOf(r) < heads.Length && -1 <= heads[PageOf(r)].desc < 7
      ensures var m, n := SizeOf(heads[PageOf(b)]), SizeOf(heads[PageOf(r)]);
              0 < m && 0 < n && 0 <= b && b + m <= mem.Length && 0 <= r && r + n <= mem.Length &&
              (b + m <= r || r + n <= b)
    {
      LiveInside(used[..], heads[..], lists, arenas, live, b);
      LiveInside(used[..], heads[..], lists, arenas, live, r);
      if b < r {
        LiveBlocksDisjoint(used[..], heads[..], lists, arenas, live, b, r);
      } else {
        LiveBlocksDisjoint(used[..], heads[..], lists, arenas, live, r, b);
      }
    }

    lemma CopiedKeeps(r: int, n: int, m0: Bytes, m1: Bytes)
      requires Valid() && r in live && |m0| == |m1| == mem.Length
      requires 0 <= PageOf(r) < heads.Length && -1 <= heads[PageOf(r)].desc < 7 && n <= SizeOf(heads[PageOf(r)])
      requires forall x :: 0 <= x < |m0| && !(r <= x < r + n) ==> m1[x] == m0[x]
      ensures KeptBytes(m0, m1, heads[..], live - {r})
    {
      OneBlockWritten(used[..], heads[..], lists, arenas, live, r, m0, m1);
    }

    /** realloc.  The precondition is needed only for the eleven sizes for which malloc's
        block is too small: then the old block must not hold more than the new one. */
    method Realloc(b: int, newSize: nat) returns (r: int)
      requires Valid() && newSize < 0x1_0000_0000 && (b == NULL || b in live)
      requires newSize > 0xFFFF_FFF4 && b != NULL ==>
        0 <= PageOf(b) < heads.Length && -1 <= heads[PageOf(b)].desc < 7 && SizeOf(heads[PageOf(b)]) <= Granted(newSize)
      modifies this`lists, this`arenas, this`live, used, heads, mem
      ensures Valid()
      ensures newSize == 0 ==> r == NULL && live == old(live) - {b}
      ensures newSize > 0 ==> (r != NULL <==> CanServe(old(used[..]), old(lists), newSize))
      ensures newSize > 0 ==> live == if r == NULL then old(live) else old(live) - {b} + {r}
      ensures r != NULL ==> r !in old(live)
      ensures b != NULL ==> 0 <= PageOf(b) < heads.Length && -1 <= old(heads[PageOf(b)].desc) < 7
      ensures r != NULL && b != NULL ==>
        var oldSize := SizeOf(old(heads[PageOf(b)]));
        (newSize <= oldSize ==> Moved(old(mem[..]), mem[..], b, r, newSize)) &&
        (newSize >= oldSize ==> Moved(old(mem[..]), mem[..], b, r, oldSize))
      ensures KeptBytes(old(mem[..]), mem[..], old(heads[..]),
                        if newSize > 0 && r == NULL then old(live) else old(live) - {b})
    {
      ghost var used0, heads0, lists0, arenas0, live0, m0 := used[..], heads[..], lists, arenas, live, mem[..];
      KeptSame(used0, heads0, lists0, arenas0, live0, m0);
      if newSize == 0 {
        hide *;
        Free(b);
        return NULL;
      }
      if b != NULL { LiveInside(used0, heads0, lists0, arenas0, live0, b); }
      GrantedEnough(newSize);
      r := Malloc(newSize);
      if b != NULL && r != NULL {
        ghost var heads1 := heads[..];
        SizesAgree(heads0, heads1, arenas0, b);
        KeptSame(used[..], heads1, lists, arenas, live, m0);
        hide *;
        Move(b, r, newSize);
        CopySizeIs(heads0[PageOf(b)], newSize);
        KeptTwice(used0, heads0, lists0, arenas0, live0, heads1, m0, m0, mem[..], live0 - {b}, live0 - {b});
      }
    }

    lemma SizesAgree(h0: seq<Header>, h1: seq<Header>, a: set<int>, b: int)
      requires SameKinds(h0, h1, a) && PageOf(b) in a
      ensures 0 <= PageOf(b) < |h0| == |h1| && -1 <= h0[PageOf(b)].desc < 7 && -1 <= h1[PageOf(b)].desc < 7
      ensures SizeOf(h1[PageOf(b)]) == SizeOf(h0[PageOf(b)])
    {
      assert SameKind(h0[PageOf(b)], h1[PageOf(b)]);
    }

    /** malloc's block is large enough, except for the eleven largest requests. */
    lemma GrantedEnough(size: nat)
      requires size < 0x1_0000_0000
      ensures size <= 0xFFFF_FFF4 && (DescFor(size) == 7 ==> PagesFor(size) >= 1) ==> Granted(size) >= size
      ensures size > 0xFFFF_FFF4 ==> Granted(size) < size
    {
      if PagesFor(size) >= 1 { PagesEnough(size); }
    }
  }

  /** With a page free, each of the eleven largest requests gets a block of 4084 bytes. */
  method MallocOversize(taken: seq<bool>, size: nat) returns (r: int, blockSize: int)
    requires 0xFFFF_FFF4 < size < 0x1_0000_0000 && false in taken
    ensures r != NULL && blockSize == 4084
  {
    var a := new Allocator(taken);
    PagesWrap(size);
    var f :| 0 <= f < |taken| && !taken[f];
    if FirstRun(taken, 0, 1) < 0 { NoRun(taken, 0, 1, f); }
    hide *;
    r := a.Malloc(size);
    blockSize := a.BlockSize(r);
  }

  lemma PagesWrap(size: nat)
    requires 0xFFFF_FFF4 < size < 0x1_0000_0000
    ensures DescFor(size) == 7 && PagesFor(size) == 1 && Granted(size) == 4084
  {}
}
