/** userprog/pagedir.c with the helpers of threads/pte.h and threads/vaddr.h: a two-level
    page table in physical memory against a map from user pages to frames. */
module PageDir {
  import opened Bitmap

  const PGSIZE := 4096
  const PHYS_BASE := 0xC000_0000
  const USER_PDES := 768            // pd_no (PHYS_BASE)
  const NULL := 0

  type Frame = seq<int>             // the 1024 words of a page frame
  type Memory = seq<Frame>

  datatype Mapping = Mapping(frame: int, writable: bool)

  // ---------------------------------------------------------------- entries

  /** PTE_P, bit 0. */
  predicate IsPresent(entry: int) { entry % 2 == 1 }

  /** PTE_W, bit 1. */
  predicate IsWritable(entry: int) { entry / 2 % 2 == 1 }

  /** PTE_U, bit 2. */
  predicate IsUser(entry: int) { entry / 4 % 2 == 1 }

  /** The frame in the address bits. */
  function FrameOf(entry: int): int { entry / PGSIZE }

  /** pde_create, of a page table in a frame: PTE_U, PTE_P and PTE_W. */
  function PdeCreate(frame: int): int { PGSIZE * frame + 7 }

  /** pte_create_user: PTE_U and PTE_P, and PTE_W if writable. */
  function PteCreateUser(frame: int, writable: bool): int { PGSIZE * frame + 5 + (if writable then 2 else 0) }

  lemma EntryRoundTrip(frame: int, writable: bool)
    ensures IsPresent(PteCreateUser(frame, writable)) && FrameOf(PteCreateUser(frame, writable)) == frame
    ensures IsWritable(PteCreateUser(frame, writable)) == writable && IsUser(PteCreateUser(frame, writable))
    ensures IsPresent(PdeCreate(frame)) && FrameOf(PdeCreate(frame)) == frame
    ensures IsWritable(PdeCreate(frame)) && IsUser(PdeCreate(frame))
  {
    var flags := if writable then 7 else 5;
    EvenPlus(2048 * frame, flags);
    EvenPlus(2048 * frame, 7);
    Quotient(frame, flags);
    Quotient(frame, 7);
    Half(frame, flags);
    Half(frame, 7);
    Quarter(frame, flags);
    Quarter(frame, 7);
  }

  lemma Quarter(frame: int, flags: int)
    requires flags == 5 || flags == 7
    ensures (PGSIZE * frame + flags) / 4 % 2 == 1
  {
    assert (PGSIZE * frame + flags) / 4 == 2 * (512 * frame) + 1;
    EvenPlus(512 * frame, 1);
  }

  lemma Half(frame: int, flags: int)
    requires flags == 5 || flags == 7
    ensures (PGSIZE * frame + flags) / 2 % 2 == if flags == 7 then 1 else 0
  {
    assert (PGSIZE * frame + flags) / 2 == 2 * (1024 * frame) + flags / 2;
    EvenPlus(1024 * frame, flags / 2);
  }

  /** entry & ~PTE_P. */
  lemma ClearedEntry(entry: int)
    requires IsPresent(entry)
    ensures !IsPresent(entry - 1) && FrameOf(entry - 1) == FrameOf(entry)
  {
    var q, r := entry / PGSIZE, entry % PGSIZE;
    assert entry == 2 * (2048 * q) + r;
    EvenPlus(2048 * q, r);
    assert r >= 1;
    assert entry - 1 == PGSIZE * q + (r - 1);
    EvenPlus(2048 * q, r - 1);
    Quotient(q, r - 1);
  }

  lemma EvenPlus(n: int, r: int)
    ensures (2 * n + r) % 2 == r % 2
  {}

  lemma Quotient(q: int, r: int)
    requires 0 <= r < PGSIZE
    ensures (PGSIZE * q + r) / PGSIZE == q
  {}

  // ---------------------------------------------------------------- the tables

  ghost predicate WellFormed(m: Memory) {
    forall f :: 0 <= f < |m| ==> |m[f]| == 1024
  }

  ghost predicate IsFrame(m: Memory, used: seq<bool>, f: int) {
    0 <= f < |m| == |used| && used[f]
  }

  /** Frame t is the page table of directory entry i. */
  ghost predicate IsTable(m: Memory, pd: int, i: int, t: int) {
    0 <= pd < |m| && |m[pd]| == 1024 && 0 <= i < USER_PDES && m[pd][i] != 0 && FrameOf(m[pd][i]) == t
  }

  ghost predicate PdeOk(m: Memory, used: seq<bool>, pd: int, i: int)
    requires 0 <= pd < |m| && |m[pd]| == 1024 && 0 <= i < USER_PDES
  {
    m[pd][i] != 0 ==>
    m[pd][i] == PdeCreate(FrameOf(m[pd][i])) && IsPresent(m[pd][i]) && IsWritable(m[pd][i]) && IsUser(m[pd][i]) &&
    IsFrame(m, used, FrameOf(m[pd][i])) && FrameOf(m[pd][i]) != pd
  }

  /** Entry j of table t: user programs may use it; its frame is in use and neither a table
      nor the directory. */
  ghost predicate PteOk(m: Memory, used: seq<bool>, pd: int, t: int, j: int)
    requires 0 <= t < |m| && |m[t]| == 1024 && 0 <= j < 1024
  {
    IsPresent(m[t][j]) ==>
      IsUser(m[t][j]) && IsFrame(m, used, FrameOf(m[t][j])) && FrameOf(m[t][j]) != pd &&
      forall i :: !IsTable(m, pd, i, FrameOf(m[t][j]))
  }

  ghost predicate TableOk(m: Memory, used: seq<bool>, pd: int, t: int)
    requires 0 <= t < |m| && |m[t]| == 1024
  {
    forall j :: 0 <= j < 1024 ==> PteOk(m, used, pd, t, j)
  }

  /** A page directory with its page tables. */
  ghost predicate Sound(m: Memory, used: seq<bool>, pd: int) {
    WellFormed(m) && IsFrame(m, used, pd) &&
    (forall i :: 0 <= i < USER_PDES ==> PdeOk(m, used, pd, i)) &&
    (forall i, k, t :: IsTable(m, pd, i, t) && IsTable(m, pd, k, t) ==> i == k) &&
    forall i, t :: IsTable(m, pd, i, t) ==> 0 <= t < |m| && |m[t]| == 1024 && TableOk(m, used, pd, t)
  }

  /** The page table entry of user page (i, j); 0 when there is no page table. */
  ghost function Pte(m: Memory, pd: int, i: int, j: int): int {
    if 0 <= pd < |m| && |m[pd]| == 1024 && 0 <= i < USER_PDES && 0 <= j < 1024 && m[pd][i] != 0 then
      var t := FrameOf(m[pd][i]);
      if 0 <= t < |m| && |m[t]| == 1024 then m[t][j] else 0
    else 0
  }

  /** What the tables say about user page p, a number below PHYS_BASE / PGSIZE. */
  ghost function EntryOf(m: Memory, pd: int, p: int): int {
    Pte(m, pd, p / 1024, p % 1024)
  }

  ghost predicate IsMapped(m: Memory, pd: int, p: int) {
    IsPresent(EntryOf(m, pd, p))
  }

  /** The map that the two levels implement. */
  ghost function Pages(m: Memory, pd: int): map<int, Mapping> {
    map p | 0 <= p < USER_PDES * 1024 && IsMapped(m, pd, p) ::
      Mapping(FrameOf(EntryOf(m, pd, p)), IsWritable(EntryOf(m, pd, p)))
  }

  // ---------------------------------------------------------------- the processor

  /** The processor lets a user program read at vaddr: its entries at both levels are present
      and not the kernel's alone. */
  ghost predicate UserReads(m: Memory, pd: int, vaddr: nat) {
    0 <= pd < |m| && |m[pd]| == 1024 && vaddr / 0x40_0000 < 1024 &&
    var pde := m[pd][vaddr / 0x40_0000];
    IsPresent(pde) && IsUser(pde) && 0 <= FrameOf(pde) < |m| && |m[FrameOf(pde)]| == 1024 &&
    var pte := m[FrameOf(pde)][vaddr / 0x1000 % 1024];
    IsPresent(pte) && IsUser(pte)
  }

  /** And write there: both are writable, too. */
  ghost predicate UserWrites(m: Memory, pd: int, vaddr: nat) {
    UserReads(m, pd, vaddr) &&
    var pde := m[pd][vaddr / 0x40_0000];
    IsWritable(pde) && IsWritable(m[FrameOf(pde)][vaddr / 0x1000 % 1024])
  }

  /** The processor agrees with the map. */
  lemma UserAccess(m: Memory, used: seq<bool>, pd: int, vaddr: nat)
    requires Sound(m, used, pd) && vaddr < PHYS_BASE
    ensures UserReads(m, pd, vaddr) <==> vaddr / PGSIZE in Pages(m, pd)
    ensures UserWrites(m, pd, vaddr) <==>
            vaddr / PGSIZE in Pages(m, pd) && Pages(m, pd)[vaddr / PGSIZE].writable
  {
    PageIndices(vaddr);
    var i, j := vaddr / 0x40_0000, vaddr / 0x1000 % 1024;
    assert PdeOk(m, used, pd, i);
    EntryIs(m, used, pd, i, j);
    InPages(m, pd, vaddr / PGSIZE);
    if m[pd][i] != 0 {
      assert IsTable(m, pd, i, FrameOf(m[pd][i])) && PteOk(m, used, pd, FrameOf(m[pd][i]), j);
    }
    hide Sound, PdeCreate, FrameOf, IsUser, IsWritable;
  }

  // ---------------------------------------------------------------- one entry changes

  /** Word j of frame t becomes entry. */
  function Store(m: Memory, t: int, j: int, entry: int): Memory
    requires 0 <= t < |m| && 0 <= j < |m[t]|
  {
    m[t := m[t][j := entry]]
  }

  /** Two page numbers are the same when their directory and table indices are. */
  lemma SamePage(p: int, q: int)
    requires p / 1024 == q / 1024 && p % 1024 == q % 1024
    ensures p == q
  {}

  /** Writing the entry of page p in its table changes what the tables say about p only. */
  lemma StoreEntry(m: Memory, used: seq<bool>, pd: int, i: int, j: int, entry: int)
    requires Sound(m, used, pd) && 0 <= i < USER_PDES && 0 <= j < 1024 && m[pd][i] != 0
    ensures var t := FrameOf(m[pd][i]);
            0 <= t < |m| && |m[t]| == 1024 &&
            var m1 := Store(m, t, j, entry);
            Pte(m1, pd, i, j) == entry && forall x, y :: x != i || y != j ==> Pte(m1, pd, x, y) == Pte(m, pd, x, y)
  {
    var t := FrameOf(m[pd][i]);
    assert PdeOk(m, used, pd, i);
    var m1 := Store(m, t, j, entry);
    assert m1[pd] == m[pd];
    forall x, y | x != i || y != j
      ensures Pte(m1, pd, x, y) == Pte(m, pd, x, y)
    {
      if 0 <= x < USER_PDES && x != i && m[pd][x] != 0 {
        assert IsTable(m, pd, i, t) && IsTable(m, pd, x, FrameOf(m[pd][x]));
      }
    }
  }

  /** The tables stay sound when the new entry is not present or maps a proper frame. */
  lemma StoreSound(m: Memory, used: seq<bool>, pd: int, i: int, j: int, entry: int)
    requires Sound(m, used, pd) && 0 <= i < USER_PDES && 0 <= j < 1024 && m[pd][i] != 0
    requires IsPresent(entry) ==>
      IsUser(entry) && IsFrame(m, used, FrameOf(entry)) && FrameOf(entry) != pd &&
      forall k :: !IsTable(m, pd, k, FrameOf(entry))
    ensures var t := FrameOf(m[pd][i]);
            0 <= t < |m| && |m[t]| == 1024 && Sound(Store(m, t, j, entry), used, pd)
  {
    var t := FrameOf(m[pd][i]);
    assert PdeOk(m, used, pd, i);
    var m1 := Store(m, t, j, entry);
    assert m1[pd] == m[pd];
    forall x | 0 <= x < USER_PDES
      ensures PdeOk(m1, used, pd, x)
    {
      assert PdeOk(m, used, pd, x);
    }
    assert forall k, f :: IsTable(m1, pd, k, f) <==> IsTable(m, pd, k, f);
    forall x, f | IsTable(m1, pd, x, f)
      ensures 0 <= f < |m1| && |m1[f]| == 1024 && TableOk(m1, used, pd, f)
    {
      assert IsTable(m, pd, x, f);
      assert TableOk(m, used, pd, f);
      forall y | 0 <= y < 1024
        ensures PteOk(m1, used, pd, f, y)
      {
        assert PteOk(m, used, pd, f, y);
      }
    }
  }

  /** The map after one entry has changed. */
  lemma PagesChanged(m: Memory, m1: Memory, pd: int, p: int, entry: int)
    requires 0 <= p < USER_PDES * 1024 && Pte(m1, pd, p / 1024, p % 1024) == entry
    requires forall x, y :: x != p / 1024 || y != p % 1024 ==> Pte(m1, pd, x, y) == Pte(m, pd, x, y)
    ensures Pages(m1, pd) ==
            if IsPresent(entry) then Pages(m, pd)[p := Mapping(FrameOf(entry), IsWritable(entry))]
                else Pages(m, pd) - {p}
  {
    forall q | q != p
      ensures EntryOf(m1, pd, q) == EntryOf(m, pd, q)
    {
      if q / 1024 == p / 1024 && q % 1024 == p % 1024 { SamePage(p, q); }
    }
  }

  // ---------------------------------------------------------------- a new page table

  function Fill(word: int): (f: Frame)
    ensures |f| == 1024 && forall j :: 0 <= j < 1024 ==> f[j] == word
  {
    seq(1024, _ => word)
  }

  /** A zeroed page in frame t becomes the page table of directory entry i. */
  function WithTable(m: Memory, pd: int, i: int, t: int): Memory
    requires 0 <= pd < |m| && 0 <= i < |m[pd]| && 0 <= t < |m| && t != pd
  {
    m[t := Fill(0)][pd := m[pd][i := PdeCreate(t)]]
  }

  /** A frame that is not in use is no table and not the directory. */
  lemma FreeIsNoTable(m: Memory, used: seq<bool>, pd: int, t: int)
    requires Sound(m, used, pd) && 0 <= t < |used| && !used[t]
    ensures t != pd && forall k :: !IsTable(m, pd, k, t)
  {
    forall k
      ensures !IsTable(m, pd, k, t)
    {
      if 0 <= k < USER_PDES { assert PdeOk(m, used, pd, k); }
    }
  }

  lemma NewTable(m: Memory, used: seq<bool>, pd: int, i: int, t: int)
    requires Sound(m, used, pd) && 0 <= i < USER_PDES && m[pd][i] == 0 && FreeRun(used, t, 1)
    ensures t != pd && t < |m| && |m[pd]| == 1024
    ensures var m1 := WithTable(m, pd, i, t);
            m1[pd][i] == PdeCreate(t) && Sound(m1, SetRun(used, t, 1, true), pd) &&
            forall x, y :: IsPresent(Pte(m1, pd, x, y)) == IsPresent(Pte(m, pd, x, y)) &&
                Pte(m1, pd, x, y) == Pte(m, pd, x, y)
  {
    FreeIsNoTable(m, used, pd, t);
    EntryRoundTrip(t, true);
    var m1, used1 := WithTable(m, pd, i, t), SetRun(used, t, 1, true);
    hide PdeCreate, FrameOf, IsPresent;
    assert forall k, f :: IsTable(m1, pd, k, f) <==> IsTable(m, pd, k, f) || (k == i && f == t);
    forall x | 0 <= x < USER_PDES
      ensures PdeOk(m1, used1, pd, x)
    {
      assert PdeOk(m, used, pd, x);
    }
    forall k, f | IsTable(m1, pd, k, f)
      ensures 0 <= f < |m1| && |m1[f]| == 1024 && TableOk(m1, used1, pd, f)
    {
      if f == t {
        ZeroTable(m1, used1, pd, t);
      } else {
        assert IsTable(m, pd, k, f);
        assert PdeOk(m, used, pd, k);
        TableKept(m, used, pd, m1, used1, f, t, i);
      }
    }
    forall x, y
      ensures Pte(m1, pd, x, y) == Pte(m, pd, x, y)
    {
      if 0 <= x < USER_PDES && x != i && m[pd][x] != 0 {
        assert IsTable(m, pd, x, FrameOf(m[pd][x]));
        assert PdeOk(m, used, pd, x);
      }
      if x == i && 0 <= y < 1024 {
        assert Pte(m1, pd, i, y) == Fill(0)[y];
      }
    }
  }

  lemma ZeroTable(m: Memory, used: seq<bool>, pd: int, t: int)
    requires 0 <= t < |m| && m[t] == Fill(0)
    ensures TableOk(m, used, pd, t)
  {}

  lemma TableKept(m: Memory, used: seq<bool>, pd: int, m1: Memory, used1: seq<bool>, f: int, t: int, i: int)
    requires 0 <= f < |m| == |m1| && |m[f]| == 1024 && TableOk(m, used, pd, f) && m1[f] == m[f] &&
             |m| == |used| == |used1|
    requires 0 <= t < |used| && !used[t] && forall x :: 0 <= x < |used| ==> used1[x] == (used[x] || x == t)
    requires forall k, g :: IsTable(m1, pd, k, g) ==> IsTable(m, pd, k, g) || g == t
    ensures TableOk(m1, used1, pd, f)
  {
    forall j | 0 <= j < 1024
      ensures PteOk(m1, used1, pd, f, j)
    {
      assert PteOk(m, used, pd, f, j);
    }
  }

  // ---------------------------------------------------------------- what stays as it is

  /** Frames in use other than the directory and its page tables stay in use and keep
      their words. */
  ghost predicate Untouched(m: Memory, u: seq<bool>, m1: Memory, u1: seq<bool>, pd: int) {
    |m| == |u| == |m1| == |u1| &&
    forall f :: 0 <= f < |m| && u[f] && f != pd && (forall i :: !IsTable(m, pd, i, f)) ==> m1[f] == m[f] && u1[f]
  }

  /** A store into a page table. */
  lemma StoreUntouched(m0: Memory, u0: seq<bool>, m: Memory, u: seq<bool>, pd: int, i: int, j: int, entry: int)
    requires Untouched(m0, u0, m, u, pd) && TablesFrom(m0, u0, m, pd) && Sound(m, u, pd)
    requires 0 <= i < USER_PDES && 0 <= j < 1024 && m[pd][i] != 0
    ensures var t := FrameOf(m[pd][i]);
            0 <= t < |m| && |m[t]| == 1024 &&
            Untouched(m0, u0, Store(m, t, j, entry), u, pd) && TablesFrom(m0, u0, Store(m, t, j, entry), pd)
  {
    var t := FrameOf(m[pd][i]);
    assert PdeOk(m, u, pd, i) && IsTable(m, pd, i, t);
    var m1 := Store(m, t, j, entry);
    assert m1[pd] == m[pd];
    forall k, f
      ensures IsTable(m1, pd, k, f) <==> IsTable(m, pd, k, f)
    {}
  }

  /** Directory pd2 and its page tables are in no frame that pd uses. */
  ghost predicate Clear(m: Memory, pd: int, pd2: int) {
    pd != pd2 && (forall i :: !IsTable(m, pd, i, pd2)) &&
    (forall i, k, t :: !(IsTable(m, pd, i, t) && IsTable(m, pd2, k, t))) &&
    (forall i, j, f :: MapsTo(m, pd, i, j, f) ==> f != pd2) &&
    forall i, j, k, f :: !(MapsTo(m, pd, i, j, f) && IsTable(m, pd2, k, f))
  }

  ghost predicate Separate(m: Memory, pd: int, pd2: int) { Clear(m, pd, pd2) && Clear(m, pd2, pd) }

  /** New page tables come from frames that were free. */
  ghost predicate TablesFrom(m: Memory, u: seq<bool>, m1: Memory, pd: int) {
    forall i, t :: IsTable(m1, pd, i, t) ==> IsTable(m, pd, i, t) || (0 <= t < |u| && !u[t])
  }

  /** What one directory's operations leave of another one on frames of its own: everything. */
  lemma OtherDirectory(m: Memory, u: seq<bool>, m1: Memory, u1: seq<bool>, pd: int, pd2: int)
    requires Sound(m, u, pd2) && Separate(m, pd, pd2) && Untouched(m, u, m1, u1, pd) && WellFormed(m1)
    ensures Sound(m1, u1, pd2) && Pages(m1, pd2) == Pages(m, pd2)
    ensures forall i, j :: Pte(m1, pd2, i, j) == Pte(m, pd2, i, j)
    ensures forall i, t :: IsTable(m1, pd2, i, t) <==> IsTable(m, pd2, i, t)
  {
    assert m1[pd2] == m[pd2];
    forall i, t
      ensures IsTable(m1, pd2, i, t) <==> IsTable(m, pd2, i, t)
      ensures IsTable(m, pd2, i, t) ==> IsFrame(m, u, t) && m1[t] == m[t] && u1[t]
    {
      if IsTable(m, pd2, i, t) { assert PdeOk(m, u, pd2, i); }
    }
    OtherSound(m, u, m1, u1, pd2);
    hide Sound, Untouched, TableOk;
    forall i, j
      ensures Pte(m1, pd2, i, j) == Pte(m, pd2, i, j)
    {
      if 0 <= i < USER_PDES && m[pd2][i] != 0 { assert IsTable(m, pd2, i, FrameOf(m[pd2][i])); }
    }
  }

  /** And they stay separate as long as no frame of the other's is mapped. */
  lemma StaySeparate(m: Memory, u: seq<bool>, m1: Memory, u1: seq<bool>, pd: int, pd2: int)
    requires Sound(m, u, pd2) && Separate(m, pd, pd2) && Untouched(m, u, m1, u1, pd) && WellFormed(m1) &&
             TablesFrom(m, u, m1, pd)
    requires forall i, j, f :: MapsTo(m1, pd, i, j, f) ==>
               MapsTo(m, pd, i, j, f) || (f != pd2 && forall k :: !IsTable(m, pd2, k, f))
    ensures Separate(m1, pd, pd2)
  {
    OtherDirectory(m, u, m1, u1, pd, pd2);
    forall i, t | IsTable(m, pd2, i, t)
      ensures 0 <= t < |u| && u[t]
    {
      assert PdeOk(m, u, pd2, i);
    }
    forall i, j, f | MapsTo(m, pd2, i, j, f)
      ensures 0 <= f < |u| && u[f]
    {
      MappedIsNoTable(m, u, pd2, i, j, f);
    }
    hide Sound, Untouched, Pages;
    forall i, j, f
      ensures MapsTo(m1, pd2, i, j, f) <==> MapsTo(m, pd2, i, j, f)
    {}
  }

  /** What destroying a directory leaves of one that shares no frame with it: everything. */
  lemma OtherSurvives(m: Memory, u: seq<bool>, m1: Memory, u1: seq<bool>, pd: int, pd2: int)
    requires Sound(m, u, pd2) && Separate(m, pd, pd2) && WellFormed(m1) && |m| == |u| == |m1| == |u1|
    requires forall i, j, k, l, f :: !(MapsTo(m, pd, i, j, f) && MapsTo(m, pd2, k, l, f))
    requires forall f :: 0 <= f < |u| ==>
      u1[f] == (u[f] && f != pd && !(exists i :: IsTable(m, pd, i, f)) && !(exists i, j :: MapsTo(m, pd, i, j, f))) &&
      (u1[f] ==> m1[f] == m[f])
    ensures Sound(m1, u1, pd2) && Pages(m1, pd2) == Pages(m, pd2)
  {
    forall i, t | IsTable(m, pd2, i, t)
      ensures 0 <= t < |m| && u1[t] && m1[t] == m[t]
    {
      assert PdeOk(m, u, pd2, i);
    }
    OtherSound(m, u, m1, u1, pd2);
    hide Sound, TableOk;
    forall i, j
      ensures Pte(m1, pd2, i, j) == Pte(m, pd2, i, j)
    {
      if 0 <= i < USER_PDES && m[pd2][i] != 0 { assert IsTable(m, pd2, i, FrameOf(m[pd2][i])); }
    }
  }

  lemma OtherSound(m: Memory, u: seq<bool>, m1: Memory, u1: seq<bool>, pd: int)
    requires Sound(m, u, pd) && WellFormed(m1) && |m1| == |m| == |u| == |u1| && m1[pd] == m[pd] && u1[pd]
    requires forall i, t :: IsTable(m, pd, i, t) ==> 0 <= t < |m| && m1[t] == m[t] && u1[t]
    requires forall f :: 0 <= f < |u| && u[f] && !u1[f] ==> forall i, j :: !MapsTo(m, pd, i, j, f)
    ensures Sound(m1, u1, pd)
  {
    forall i, t
      ensures IsTable(m1, pd, i, t) <==> IsTable(m, pd, i, t)
    {}
    forall i | 0 <= i < USER_PDES
      ensures PdeOk(m1, u1, pd, i)
    {
      assert PdeOk(m, u, pd, i);
      if m[pd][i] != 0 { assert IsTable(m, pd, i, FrameOf(m[pd][i])); }
    }
    forall i, t | IsTable(m1, pd, i, t)
      ensures 0 <= t < |m1| && |m1[t]| == 1024 && TableOk(m1, u1, pd, t)
    {
      assert IsTable(m, pd, i, t) && TableOk(m, u, pd, t);
      forall j | 0 <= j < 1024
        ensures PteOk(m1, u1, pd, t, j)
      {
        assert PteOk(m, u, pd, t, j);
        if IsPresent(m[t][j]) { assert MapsTo(m, pd, i, j, FrameOf(m[t][j])); }
      }
    }
  }

  // ---------------------------------------------------------------- what destroy frees

  /** The entry of user page (i, j) is present and names frame f. */
  ghost predicate MapsTo(m: Memory, pd: int, i: int, j: int, f: int) {
    IsPresent(Pte(m, pd, i, j)) && FrameOf(Pte(m, pd, i, j)) == f
  }

  /** No frame is mapped twice. */
  ghost predicate Injective(m: Memory, pd: int) {
    forall i, j, k, l, f :: MapsTo(m, pd, i, j, f) && MapsTo(m, pd, k, l, f) ==> i == k && j == l
  }

  /** f is freed before the loops reach entry j of table i. */
  ghost predicate Gone(m: Memory, pd: int, i: int, j: int, f: int) {
    (exists k :: k < i && IsTable(m, pd, k, f)) || exists k, l :: MapsTo(m, pd, k, l, f) && (k < i || (k == i && l < j))
  }

  lemma MapsInside(m: Memory, pd: int, i: int, j: int, f: int)
    requires MapsTo(m, pd, i, j, f)
    ensures 0 <= i < USER_PDES && 0 <= j < 1024
  {}

  lemma GoneEntry(m: Memory, pd: int, i: int, j: int)
    ensures forall f :: Gone(m, pd, i, j + 1, f) <==> Gone(m, pd, i, j, f) || MapsTo(m, pd, i, j, f)
  {
    forall f
      ensures Gone(m, pd, i, j + 1, f) <==> Gone(m, pd, i, j, f) || MapsTo(m, pd, i, j, f)
    {
      if k, l :| MapsTo(m, pd, k, l, f) && (k < i || (k == i && l < j + 1)) {
        assert (k == i && l == j) || k < i || (k == i && l < j);
      }
    }
  }

  lemma GoneTable(m: Memory, pd: int, i: int)
    ensures forall f :: Gone(m, pd, i + 1, 0, f) <==> Gone(m, pd, i, 1024, f) || IsTable(m, pd, i, f)
  {
    forall f
      ensures Gone(m, pd, i + 1, 0, f) <==> Gone(m, pd, i, 1024, f) || IsTable(m, pd, i, f)
    {
      forall k, l | MapsTo(m, pd, k, l, f)
        ensures l < 1024 && 0 <= l
      {
        MapsInside(m, pd, k, l, f);
      }
      if k :| k < i + 1 && IsTable(m, pd, k, f) {
        assert k < i || k == i;
      }
    }
  }

  /** Entry (i, j) comes before (k, l) in the loops. */
  predicate Earlier(i: int, j: int, k: int, l: int) { i < k || (i == k && j < l) }

  /** No frame is mapped twice by entries before (i, j). */
  ghost predicate Once(m: Memory, pd: int, i: int, j: int) {
    forall a, b, c, d, f ::
      MapsTo(m, pd, a, b, f) && MapsTo(m, pd, c, d, f) && Earlier(a, b, i, j) && Earlier(c, d, i, j) ==>
      a == c && b == d
  }

  /** The frame that the loops come to next is gone exactly when an earlier entry maps it. */
  lemma NextFrame(m: Memory, used: seq<bool>, pd: int, i: int, j: int, f: int)
    requires Sound(m, used, pd) && MapsTo(m, pd, i, j, f) && Once(m, pd, i, j)
    ensures IsFrame(m, used, f) && f != pd && forall k :: !IsTable(m, pd, k, f)
    ensures Gone(m, pd, i, j, f) ==> !Injective(m, pd)
    ensures !Gone(m, pd, i, j, f) ==> Once(m, pd, i, j + 1)
  {
    MappedIsNoTable(m, used, pd, i, j, f);
    hide Sound, IsTable, MapsTo, IsFrame;
    if k, l :| MapsTo(m, pd, k, l, f) && (k < i || (k == i && l < j)) {
      assert MapsTo(m, pd, i, j, f);
    }
  }

  lemma NoFrame(m: Memory, pd: int, i: int, j: int)
    requires Once(m, pd, i, j) && forall f :: !MapsTo(m, pd, i, j, f)
    ensures Once(m, pd, i, j + 1)
  {}

  lemma OnceAll(m: Memory, pd: int)
    ensures Once(m, pd, USER_PDES, 0) <==> Injective(m, pd)
  {
    forall i, j, f | MapsTo(m, pd, i, j, f)
      ensures Earlier(i, j, USER_PDES, 0)
    {
      MapsInside(m, pd, i, j, f);
    }
  }

  lemma OnceNext(m: Memory, pd: int, i: int)
    requires Once(m, pd, i, 1024)
    ensures Once(m, pd, i + 1, 0)
  {
    forall a, b, f | MapsTo(m, pd, a, b, f) && Earlier(a, b, i + 1, 0)
      ensures Earlier(a, b, i, 1024)
    {
      MapsInside(m, pd, a, b, f);
    }
  }

  lemma MappedIsNoTable(m: Memory, used: seq<bool>, pd: int, i: int, j: int, f: int)
    requires Sound(m, used, pd) && MapsTo(m, pd, i, j, f)
    ensures IsFrame(m, used, f) && f != pd && forall k :: !IsTable(m, pd, k, f)
  {
    MapsInside(m, pd, i, j, f);
    var t := FrameOf(m[pd][i]);
    assert IsTable(m, pd, i, t);
    assert PteOk(m, used, pd, t, j);
  }

  lemma TableNotGone(m: Memory, used: seq<bool>, pd: int, i: int, t: int)
    requires Sound(m, used, pd) && IsTable(m, pd, i, t)
    ensures IsFrame(m, used, t) && t != pd && !Gone(m, pd, i, 1024, t) && |m[t]| == 1024
  {
    assert PdeOk(m, used, pd, i);
    forall k, l
      ensures !MapsTo(m, pd, k, l, t)
    {
      if MapsTo(m, pd, k, l, t) { MappedIsNoTable(m, used, pd, k, l, t); }
    }
  }

  // ---------------------------------------------------------------- pagedir.c

  class PhysicalMemory {
    const mem: array<Frame>
    const used: array<bool>          // which frames the page allocator has given out

    /** Zeroed frames, none of them given out. */
    constructor (frames: nat)
      ensures mem.Length == used.Length == frames && fresh(mem) && fresh(used) && WellFormed(mem[..])
      ensures forall f :: 0 <= f < frames ==> !used[f]
    {
      mem := new Frame[frames](_ => Fill(0));
      used := new bool[frames](_ => false);
    }

    ghost predicate Valid(pd: int)
      reads this, mem, used
    {
      Sound(mem[..], used[..], pd)
    }

    ghost function Map(pd: int): map<int, Mapping>
      reads this, mem
    {
      Pages(mem[..], pd)
    }

    /** palloc_get_page (PAL_ZERO). */
    method GetZeroPage() returns (frame: int)
      requires mem.Length == used.Length
      modifies mem, used
      ensures frame == FirstRun(old(used[..]), 0, 1)
      ensures used[..] == if frame >= 0 then SetRun(old(used[..]), frame, 1, true) else old(used[..])
      ensures mem[..] == if frame >= 0 then old(mem[..])[frame := Fill(0)] else old(mem[..])
    {
      frame := Scan(used, 1);
      if frame != -1 {
        SetMultiple(used, frame, 1, true);
        mem[frame] := Fill(0);
      }
    }

    /** palloc_get_page (PAL_USER): some free frame, unless the user pool has none (granted
        is its answer) or none is free at all. */
    method GetUserPage(granted: bool) returns (frame: int)
      requires mem.Length == used.Length
      modifies used
      ensures frame >= 0 ==> frame < used.Length && !old(used[frame])
      ensures frame < 0 ==> frame == -1 && (!granted || forall f :: 0 <= f < used.Length ==> used[f])
      ensures frame >= 0 ==> granted
      ensures used[..] == if frame >= 0 then old(used[..])[frame := true] else old(used[..])
    {
      if !granted {
        return -1;
      }
      frame := Scan(used, 1);
      if frame != -1 {
        used[frame] := true;
      } else {
        forall f | 0 <= f < used.Length
          ensures used[f]
        {
          NoRun(used[..], 0, 1, f);
        }
      }
    }

    /** palloc_free_page: its assertion is the precondition, and the page is overwritten. */
    method FreePage(frame: int)
      requires mem.Length == used.Length && 0 <= frame < used.Length && used[frame]
      modifies mem, used
      ensures used[..] == old(used[..])[frame := false]
      ensures mem[..] == old(mem[..])[frame := Fill(0xCCCC_CCCC)]
    {
      mem[frame] := Fill(0xCCCC_CCCC);
      used[frame] := false;
    }

    /** lookup_page without create, for a user address: the frame of its page table, or -1. */
    method FindTable(pd: int, vaddr: nat) returns (pt: int)
      requires Valid(pd) && vaddr < PHYS_BASE
      ensures 0 <= pd < mem.Length && |mem[pd]| == 1024
      ensures mem[pd][vaddr / 0x40_0000] == 0 ==> pt == -1
      ensures mem[pd][vaddr / 0x40_0000] != 0 ==> 0 <= pt < mem.Length && pt == FrameOf(mem[pd][vaddr / 0x40_0000])
    {
      var i := vaddr / 0x40_0000;
      assert PdeOk(mem[..], used[..], pd, i);
      pt := if mem[pd][i] == 0 then -1 else FrameOf(mem[pd][i]);
    }

    /** lookup_page for a user address: the frame of the page table, or -1.  The words of the
        tables that are there, and so the map, stay as they are. */
    method LookupPage(pd: int, vaddr: nat, create: bool) returns (pt: int)
      requires Valid(pd) && vaddr < PHYS_BASE
      modifies mem, used
      ensures Valid(pd) && Map(pd) == old(Map(pd)) && mem.Length == used.Length
      ensures pt >= 0 <==> old(mem[pd][vaddr / 0x40_0000]) != 0 || (create && FirstRun(old(used[..]), 0, 1) >= 0)
      ensures pt >= 0 ==> 0 <= pd < mem.Length && |mem[pd]| == 1024 && mem[pd][vaddr / 0x40_0000] != 0 &&
                          pt == FrameOf(mem[pd][vaddr / 0x40_0000]) < mem.Length
      ensures Untouched(old(mem[..]), old(used[..]), mem[..], used[..], pd) &&
              TablesFrom(old(mem[..]), old(used[..]), mem[..], pd)
      ensures forall f :: 0 <= f < mem.Length && old(used[f]) ==> used[f]
      ensures forall f, i :: 0 <= f < used.Length && old(used[f]) && IsTable(mem[..], pd, i, f) ==>
              IsTable(old(mem[..]), pd, i, f)
      ensures forall x, y :: Pte(mem[..], pd, x, y) == Pte(old(mem[..]), pd, x, y)
      ensures pt < 0 || !create ==> mem[..] == old(mem[..]) && used[..] == old(used[..])
    {
      ghost var m, u := mem[..], used[..];
      var i := vaddr / 0x40_0000;
      pt := FindTable(pd, vaddr);
      if pt < 0 && create {
        pt := GetZeroPage();
        if pt < 0 {
          return -1;
        }
        NewTable(m, u, pd, i, pt);
        EntryRoundTrip(pt, true);
        hide Sound, PdeCreate, FrameOf, Pte;
        mem[pd] := mem[pd][i := PdeCreate(pt)];
        assert mem[..] == WithTable(m, pd, i, pt);
      }
    }

    /** pagedir_set_page: with its assertions, u is mapped to k exactly when there is a page
        table or room for one, and every other page is as before. */
    method SetPage(pd: int, upage: nat, kpage: nat, writable: bool) returns (ok: bool)
      requires Valid(pd) && upage < PHYS_BASE && upage % PGSIZE == 0
      requires kpage >= PHYS_BASE && kpage % PGSIZE == 0 && upage / PGSIZE !in Map(pd)
      requires var f := (kpage - PHYS_BASE) / PGSIZE;
               IsFrame(mem[..], used[..], f) && f != pd && forall i :: !IsTable(mem[..], pd, i, f)
      modifies mem, used
      ensures Valid(pd)
      ensures ok <==> old(mem[pd][upage / 0x40_0000]) != 0 || FirstRun(old(used[..]), 0, 1) >= 0
      ensures Map(pd) == if ok then old(Map(pd))[upage / PGSIZE := Mapping((kpage - PHYS_BASE) / PGSIZE, writable)]
                         else old(Map(pd))
      ensures Untouched(old(mem[..]), old(used[..]), mem[..], used[..], pd) &&
              TablesFrom(old(mem[..]), old(used[..]), mem[..], pd)
      ensures forall f :: 0 <= f < mem.Length && old(used[f]) ==> used[f]
      ensures !ok ==> mem[..] == old(mem[..]) && used[..] == old(used[..])
      ensures ok ==> UserReads(mem[..], pd, upage) && (UserWrites(mem[..], pd, upage) <==> writable)
      ensures ok ==>
        MapsTo(mem[..], pd, upage / 0x40_0000, upage / PGSIZE % 1024, (kpage - PHYS_BASE) / PGSIZE) &&
        forall x, y :: x != upage / 0x40_0000 || y != upage / PGSIZE % 1024 ==>
          Pte(mem[..], pd, x, y) == Pte(old(mem[..]), pd, x, y)
    {
      ghost var m0, u0, f := mem[..], used[..], (kpage - PHYS_BASE) / PGSIZE;
      PageIndices(upage);
      InPages(m0, pd, upage / PGSIZE);
      var pt := LookupPage(pd, upage, true);
      if pt < 0 {
        return false;
      }
      ghost var m, u, i, j := mem[..], used[..], upage / 0x40_0000, upage / PGSIZE % 1024;
      var entry := PteCreateUser((kpage - PHYS_BASE) / PGSIZE, writable);
      EntryRoundTrip(f, writable);
      StoreEntry(m, u, pd, i, j, entry);
      assert !IsPresent(mem[pt][upage / PGSIZE % 1024]) by { EntryIs(m, u, pd, i, j); }
      hide PteCreateUser, Pte, IsPresent, UserReads, UserWrites;
      StoreSound(m, u, pd, i, j, entry);
      StoreUntouched(m0, u0, m, u, pd, i, j, entry);
      hide Sound, Untouched, TablesFrom;
      mem[pt] := mem[pt][upage / PGSIZE % 1024 := entry];
      PagesChanged(m, mem[..], pd, upage / PGSIZE, entry);
      UserAccess(mem[..], used[..], pd, upage);
      ok := true;
    }

    /** pagedir_get_page: the kernel address of the byte a user address stands for, or null. */
    method GetPage(pd: int, uaddr: nat) returns (kaddr: int)
      requires Valid(pd) && uaddr < PHYS_BASE
      ensures kaddr == if uaddr / PGSIZE in Map(pd)
                       then PHYS_BASE + PGSIZE * Map(pd)[uaddr / PGSIZE].frame + uaddr % PGSIZE else NULL
    {
      PageIndices(uaddr);
      var pt := FindTable(pd, uaddr);
      ghost var i, j := uaddr / 0x40_0000, uaddr / PGSIZE % 1024;
      EntryIs(mem[..], used[..], pd, i, j);
      if pt >= 0 {
        if IsPresent(mem[pt][uaddr / PGSIZE % 1024]) {
          return PHYS_BASE + PGSIZE * FrameOf(mem[pt][uaddr / PGSIZE % 1024]) + uaddr % PGSIZE;
        }
      }
      kaddr := NULL;
    }

    /** pagedir_clear_page: the page is no longer mapped, every other one is as before. */
    method ClearPage(pd: int, upage: nat)
      requires Valid(pd) && upage < PHYS_BASE && upage % PGSIZE == 0
      modifies mem
      ensures Valid(pd) && Map(pd) == old(Map(pd)) - {upage / PGSIZE}
      ensures Untouched(old(mem[..]), used[..], mem[..], used[..], pd) &&
              TablesFrom(old(mem[..]), used[..], mem[..], pd)
    {
      PageIndices(upage);
      var pt := FindTable(pd, upage);
      ghost var m, u, i, j := mem[..], used[..], upage / 0x40_0000, upage / PGSIZE % 1024;
      EntryIs(m, u, pd, i, j);
      InPages(m, pd, upage / PGSIZE);
      if pt >= 0 {
        var entry := mem[pt][upage / PGSIZE % 1024];
        if IsPresent(entry) {
          ClearedEntry(entry);
          StoreEntry(m, u, pd, i, j, entry - 1);
          StoreSound(m, u, pd, i, j, entry - 1);
          StoreUntouched(m, u, m, u, pd, i, j, entry - 1);
          hide Sound, Pte, IsPresent, Pages, Untouched, TablesFrom;
          mem[pt] := mem[pt][upage / PGSIZE % 1024 := entry - 1];
          PagesChanged(m, mem[..], pd, upage / PGSIZE, entry - 1);
        }
      }
    }

    /** pagedir_create: a copy of the kernel's directory, which maps no user page. */
    method Create(basePageDir: Frame) returns (pd: int)
      requires mem.Length == used.Length && WellFormed(mem[..]) && |basePageDir| == 1024
      requires forall i :: 0 <= i < USER_PDES ==> basePageDir[i] == 0
      modifies mem, used
      ensures pd == FirstRun(old(used[..]), 0, 1)
      ensures pd >= 0 ==> Valid(pd) && Map(pd) == map[] && Injective(mem[..], pd) && mem[pd] == basePageDir
      ensures used[..] == if pd >= 0 then SetRun(old(used[..]), pd, 1, true) else old(used[..])
      ensures forall f :: 0 <= f < mem.Length && f != pd ==> mem[f] == old(mem[f])
    {
      pd := Scan(used, 1);
      if pd != -1 {
        SetMultiple(used, pd, 1, true);
        mem[pd] := basePageDir;
      }
    }

    /** What destroy has freed when it is about to look at entry j of table i. */
    ghost predicate Destroyed(m: Memory, u: seq<bool>, pd: int, i: int, j: int)
      reads this, mem, used
    {
      mem.Length == used.Length == |m| == |u| && 0 <= pd < |m| && mem[pd] == m[pd] &&
      (forall f :: 0 <= f < |u| ==> used[f] == (u[f] && !Gone(m, pd, i, j, f)) && (used[f] ==> mem[f] == m[f])) &&
      forall k, t :: k >= i && IsTable(m, pd, k, t) && 0 <= t < |m| ==> mem[t] == m[t]
    }

    /** palloc_free_page with its assertion; ok is false when that fails. */
    method FreeUsed(frame: int) returns (ok: bool)
      requires mem.Length == used.Length && 0 <= frame < used.Length
      modifies mem, used
      ensures ok == old(used[frame])
      ensures used[..] == old(used[..])[frame := false]
      ensures mem[..] == if ok then old(mem[..])[frame := Fill(0xCCCC_CCCC)] else old(mem[..])
    {
      ok := used[frame];
      if ok { FreePage(frame); }
    }

    /** The inner loop of pagedir_destroy, over table i in frame t. */
    method FreeMapped(pd: int, i: int, t: int, ghost m: Memory, ghost u: seq<bool>) returns (ok: bool)
      requires Sound(m, u, pd) && Destroyed(m, u, pd, i, 0) && Once(m, pd, i, 0) && IsTable(m, pd, i, t)
      modifies mem, used
      ensures ok ==> Destroyed(m, u, pd, i, 1024) && Once(m, pd, i, 1024)
      ensures !ok ==> !Injective(m, pd)
    {
      TableNotGone(m, u, pd, i, t);
      var j := 0;
      while j < 1024
        invariant 0 <= j <= 1024 && Destroyed(m, u, pd, i, j) && Once(m, pd, i, j)
      {
        assert mem[t] == m[t];
        GoneEntry(m, pd, i, j);
        EntryIs(m, u, pd, i, j);
        if IsPresent(mem[t][j]) {
          ghost var f := FrameOf(mem[t][j]);
          assert MapsTo(m, pd, i, j, f);
          NextFrame(m, u, pd, i, j, f);
          hide Gone, Once, Sound, Injective, MapsTo, FrameOf, IsPresent;
          var freed := FreeUsed(FrameOf(mem[t][j]));
          if !freed {
            return false;
          }
        } else {
          NoFrame(m, pd, i, j);
        }
        j := j + 1;
      }
      ok := true;
    }

    /** pagedir_destroy's turn for directory entry i. */
    method FreeTable(pd: int, i: int, ghost m: Memory, ghost u: seq<bool>) returns (ok: bool)
      requires Sound(m, u, pd) && 0 <= i < USER_PDES && Destroyed(m, u, pd, i, 0) && Once(m, pd, i, 0)
      modifies mem, used
      ensures ok ==> Destroyed(m, u, pd, i + 1, 0) && Once(m, pd, i + 1, 0)
      ensures !ok ==> !Injective(m, pd)
    {
      assert PdeOk(m, u, pd, i);
      GoneTable(m, pd, i);
      if mem[pd][i] % 2 == 1 {
        var t := FrameOf(mem[pd][i]);
        assert IsTable(m, pd, i, t);
        TableNotGone(m, u, pd, i, t);
        hide Once, Sound, Injective;
        ok := FreeMapped(pd, i, t, m, u);
        if !ok {
          return;
        }
        FreePage(t);
      } else {
        NoTable(m, u, pd, i);
        NoneOnce(m, u, pd, i);
      }
      OnceNext(m, pd, i);
      ok := true;
    }

    /** pagedir_destroy.  It runs to its end exactly when no frame is mapped twice: then each
        frame of a present user page, each user page table and the directory are freed once,
        and no other frame; otherwise palloc_free_page's assertion fails. */
    method Destroy(pd: int) returns (ok: bool)
      requires Valid(pd)
      modifies mem, used
      ensures mem.Length == used.Length
      ensures ok <==> Injective(old(mem[..]), pd)
      ensures ok ==> forall f :: 0 <= f < used.Length ==>
        used[f] == (old(used[f]) && f != pd && !(exists i :: IsTable(old(mem[..]), pd, i, f)) &&
                    !(exists i, j :: MapsTo(old(mem[..]), pd, i, j, f))) &&
        (used[f] ==> mem[f] == old(mem[f]))
    {
      ghost var m, u := mem[..], used[..];
      var i := 0;
      NothingGone(m, pd);
      hide Sound, Once, Injective, Gone;
      while i < USER_PDES
        invariant 0 <= i <= USER_PDES && Destroyed(m, u, pd, i, 0) && Once(m, pd, i, 0)
      {
        ok := FreeTable(pd, i, m, u);
        if !ok {
          return;
        }
        i := i + 1;
      }
      AllGone(m, u, pd);
      OnceAll(m, pd);
      FreePage(pd);
      ok := true;
    }
  }

  /** Destroy's failing input: one frame mapped at any two pages of one page table. */
  method DestroyMappedTwice(base: Frame, upage: nat, upage2: nat, writable: bool)
    returns (mapped: bool, destroyed: bool)
    requires |base| == 1024 && forall i :: 0 <= i < USER_PDES ==> base[i] == 0
    requires upage < PHYS_BASE && upage % PGSIZE == 0 && upage2 < PHYS_BASE && upage2 % PGSIZE == 0
    requires upage != upage2 && upage / 0x40_0000 == upage2 / 0x40_0000
    ensures mapped && !destroyed
  {
    var vm := new PhysicalMemory(3);
    SomeFree(vm.used[..], 0);
    var pd := vm.Create(base);
    ghost var two := if pd == 0 then 1 else 0;
    assert !vm.used[two];
    var frame := vm.GetUserPage(true);
    ghost var three := if pd != 2 && frame != 2 then 2 else if pd != 1 && frame != 1 then 1 else 0;
    assert !vm.used[three];
    SomeFree(vm.used[..], three);
    Kernel(frame);
    ghost var m, u := vm.mem[..], vm.used[..];
    var ok := vm.SetPage(pd, upage, PHYS_BASE + PGSIZE * frame, writable);
    assert vm.mem[pd][upage2 / 0x40_0000] != 0;
    DistinctPages(upage, upage2);
    mapped := vm.SetPage(pd, upage2, PHYS_BASE + PGSIZE * frame, writable);
    assert MapsTo(vm.mem[..], pd, upage / 0x40_0000, upage / PGSIZE % 1024, frame);
    assert MapsTo(vm.mem[..], pd, upage2 / 0x40_0000, upage2 / PGSIZE % 1024, frame);
    mapped := ok && mapped;
    destroyed := vm.Destroy(pd);
  }

  lemma SomeFree(used: seq<bool>, f: int)
    requires 0 <= f < |used| && !used[f]
    ensures FirstRun(used, 0, 1) >= 0
  {
    if FirstRun(used, 0, 1) < 0 { NoRun(used, 0, 1, f); }
  }

  lemma Kernel(frame: int)
    requires frame >= 0
    ensures (PHYS_BASE + PGSIZE * frame - PHYS_BASE) / PGSIZE == frame && (PHYS_BASE + PGSIZE * frame) % PGSIZE == 0
  {}

  lemma DistinctPages(upage: nat, upage2: nat)
    requires upage < PHYS_BASE && upage % PGSIZE == 0 && upage2 < PHYS_BASE && upage2 % PGSIZE == 0
    requires upage != upage2 && upage / 0x40_0000 == upage2 / 0x40_0000
    ensures upage / PGSIZE != upage2 / PGSIZE && upage / PGSIZE % 1024 != upage2 / PGSIZE % 1024
  {
    PageIndices(upage);
    PageIndices(upage2);
    if upage / PGSIZE % 1024 == upage2 / PGSIZE % 1024 { SamePage(upage / PGSIZE, upage2 / PGSIZE); }
  }

  lemma NothingGone(m: Memory, pd: int)
    ensures Once(m, pd, 0, 0) && forall f :: !Gone(m, pd, 0, 0, f)
  {
    forall i, j, f | MapsTo(m, pd, i, j, f)
      ensures 0 <= i && 0 <= j
    {
      MapsInside(m, pd, i, j, f);
    }
  }

  /** pd_no and pt_no of an address are the two halves of its page number. */
  lemma PageIndices(vaddr: nat)
    requires vaddr < PHYS_BASE
    ensures vaddr / 0x40_0000 == vaddr / PGSIZE / 1024 < USER_PDES && vaddr / PGSIZE < USER_PDES * 1024
  {}

  lemma InPages(m: Memory, pd: int, p: int)
    requires 0 <= p < USER_PDES * 1024
    ensures p in Pages(m, pd) <==> IsPresent(Pte(m, pd, p / 1024, p % 1024))
    ensures p !in Pages(m, pd) ==> Pages(m, pd) - {p} == Pages(m, pd)
  {}

  /** The entry in the page table is the one that Pte talks about. */
  lemma EntryIs(m: Memory, used: seq<bool>, pd: int, i: int, j: int)
    requires Sound(m, used, pd) && 0 <= i < USER_PDES && 0 <= j < 1024
    ensures m[pd][i] == 0 ==> Pte(m, pd, i, j) == 0
    ensures m[pd][i] != 0 ==>
      var t := FrameOf(m[pd][i]);
      0 <= t < |m| && |m[t]| == 1024 && Pte(m, pd, i, j) == m[t][j]
  {
    assert PdeOk(m, used, pd, i);
  }

  /** A directory entry that is not present is zero. */
  lemma NoTable(m: Memory, used: seq<bool>, pd: int, i: int)
    requires Sound(m, used, pd) && 0 <= i < USER_PDES && m[pd][i] % 2 != 1
    ensures forall t :: !IsTable(m, pd, i, t)
    ensures forall f :: Gone(m, pd, i, 1024, f) <==> Gone(m, pd, i, 0, f)
  {
    assert PdeOk(m, used, pd, i);
    EntryRoundTrip(FrameOf(m[pd][i]), true);
    assert m[pd][i] == 0;
    hide PdeCreate, FrameOf;
    forall f
      ensures Gone(m, pd, i, 1024, f) <==> Gone(m, pd, i, 0, f)
    {
      forall l
        ensures !MapsTo(m, pd, i, l, f)
      {}
    }
  }

  lemma NoneOnce(m: Memory, used: seq<bool>, pd: int, i: int)
    requires Once(m, pd, i, 0) && 0 <= pd < |m| && 0 <= i < USER_PDES && forall t :: !IsTable(m, pd, i, t)
    ensures Once(m, pd, i, 1024)
  {
    forall j, f
      ensures !MapsTo(m, pd, i, j, f)
    {
      if MapsTo(m, pd, i, j, f) { NeedsTable(m, pd, i, j); }
    }
  }

  lemma NeedsTable(m: Memory, pd: int, i: int, j: int)
    requires IsPresent(Pte(m, pd, i, j))
    ensures exists t :: IsTable(m, pd, i, t)
  {
    assert IsTable(m, pd, i, FrameOf(m[pd][i]));
  }

  lemma AllGone(m: Memory, used: seq<bool>, pd: int)
    requires Sound(m, used, pd)
    ensures forall f :: Gone(m, pd, USER_PDES, 0, f) <==>
                        (exists i :: IsTable(m, pd, i, f)) || exists i, j :: MapsTo(m, pd, i, j, f)
    ensures !Gone(m, pd, USER_PDES, 0, pd)
  {
    forall f
      ensures Gone(m, pd, USER_PDES, 0, f) <==>
              (exists i :: IsTable(m, pd, i, f)) || exists i, j :: MapsTo(m, pd, i, j, f)
    {
      if i, j :| MapsTo(m, pd, i, j, f) {
        MapsInside(m, pd, i, j, f);
      }
    }
    forall i
      ensures !IsTable(m, pd, i, pd)
    {
      if 0 <= i < USER_PDES { assert PdeOk(m, used, pd, i); }
    }
    forall i, j
      ensures !MapsTo(m, pd, i, j, pd)
    {
      if MapsTo(m, pd, i, j, pd) { MappedIsNoTable(m, used, pd, i, j, pd); }
    }
  }

  /** Mapping a frame keeps every frame mapped at most once exactly when it was not mapped. */
  lemma InjectiveKept(m: Memory, m1: Memory, pd: int, i: int, j: int, f: int)
    requires Injective(m, pd) && MapsTo(m1, pd, i, j, f) && !IsPresent(Pte(m, pd, i, j))
    requires forall x, y :: x != i || y != j ==> Pte(m1, pd, x, y) == Pte(m, pd, x, y)
    ensures Injective(m1, pd) <==> forall x, y :: !MapsTo(m, pd, x, y, f)
  {
    forall x, y, g | x != i || y != j
      ensures MapsTo(m1, pd, x, y, g) <==> MapsTo(m, pd, x, y, g)
    {}
    if x, y :| MapsTo(m, pd, x, y, f) {
      assert MapsTo(m1, pd, x, y, f);
    }
  }
}
