/** Who owns which sector: the state that filesys.c, free-map.c and inode.c share, as
    values.  FileSys.dfy holds the operations. */
module DiskLayout {
  import opened ByteTypes
  import opened InodeIo
  import opened Bitmap
  import opened Directory

  const FREE_MAP_SECTOR := 0
  const ROOT_DIR_SECTOR := 1

  /** The data of an on-disk inode: its first sector and its length in bytes. */
  datatype Extent = Extent(start: int, length: int)

  /** An open inode, as it stands in open_inodes. */
  datatype OpenInode = OpenInode(sector: int, openCnt: int, removed: bool, denyWriteCnt: nat, data: Extent)

  // ---------------------------------------------------------------- on-disk inodes

  const INODE_MAGIC := 0x494e4f44

  /** struct inode_disk: start, length, magic and 125 unused words. */
  function InodeImage(e: Extent): (r: Bytes)
    requires 0 <= e.start < 0x1_0000_0000 && 0 <= e.length < 0x1_0000_0000
    ensures |r| == 512
  {
    Le32(e.start) + Le32(e.length) + Le32(INODE_MAGIC) + Zeros(500)
  }

  function Zeros(n: nat): (r: Bytes)
    ensures |r| == n
  {
    seq(n, _ => 0)
  }

  function HeaderOf(sec: Bytes): (e: Extent)
    requires |sec| == 512
    ensures 0 <= e.start < 0x1_0000_0000 && 0 <= e.length < 0x1_0000_0000
  {
    Extent(FromLe32(sec[..4]), FromLe32(sec[4..8]))
  }

  /** Where the fields of struct inode_disk are, little-endian. */
  lemma InodeLayout(e: Extent)
    requires 0 <= e.start < 0x1_0000_0000 && 0 <= e.length < 0x1_0000_0000
    ensures var b := InodeImage(e);
            b[0] as int + 0x100 * (b[1] as int) + 0x1_0000 * (b[2] as int) + 0x100_0000 * (b[3] as int) == e.start &&
            b[4] as int + 0x100 * (b[5] as int) + 0x1_0000 * (b[6] as int) + 0x100_0000 * (b[7] as int) == e.length &&
            b[8..12] == [0x44, 0x4f, 0x4e, 0x49] && forall j :: 12 <= j < 512 ==> b[j] == 0
  {
    Le32Places(e.start);
    Le32Places(e.length);
    var b := InodeImage(e);
    assert b[..4] == Le32(e.start) && b[4..8] == Le32(e.length) && b[8..12] == Le32(INODE_MAGIC);
    assert b[4..8][0] == b[4] && b[4..8][1] == b[5] && b[4..8][2] == b[6] && b[4..8][3] == b[7];
    assert b[12..] == Zeros(500);
    forall j | 12 <= j < 512
      ensures b[j] == 0
    {
      assert b[j] == b[12..][j - 12];
    }
  }

  /** inode_open reads back what inode_create wrote. */
  lemma InodeRoundTrip(e: Extent)
    requires 0 <= e.start < 0x1_0000_0000 && 0 <= e.length < 0x1_0000_0000
    ensures HeaderOf(InodeImage(e)) == e
  {
    var b := InodeImage(e);
    assert b[..4] == Le32(e.start) && b[4..8] == Le32(e.length);
    Le32RoundTrip(e.start);
    Le32RoundTrip(e.length);
  }

  // ---------------------------------------------------------------- ownership

  /** Sector x belongs to the inode in sector s with data e. */
  predicate Holds(s: int, e: Extent, x: int) {
    x == s || (0 <= e.length && e.start <= x < e.start + SectorsFor(e.length))
  }

  /** The data of an inode does not run over its header. */
  ghost predicate Apart(s: int, e: Extent) {
    !(0 <= e.length && e.start <= s < e.start + SectorsFor(e.length))
  }

  ghost predicate Fits(e: Extent, size: int) {
    0 <= e.start && 0 <= e.length && e.start + SectorsFor(e.length) <= size
  }

  /** The live inodes, by sector. */
  type Live = map<int, Extent>

  /** Live inodes lie on the disk, and their headers say where their data is. */
  ghost predicate HeadersOk(d: Sectors, live: Live) {
    WellFormed(d) &&
    forall s :: s in live ==> 0 <= s < |d| && HeaderOf(d[s]) == live[s] && Fits(live[s], |d|) && Apart(s, live[s])
  }

  ghost predicate LiveHolds(live: Live, s: int, x: int) { s in live && Holds(s, live[s], x) }

  ghost predicate UsedBy(used: seq<bool>, own: map<int, int>, s: int, x: int) {
    0 <= x < |used| && used[x] && x in own && own[x] == s
  }

  /** Each sector of a live inode is marked used and has that inode as its only owner. */
  ghost predicate Owned(used: seq<bool>, live: Live, own: map<int, int>) {
    forall s, x {:trigger LiveHolds(live, s, x)} :: LiveHolds(live, s, x) ==> UsedBy(used, own, s, x)
  }

  /** Distinct live inodes share no sector, header or data. */
  lemma LiveInodesDisjoint(used: seq<bool>, live: Live, own: map<int, int>, s: int, t: int, x: int)
    requires Owned(used, live, own) && s in live && t in live && s != t
    ensures !Holds(s, live[s], x) || !Holds(t, live[t], x)
  {
    assert LiveHolds(live, s, x) ==> UsedBy(used, own, s, x);
    assert LiveHolds(live, t, x) ==> UsedBy(used, own, t, x);
  }

  /** A sector marked free belongs to no live inode. */
  lemma FreeIsUnowned(used: seq<bool>, live: Live, own: map<int, int>, s: int, x: int)
    requires Owned(used, live, own) && s in live && 0 <= x < |used| && !used[x]
    ensures !Holds(s, live[s], x)
  {
    assert LiveHolds(live, s, x) ==> UsedBy(used, own, s, x);
  }

  /** An entry in use leads to the inode in sector t. */
  ghost predicate InUse(s: seq<Entry>, t: int) {
    exists i :: 0 <= i < |s| && s[i].inUse && s[i].sector == t
  }

  ghost predicate IsOpen(open: seq<OpenInode>, s: int) {
    exists i :: 0 <= i < |open| && open[i].sector == s
  }

  /** Exactly the system's inodes, the directory's and the open ones are live. */
  ghost predicate LiveExactly(live: Live, s: seq<Entry>, open: seq<OpenInode>) {
    forall t :: t in live <==> t == 0 || t == 1 || InUse(s, t) || IsOpen(open, t)
  }

  /** Entries in use lead to different inodes, none of them the system's.  Their names may
      be the same. */
  ghost predicate DirOk(s: seq<Entry>) {
    (forall i, j :: 0 <= i < j < |s| && s[i].inUse && s[j].inUse ==> s[i].sector != s[j].sector) &&
    (forall i :: 0 <= i < |s| && s[i].inUse ==> s[i].sector != 0 && s[i].sector != 1)
  }

  /** Open inodes are listed once, have openers, agree with the disk, and no entry leads to
      those that are marked removed. */
  ghost predicate OpenOk(live: Live, s: seq<Entry>, open: seq<OpenInode>) {
    (forall i :: 0 <= i < |open| ==>
      open[i].openCnt >= 1 && open[i].sector in live && open[i].data == live[open[i].sector] &&
      open[i].sector != 0 && open[i].sector != 1 &&
      (open[i].removed ==> !InUse(s, open[i].sector))) &&
    (forall i, j :: 0 <= i < j < |open| ==> open[i].sector != open[j].sector)
  }

  ghost predicate RootOk(d: Sectors, live: Live, root: Dir) {
    0 in live && 1 in live && live[1] == Extent(root.inode.start, root.inode.length) && root.Readable(d)
  }

  /** The file system's invariant. */
  ghost predicate Sound(used: seq<bool>, d: Sectors, root: Dir, open: seq<OpenInode>, live: Live, own: map<int, int>) {
    |used| == |d| && HeadersOk(d, live) && Owned(used, live, own) && RootOk(d, live, root) &&
    LiveExactly(live, root.Entries(d), open) && DirOk(root.Entries(d)) && OpenOk(live, root.Entries(d), open)
  }

  // ---------------------------------------------------------------- what an inode's bytes depend on

  ghost function Data(d: Sectors, e: Extent): Bytes
    requires WellFormed(d) && Fits(e, |d|)
  {
    Contents(d, e.start, e.length)
  }

  /** The two disks agree on every sector of the inode in sector s. */
  ghost predicate SameFor(d: Sectors, d1: Sectors, s: int, e: Extent) {
    |d1| == |d| && forall x :: 0 <= x < |d| && Holds(s, e, x) ==> d1[x] == d[x]
  }

  lemma SameData(d: Sectors, d1: Sectors, s: int, e: Extent)
    requires WellFormed(d) && WellFormed(d1) && Fits(e, |d|) && SameFor(d, d1, s, e)
    ensures Data(d1, e) == Data(d, e)
  {
    var c, c1 := Data(d, e), Data(d1, e);
    forall i | 0 <= i < |c|
      ensures c1[i] == c[i]
    {
      OffsetInFile(d, e.start, e.length, i);
      SectorOfOffset(i, e.length);
      assert Holds(s, e, e.start + i / 512);
    }
  }

  lemma SameHeader(d: Sectors, d1: Sectors, s: int, e: Extent)
    requires SameFor(d, d1, s, e) && 0 <= s < |d|
    ensures d1[s] == d[s]
  {
    assert Holds(s, e, s);
  }

  /** The directory does not notice changes outside the root's own sectors. */
  lemma SameRoot(d: Sectors, d1: Sectors, root: Dir)
    requires root.Readable(d) && WellFormed(d1)
    requires SameFor(d, d1, 1, Extent(root.inode.start, root.inode.length))
    ensures root.Readable(d1) && root.Entries(d1) == root.Entries(d)
  {
    SameData(d, d1, 1, Extent(root.inode.start, root.inode.length));
  }

  /** The two disks agree wherever a live inode is. */
  ghost predicate SameLive(d: Sectors, d1: Sectors, live: Live) {
    |d1| == |d| && WellFormed(d1) && forall s :: s in live ==> SameFor(d, d1, s, live[s])
  }

  lemma SameLiveSound(used: seq<bool>, d: Sectors, root: Dir, open: seq<OpenInode>, live: Live, own: map<int, int>,
                      d1: Sectors)
    requires Sound(used, d, root, open, live, own) && SameLive(d, d1, live)
    ensures Sound(used, d1, root, open, live, own) && root.Entries(d1) == root.Entries(d)
  {
    SameRoot(d, d1, root);
    forall s | s in live
      ensures 0 <= s < |d1| && HeaderOf(d1[s]) == live[s]
    {
      SameHeader(d, d1, s, live[s]);
    }
  }

  // ---------------------------------------------------------------- the free map

  /** A free map that marks more. */
  lemma MoreMarked(used: seq<bool>, used1: seq<bool>, d: Sectors, root: Dir, open: seq<OpenInode>, live: Live,
                   own: map<int, int>)
    requires Sound(used, d, root, open, live, own) && |used1| == |used|
    requires forall j :: 0 <= j < |used| && used[j] ==> used1[j]
    ensures Sound(used1, d, root, open, live, own)
  {
    forall s, x {:trigger LiveHolds(live, s, x)} | LiveHolds(live, s, x)
      ensures UsedBy(used1, own, s, x)
    {
      assert UsedBy(used, own, s, x);
    }
  }

  lemma MarkSound(used: seq<bool>, d: Sectors, root: Dir, open: seq<OpenInode>, live: Live, own: map<int, int>,
                  i: int, cnt: nat)
    requires Sound(used, d, root, open, live, own) && 0 <= i && i + cnt <= |used|
    ensures Sound(SetRun(used, i, cnt, true), d, root, open, live, own)
  {
    MoreMarked(used, SetRun(used, i, cnt, true), d, root, open, live, own);
  }

  /** Giving back sectors that belong to no live inode. */
  lemma ClearSound(used: seq<bool>, d: Sectors, root: Dir, open: seq<OpenInode>, live: Live, own: map<int, int>,
                   i: int, cnt: nat)
    requires Sound(used, d, root, open, live, own) && 0 <= i && i + cnt <= |used|
    requires forall s, x {:trigger LiveHolds(live, s, x)} :: i <= x < i + cnt ==> !LiveHolds(live, s, x)
    ensures Sound(SetRun(used, i, cnt, false), d, root, open, live, own)
  {
    var used' := SetRun(used, i, cnt, false);
    forall s, x {:trigger LiveHolds(live, s, x)} | LiveHolds(live, s, x)
      ensures UsedBy(used', own, s, x)
    {
      assert UsedBy(used, own, s, x);
    }
  }

  // ---------------------------------------------------------------- creating

  /** The disk after inode_create: a header and zeroed data. */
  function Created(d: Sectors, s: int, e: Extent): (r: Sectors)
    requires 0 <= e.start < 0x1_0000_0000 && 0 <= e.length < 0x1_0000_0000
    ensures |r| == |d|
  {
    seq(|d|, x requires 0 <= x < |d| =>
      if e.start <= x < e.start + SectorsFor(e.length) then Zeros(512)
      else if x == s then InodeImage(e) else d[x])
  }

  lemma CreatedAt(d: Sectors, s: int, e: Extent)
    requires WellFormed(d) && 0 <= e.start < 0x1_0000_0000 && 0 <= e.length < 0x1_0000_0000
    ensures WellFormed(Created(d, s, e))
    ensures forall x :: 0 <= x < |d| && e.start <= x < e.start + SectorsFor(e.length) ==>
            Created(d, s, e)[x] == Zeros(512)
  {
    var d1 := Created(d, s, e);
    forall x | 0 <= x < |d1|
      ensures |d1[x]| == 512
    {
      assert d1[x] == if e.start <= x < e.start + SectorsFor(e.length) then Zeros(512)
                      else if x == s then InodeImage(e) else d[x];
    }
  }

  /** Nobody else's sectors. */
  ghost predicate Unheld(live: Live, s: int, e: Extent) {
    forall t, x {:trigger LiveHolds(live, t, x)} :: LiveHolds(live, t, x) ==> !Holds(s, e, x)
  }

  lemma CreatedSameLive(d: Sectors, live: Live, s: int, e: Extent)
    requires WellFormed(d) && Unheld(live, s, e) && HeadersOk(d, live)
    requires 0 <= e.start < 0x1_0000_0000 && 0 <= e.length < 0x1_0000_0000
    ensures SameLive(d, Created(d, s, e), live)
  {
    var d1 := Created(d, s, e);
    CreatedAt(d, s, e);
    forall t | t in live
      ensures SameFor(d, d1, t, live[t])
    {
      forall x | 0 <= x < |d| && Holds(t, live[t], x)
        ensures d1[x] == d[x]
      {
        assert LiveHolds(live, t, x);
      }
    }
  }

  /** A created inode reads back as itself, and its data as zeros. */
  lemma CreatedReads(d: Sectors, s: int, e: Extent)
    requires WellFormed(d) && 0 <= s < |d| && Fits(e, |d|) && Apart(s, e)
    requires 0 <= e.start < 0x1_0000_0000 && 0 <= e.length < 0x1_0000_0000
    ensures var d1 := Created(d, s, e);
            WellFormed(d1) && HeaderOf(d1[s]) == e && Data(d1, e) == Zeros(e.length)
  {
    var d1 := Created(d, s, e);
    InodeRoundTrip(e);
    CreatedAt(d, s, e);
    forall i | 0 <= i < e.length
      ensures Data(d1, e)[i] == 0
    {
      OffsetInFile(d1, e.start, e.length, i);
      SectorOfOffset(i, e.length);
      assert d1[e.start + i / 512] == Zeros(512);
    }
  }

  /** Ownership once the inode in sector s is live. */
  function OwnMore(own: map<int, int>, s: int, e: Extent): map<int, int>
    requires 0 <= e.length
  {
    own + (map x | e.start <= x < e.start + SectorsFor(e.length) && Holds(s, e, x) :: s) + map[s := s]
  }

  lemma OwnedMore(used: seq<bool>, live: Live, own: map<int, int>, s: int, e: Extent)
    requires Owned(used, live, own) && Unheld(live, s, e) && 0 <= e.length
    requires UsedRun(used, s, 1) && UsedRun(used, e.start, SectorsFor(e.length))
    ensures s !in live && Owned(used, live[s := e], OwnMore(own, s, e))
  {
    assert Holds(s, e, s) && (LiveHolds(live, s, s) ==> !Holds(s, e, s));
    var live', own' := live[s := e], OwnMore(own, s, e);
    forall t, x {:trigger LiveHolds(live', t, x)} | LiveHolds(live', t, x)
      ensures UsedBy(used, own', t, x)
    {
      if t != s {
        assert LiveHolds(live, t, x);
        assert UsedBy(used, own, t, x) && !Holds(s, e, x);
      } else {
        assert used[x];
      }
    }
  }

  // ---------------------------------------------------------------- the root directory changes

  /** Writing the root directory's data keeps every header, and every other inode. */
  lemma RootWriteKeeps(used: seq<bool>, d: Sectors, d1: Sectors, root: Dir, live: Live, own: map<int, int>)
    requires |used| == |d| && HeadersOk(d, live) && Owned(used, live, own) && RootOk(d, live, root)
    requires OnlyFile(d, d1, root.inode.start, root.inode.length)
    ensures HeadersOk(d1, live)
    ensures forall s :: s in live && s != 1 ==> SameFor(d, d1, s, live[s])
  {
    forall s, x | s in live && s != 1 && Holds(s, live[s], x)
      ensures !(root.inode.start <= x < root.inode.start + SectorsFor(root.inode.length))
    {
      LiveInodesDisjoint(used, live, own, s, 1, x);
    }
    forall s | s in live
      ensures d1[s] == d[s]
    {
      assert Holds(s, live[s], s);
    }
  }

  /** Writing over one entry takes away the inode it led to and gives the one it leads to. */
  lemma EntryChanged(s: seq<Entry>, i: nat, e: Entry)
    requires DirOk(s) && i < |s|
    ensures forall t :: InUse(s[i := e], t) <==>
            (InUse(s, t) && !(s[i].inUse && s[i].sector == t)) || (e.inUse && e.sector == t)
  {
    var s1 := s[i := e];
    forall t
      ensures InUse(s1, t) <==> (InUse(s, t) && !(s[i].inUse && s[i].sector == t)) || (e.inUse && e.sector == t)
    {
      if InUse(s, t) && !(s[i].inUse && s[i].sector == t) {
        var j :| 0 <= j < |s| && s[j].inUse && s[j].sector == t;
        assert s1[j] == s[j];
      }
      if InUse(s1, t) {
        var j :| 0 <= j < |s1| && s1[j].inUse && s1[j].sector == t;
        assert j == i || s[j] == s1[j];
      }
      assert s1[i] == e;
    }
  }

  /** The live inodes once dir_add has written over entry i: an inode that was named there
      and is not open is lost, though its sectors stay marked. */
  function LiveBut(live: Live, s: seq<Entry>, i: nat, open: seq<OpenInode>): Live
    requires i < |s|
  {
    if s[i].inUse && (forall j :: 0 <= j < |open| ==> open[j].sector != s[i].sector) then live - {s[i].sector} else live
  }

  /** dir_add makes a created inode live under its name. */
  lemma PublishSound(used: seq<bool>, d: Sectors, d1: Sectors, root: Dir, open: seq<OpenInode>, live: Live,
                     own: map<int, int>, name: Bytes, s: int, e: Extent, i: nat)
    requires Sound(used, d, root, open, live, own) && Unheld(live, s, e)
    requires UsedRun(used, s, 1) && Fits(e, |d|) && Apart(s, e) && UsedRun(used, e.start, SectorsFor(e.length))
    requires HeaderOf(d[s]) == e
    requires OnlyFile(d, d1, root.inode.start, root.inode.length) && root.Readable(d1)
    requires Added(root.Entries(d), root.Entries(d1), name, s, i)
    ensures i < |root.Entries(d)|
    ensures var live1 := LiveBut(live, root.Entries(d), i, open);
            Sound(used, d1, root, open, live1[s := e], OwnMore(own, s, e)) && 0 in live1 && live1[0] == live[0]
    ensures s !in live && d1[s] == d[s] && Data(d1, e) == Data(d, e)
  {
    hide *;
    SoundParts(used, d, root, open, live, own);
    root.ReadableOnDisk(d1);
    OnlyFileSizes(d, d1, root.inode.start, root.inode.length);
    var slots := root.Entries(d);
    AddedCleared(slots, root.Entries(d1), name, s, i);
    var live1 := LiveBut(live, slots, i, open);
    ForgetEntry(slots, open, live, i);
    FewerOwned(used, live, live1, own);
    FewerUnheld(live, live1, s, e);
    OwnedMore(used, live1, own, s, e);
    OwnedMore(used, live, own, s, e);
    RootWriteKeeps(used, d, d1, root, live, own);
    RunInMap(used, s, 1);
    NewElsewhere(d, d1, root, live, s, e);
    PublishParts(Cleared(slots, i), i, root.Entries(d1)[i], open, live1, s, e);
    HeadersMore(d1, live, live1, s, e);
    RootMore(d, d1, root, live, live1, s, e);
    SoundOf(used, d1, root, open, live1[s := e], OwnMore(own, s, e));
  }

  lemma OnlyFileSizes(d: Sectors, d1: Sectors, start: nat, length: nat)
    requires OnlyFile(d, d1, start, length)
    ensures |d1| == |d| && WellFormed(d1) && forall x :: 0 <= x < |d1| ==> |d1[x]| == 512
  {}

  lemma AddedCleared(s: seq<Entry>, t: seq<Entry>, name: Bytes, sector: int, i: nat)
    requires Added(s, t, name, sector, i)
    ensures i < |s| == |t| && t == Cleared(s, i)[i := t[i]] && t[i].inUse && t[i].sector == sector
  {}

  lemma HeadersMore(d: Sectors, live: Live, live1: Live, s: int, e: Extent)
    requires HeadersOk(d, live) && forall t :: t in live1 ==> t in live && live1[t] == live[t]
    requires 0 <= s < |d| && HeaderOf(d[s]) == e && Fits(e, |d|) && Apart(s, e)
    ensures HeadersOk(d, live1[s := e])
  {}

  lemma RootMore(d: Sectors, d1: Sectors, root: Dir, live: Live, live1: Live, s: int, e: Extent)
    requires RootOk(d, live, root) && root.Readable(d1) && 0 in live1 && 1 in live1 && s !in live
    requires forall t :: t in live1 ==> t in live && live1[t] == live[t]
    ensures RootOk(d1, live1[s := e], root) && live1[0] == live[0]
  {}

  lemma SoundParts(used: seq<bool>, d: Sectors, root: Dir, open: seq<OpenInode>, live: Live, own: map<int, int>)
    requires Sound(used, d, root, open, live, own)
    ensures |used| == |d| && WellFormed(d) && HeadersOk(d, live) && Owned(used, live, own) && RootOk(d, live, root) &&
            root.Readable(d) && OnDisk(d, root.inode.start, root.inode.length) && 0 in live && 1 in live
    ensures LiveExactly(live, root.Entries(d), open) && DirOk(root.Entries(d)) && OpenOk(live, root.Entries(d), open)
  {}

  lemma SoundOf(used: seq<bool>, d: Sectors, root: Dir, open: seq<OpenInode>, live: Live, own: map<int, int>)
    requires |used| == |d| && HeadersOk(d, live) && Owned(used, live, own) && RootOk(d, live, root) && root.Readable(d)
    requires LiveExactly(live, root.Entries(d), open) && DirOk(root.Entries(d)) && OpenOk(live, root.Entries(d), open)
    ensures Sound(used, d, root, open, live, own)
  {}

  /** The entry goes, and its inode unless it is open. */
  lemma ForgetEntry(s: seq<Entry>, open: seq<OpenInode>, live: Live, i: nat)
    requires i < |s| && 0 in live && 1 in live
    requires LiveExactly(live, s, open) && DirOk(s) && OpenOk(live, s, open)
    ensures var kept, live1 := Cleared(s, i), LiveBut(live, s, i, open);
            LiveExactly(live1, kept, open) && DirOk(kept) && OpenOk(live1, kept, open) && !kept[i].inUse &&
            0 in live1 && 1 in live1 && forall t :: t in live1 ==> t in live && live1[t] == live[t]
  {
    EntryChanged(s, i, s[i].(inUse := false));
    if s[i].inUse {
      assert InUse(s, s[i].sector);
      assert IsOpen(open, s[i].sector) <==> exists j :: 0 <= j < |open| && open[j].sector == s[i].sector;
    }
    hide IsOpen, InUse;
  }

  lemma FewerOwned(used: seq<bool>, live: Live, live1: Live, own: map<int, int>)
    requires Owned(used, live, own) && forall t :: t in live1 ==> t in live && live1[t] == live[t]
    ensures Owned(used, live1, own)
  {
    forall s, x {:trigger LiveHolds(live1, s, x)} | LiveHolds(live1, s, x)
      ensures UsedBy(used, own, s, x)
    {
      assert LiveHolds(live, s, x);
    }
  }

  lemma FewerUnheld(live: Live, live1: Live, s: int, e: Extent)
    requires Unheld(live, s, e) && forall t :: t in live1 ==> t in live && live1[t] == live[t]
    ensures Unheld(live1, s, e)
  {
    forall t, x {:trigger LiveHolds(live1, t, x)} | LiveHolds(live1, t, x)
      ensures !Holds(s, e, x)
    {
      assert LiveHolds(live, t, x);
    }
  }

  lemma NewElsewhere(d: Sectors, d1: Sectors, root: Dir, live: Live, s: int, e: Extent)
    requires WellFormed(d) && RootOk(d, live, root) && Unheld(live, s, e) && 0 <= s < |d| && Fits(e, |d|)
    requires OnlyFile(d, d1, root.inode.start, root.inode.length)
    ensures d1[s] == d[s] && Data(d1, e) == Data(d, e)
  {
    forall x | Holds(s, e, x)
      ensures !(root.inode.start <= x < root.inode.start + SectorsFor(root.inode.length))
    {
      assert LiveHolds(live, 1, x) ==> !Holds(s, e, x);
    }
    SameData(d, d1, s, e);
    SameHeader(d, d1, s, e);
  }

  lemma PublishParts(slots: seq<Entry>, i: nat, entry: Entry, open: seq<OpenInode>, live: Live, s: int, e: Extent)
    requires LiveExactly(live, slots, open) && DirOk(slots) && OpenOk(live, slots, open) && s !in live
    requires i < |slots| && !slots[i].inUse && entry.inUse && entry.sector == s && 0 in live && 1 in live
    ensures LiveExactly(live[s := e], slots[i := entry], open)
    ensures DirOk(slots[i := entry]) && OpenOk(live[s := e], slots[i := entry], open)
  {
    EntryChanged(slots, i, entry);
    forall j | 0 <= j < |slots| && slots[j].inUse
      ensures slots[j].sector in live
    {
      assert InUse(slots, slots[j].sector);
    }
    hide IsOpen, InUse;
  }

  // ---------------------------------------------------------------- opening, removing, closing

  lemma OpenAgain(used: seq<bool>, d: Sectors, root: Dir, open: seq<OpenInode>, live: Live, own: map<int, int>,
                  i: nat, cnt: int)
    requires Sound(used, d, root, open, live, own) && i < |open| && cnt >= 1
    ensures Sound(used, d, root, open[i := open[i].(openCnt := cnt)], live, own)
  {
    SameSectors(open, i, open[i].(openCnt := cnt));
    hide HeadersOk, Owned, RootOk;
  }

  lemma DenySound(used: seq<bool>, d: Sectors, root: Dir, open: seq<OpenInode>, live: Live, own: map<int, int>,
                  i: nat, n: nat)
    requires Sound(used, d, root, open, live, own) && i < |open|
    ensures Sound(used, d, root, open[i := open[i].(denyWriteCnt := n)], live, own)
  {
    SameSectors(open, i, open[i].(denyWriteCnt := n));
    hide HeadersOk, Owned, RootOk;
  }

  /** Replacing a record by one for the same sector opens and closes nothing. */
  lemma SameSectors(open: seq<OpenInode>, i: nat, o: OpenInode)
    requires i < |open| && o.sector == open[i].sector
    ensures forall s :: IsOpen(open[i := o], s) <==> IsOpen(open, s)
  {
    var open' := open[i := o];
    forall s
      ensures IsOpen(open', s) <==> IsOpen(open, s)
    {
      forall j | 0 <= j < |open|
        ensures open'[j].sector == open[j].sector
      {}
    }
  }

  lemma OpenNew(used: seq<bool>, d: Sectors, root: Dir, open: seq<OpenInode>, live: Live, own: map<int, int>, s: int)
    requires Sound(used, d, root, open, live, own) && InUse(root.Entries(d), s) && !IsOpen(open, s)
    ensures s in live && 0 <= s < |d| && HeaderOf(d[s]) == live[s]
    ensures Sound(used, d, root, [OpenInode(s, 1, false, 0, live[s])] + open, live, own)
  {
    var open' := [OpenInode(s, 1, false, 0, live[s])] + open;
    OneMoreOpen(open, open'[0]);
    forall i | 0 <= i < |open|
      ensures open[i].sector != s
    {}
    hide HeadersOk, Owned, RootOk, IsOpen, InUse, DirOk;
  }

  lemma OneMoreOpen(open: seq<OpenInode>, o: OpenInode)
    ensures forall t :: IsOpen([o] + open, t) <==> IsOpen(open, t) || t == o.sector
  {
    var open' := [o] + open;
    forall t
      ensures IsOpen(open', t) <==> IsOpen(open, t) || t == o.sector
    {
      if IsOpen(open, t) {
        var i :| 0 <= i < |open| && open[i].sector == t;
        assert open'[i + 1].sector == t;
      }
      assert open'[0].sector == o.sector;
    }
  }

  /** dir_remove's write and inode_remove together: the name goes, the open inode stays. */
  lemma UnlinkSound(used: seq<bool>, d: Sectors, d1: Sectors, root: Dir, open: seq<OpenInode>, live: Live,
                    own: map<int, int>, k: nat, i: nat)
    requires Sound(used, d, root, open, live, own) && k < |root.Entries(d)| && root.Entries(d)[k].inUse
    requires i < |open| && open[i].sector == root.Entries(d)[k].sector
    requires OnlyFile(d, d1, root.inode.start, root.inode.length) && root.Readable(d1)
    requires root.Entries(d1) == Cleared(root.Entries(d), k)
    ensures Sound(used, d1, root, open[i := open[i].(removed := true)], live, own)
  {
    RootWriteKeeps(used, d, d1, root, live, own);
    UnlinkParts(root.Entries(d), open, live, k, i);
    hide Owned, LiveExactly, OpenOk, DirOk, Cleared;
  }

  lemma UnlinkParts(s: seq<Entry>, open: seq<OpenInode>, live: Live, k: nat, i: nat)
    requires LiveExactly(live, s, open) && DirOk(s) && OpenOk(live, s, open) && k < |s| && s[k].inUse
    requires i < |open| && open[i].sector == s[k].sector
    ensures var open' := open[i := open[i].(removed := true)];
            LiveExactly(live, Cleared(s, k), open') && DirOk(Cleared(s, k)) && OpenOk(live, Cleared(s, k), open')
    ensures !InUse(Cleared(s, k), s[k].sector)
  {
    EntryChanged(s, k, s[k].(inUse := false));
    SameSectors(open, i, open[i].(removed := true));
    assert IsOpen(open, s[k].sector);
    hide IsOpen, InUse;
  }

  function DropAt(open: seq<OpenInode>, i: nat): seq<OpenInode>
    requires i < |open|
  { open[..i] + open[i + 1..] }

  lemma DropOpen(open: seq<OpenInode>, i: nat)
    requires i < |open| && forall j, k :: 0 <= j < k < |open| ==> open[j].sector != open[k].sector
    ensures forall s :: IsOpen(DropAt(open, i), s) <==> IsOpen(open, s) && s != open[i].sector
  {
    var open' := DropAt(open, i);
    forall s
      ensures IsOpen(open', s) <==> IsOpen(open, s) && s != open[i].sector
    {
      if IsOpen(open, s) && s != open[i].sector {
        var j :| 0 <= j < |open| && open[j].sector == s;
        assert open'[if j < i then j else j - 1].sector == s;
      }
      if IsOpen(open', s) {
        var j :| 0 <= j < |open'| && open'[j].sector == s;
        var o := if j < i then j else j + 1;
        assert open[o].sector == s;
      }
    }
  }

  lemma DropOpenOk(live: Live, live': Live, s: seq<Entry>, open: seq<OpenInode>, i: nat)
    requires OpenOk(live, s, open) && i < |open|
    requires forall t :: t in live && t != open[i].sector ==> t in live' && live'[t] == live[t]
    ensures OpenOk(live', s, DropAt(open, i))
  {
    var open' := DropAt(open, i);
    forall j | 0 <= j < |open'|
      ensures open'[j] == open[if j < i then j else j + 1]
    {}
  }

  /** The last opener of a file that was not removed: with its name lost the inode is
      lost too. */
  lemma CloseNamed(used: seq<bool>, d: Sectors, root: Dir, open: seq<OpenInode>, live: Live, own: map<int, int>, i: nat)
    requires Sound(used, d, root, open, live, own) && i < |open|
    ensures InUse(root.Entries(d), open[i].sector) ==> Sound(used, d, root, DropAt(open, i), live, own)
    ensures !InUse(root.Entries(d), open[i].sector) ==>
            Sound(used, d, root, DropAt(open, i), live - {open[i].sector}, own)
  {
    var s := open[i].sector;
    DropOpen(open, i);
    DropOpenOk(live, live, root.Entries(d), open, i);
    DropOpenOk(live, live - {s}, root.Entries(d), open, i);
    SmallerOwned(used, live, own, s);
    assert IsOpen(open, s);
    hide Owned, IsOpen, InUse, DropAt, OpenOk;
    assert s != 0 && s != 1 by { OpenFacts(used, d, root, open, live, own, i); }
  }

  /** The last opener of a removed file: nothing is live in its sectors any more, and
      they are all still marked used, so free_map_release's assertion holds. */
  lemma CloseRemoved(used: seq<bool>, d: Sectors, root: Dir, open: seq<OpenInode>, live: Live, own: map<int, int>,
                     i: nat)
    requires Sound(used, d, root, open, live, own) && i < |open| && open[i].removed
    ensures var s, e := open[i].sector, open[i].data;
            Sound(used, d, root, DropAt(open, i), live - {s}, own) &&
            UsedRun(used, s, 1) && 0 <= e.length && UsedRun(used, e.start, SectorsFor(e.length)) &&
            Apart(s, e) && Unheld(live - {s}, s, e)
  {
    var s := open[i].sector;
    DropOpenOk(live, live - {s}, root.Entries(d), open, i);
    assert s in live && s != 0 && s != 1 && open[i].data == live[s];
    Footprint(used, d, live, own, s);
    SmallerOwned(used, live, own, s);
    CloseParts(live, root.Entries(d), open, i);
    hide Owned, Holds, UsedRun, Apart, Unheld, IsOpen, InUse, DropAt, LiveExactly, OpenOk, DirOk;
  }

  /** A live inode's sectors are marked used, and no other live inode is in them. */
  lemma Footprint(used: seq<bool>, d: Sectors, live: Live, own: map<int, int>, s: int)
    requires |used| == |d| && HeadersOk(d, live) && Owned(used, live, own) && s in live
    ensures var e := live[s];
            UsedRun(used, s, 1) && 0 <= e.length && UsedRun(used, e.start, SectorsFor(e.length)) &&
            Apart(s, e) && Unheld(live - {s}, s, e)
  {
    var e, live' := live[s], live - {s};
    forall x | Holds(s, e, x)
      ensures UsedBy(used, own, s, x)
    {
      assert LiveHolds(live, s, x);
    }
    assert UsedRun(used, s, 1) by { assert Holds(s, e, s); }
    RunUsed(used, own, s, e);
    forall t, x {:trigger LiveHolds(live', t, x)} | LiveHolds(live', t, x)
      ensures !Holds(s, e, x)
    {
      LiveInodesDisjoint(used, live, own, s, t, x);
    }
  }

  lemma RunUsed(used: seq<bool>, own: map<int, int>, s: int, e: Extent)
    requires 0 <= e.length && 0 <= e.start && e.start + SectorsFor(e.length) <= |used|
    requires forall x :: Holds(s, e, x) ==> UsedBy(used, own, s, x)
    ensures UsedRun(used, e.start, SectorsFor(e.length))
  {
    forall j | e.start <= j < e.start + SectorsFor(e.length)
      ensures used[j]
    {
      assert Holds(s, e, j);
    }
  }

  lemma SmallerOwned(used: seq<bool>, live: Live, own: map<int, int>, s: int)
    requires Owned(used, live, own)
    ensures Owned(used, live - {s}, own)
  {
    var live' := live - {s};
    forall t, x {:trigger LiveHolds(live', t, x)} | LiveHolds(live', t, x)
      ensures UsedBy(used, own, t, x)
    {
      assert LiveHolds(live, t, x);
    }
  }

  lemma CloseParts(live: Live, s: seq<Entry>, open: seq<OpenInode>, i: nat)
    requires LiveExactly(live, s, open) && OpenOk(live, s, open) && i < |open| && !InUse(s, open[i].sector)
    ensures LiveExactly(live - {open[i].sector}, s, DropAt(open, i))
  {
    DropOpen(open, i);
    assert IsOpen(open, open[i].sector);
    hide IsOpen, InUse, DropAt;
  }

  lemma SoundHeaders(used: seq<bool>, d: Sectors, root: Dir, open: seq<OpenInode>, live: Live, own: map<int, int>)
    requires Sound(used, d, root, open, live, own)
    ensures |used| == |d| && HeadersOk(d, live) && Owned(used, live, own) && RootOk(d, live, root) && root.Readable(d)
  {}

  // ---------------------------------------------------------------- what clients see

  /** The bytes of every live inode but the root directory's, by inode number. */
  ghost function Store(d: Sectors, live: Live): map<int, Bytes>
    requires HeadersOk(d, live)
  {
    map s | s in live && s != 1 :: Data(d, live[s])
  }

  lemma StoreSame(d: Sectors, d1: Sectors, live: Live)
    requires HeadersOk(d, live) && HeadersOk(d1, live)
    requires forall s :: s in live && s != 1 ==> SameFor(d, d1, s, live[s])
    ensures Store(d1, live) == Store(d, live)
  {
    forall s | s in live && s != 1
      ensures Data(d1, live[s]) == Data(d, live[s])
    {
      SameData(d, d1, s, live[s]);
    }
  }

  lemma StoreMore(d: Sectors, live: Live, s: int, e: Extent)
    requires HeadersOk(d, live) && HeadersOk(d, live[s := e]) && Fits(e, |d|) && s !in live && s != 1
    ensures Store(d, live[s := e]) == Store(d, live)[s := Data(d, e)]
  {}

  lemma StoreLess(d: Sectors, live: Live, s: int)
    requires HeadersOk(d, live)
    ensures HeadersOk(d, live - {s}) && Store(d, live - {s}) == Store(d, live) - {s}
  {}

  /** The bytes c with data written over them from offset on; what would stick out is not there. */
  function Spliced(c: Bytes, offset: nat, data: Bytes): Bytes {
    if data == [] || offset + |data| > |c| then c else c[..offset] + data + c[offset + |data|..]
  }

  /** Writing inside one live inode's data. */
  lemma FileWriteSound(used: seq<bool>, d: Sectors, root: Dir, open: seq<OpenInode>, live: Live, own: map<int, int>,
                       s: int, offset: nat, data: Bytes)
    requires Sound(used, d, root, open, live, own) && s in live && s != 1
    requires data == [] || offset + |data| <= live[s].length
    ensures var d1 := Patched(d, live[s].start, offset, data);
            Sound(used, d1, root, open, live, own) && root.Entries(d1) == root.Entries(d) &&
            s in Store(d, live) && Store(d1, live) == Store(d, live)[s := Spliced(Store(d, live)[s], offset, data)]
  {
    if data == [] {
      PatchedNothing(d, live[s].start, offset);
      return;
    }
    var e := live[s];
    var d1 := Patched(d, e.start, offset, data);
    PatchedOnlyFile(d, e.start, e.length, offset, data);
    ContentsPatched(d, e.start, e.length, offset, data);
    OthersKept(used, d, d1, live, own, s);
    SameRoot(d, d1, root);
    StoreAt(d, d1, live, s);
  }

  lemma OthersKept(used: seq<bool>, d: Sectors, d1: Sectors, live: Live, own: map<int, int>, s: int)
    requires |used| == |d| && HeadersOk(d, live) && Owned(used, live, own) && s in live
    requires OnlyFile(d, d1, live[s].start, live[s].length)
    ensures HeadersOk(d1, live)
    ensures forall t :: t in live && t != s ==> SameFor(d, d1, t, live[t])
  {
    forall t, x | t in live && t != s && Holds(t, live[t], x)
      ensures !(live[s].start <= x < live[s].start + SectorsFor(live[s].length))
    {
      LiveInodesDisjoint(used, live, own, s, t, x);
    }
    forall t | t in live
      ensures d1[t] == d[t]
    {
      assert Holds(t, live[t], t);
    }
  }

  lemma StoreAt(d: Sectors, d1: Sectors, live: Live, s: int)
    requires HeadersOk(d, live) && HeadersOk(d1, live) && s in live && s != 1
    requires forall t :: t in live && t != s ==> SameFor(d, d1, t, live[t])
    ensures Store(d1, live) == Store(d, live)[s := Data(d1, live[s])]
  {
    forall t | t in live && t != 1 && t != s
      ensures Data(d1, live[t]) == Data(d, live[t])
    {
      SameData(d, d1, t, live[t]);
    }
  }

  // ---------------------------------------------------------------- the free map's own file

  /** The free map's file, and the bits behind the last sector's that its elements hold. */
  datatype MapFile = MapFile(data: Extent, pad: seq<bool>)

  ghost predicate MapShape(m: MapFile, bits: nat) {
    0 <= m.data.start && m.data.length == FileBytes(bits) && bits + |m.pad| == 8 * m.data.length
  }

  /** The elements of the free map, padding and all. */
  function MapImage(used: seq<bool>, pad: seq<bool>): (r: Bytes)
    requires (|used| + |pad|) % 8 == 0
    ensures 8 * |r| == |used| + |pad|
  {
    Pack(used + pad)
  }

  lemma WholeBytes(m: MapFile, bits: nat)
    requires MapShape(m, bits)
    ensures 0 <= m.data.start && (bits + |m.pad|) % 8 == 0
  {
    EightTimes(m.data.length, bits + |m.pad|);
  }

  lemma EightTimes(n: nat, x: int)
    requires x == 8 * n
    ensures x % 8 == 0
  {}

  /** bitmap_write reports success. */
  predicate Persists(m: MapFile, bounceOk: bool) { bounceOk || m.data.length % 512 == 0 }

  /** The file's bytes c after bitmap_write: all of the image, or only whole sectors of it. */
  ghost function MapStored(c: Bytes, image: Bytes, bounceOk: bool): Bytes
    requires |c| == |image|
  {
    var n := Transferred(|image|, 0, |image|, bounceOk);
    image[..n] + c[n..]
  }

  /** What of the image is written: all of it, or only whole sectors. */
  ghost function Part(image: Bytes, bounceOk: bool): Bytes {
    image[..Transferred(|image|, 0, |image|, bounceOk)]
  }

  ghost function MapWritten(d: Sectors, m: MapFile, used: seq<bool>, bounceOk: bool): (r: Sectors)
    requires WellFormed(d) && MapShape(m, |used|)
    ensures |r| == |d| && WellFormed(r)
  {
    WholeBytes(m, |used|);
    Patched(d, m.data.start, 0, Part(MapImage(used, m.pad), bounceOk))
  }

  /** Every sector that the free map marks is marked in its file. */
  ghost predicate Covers(c: Bytes, used: seq<bool>) {
    |used| <= 8 * |c| && forall j :: 0 <= j < |used| && used[j] ==> BitOf(c, j)
  }

  /** The free map's file is in its place and marks at least what the free map marks. */
  ghost predicate MapOk(used: seq<bool>, d: Sectors, live: Live, m: MapFile) {
    MapShape(m, |used|) && WellFormed(d) && 0 in live && live[0] == m.data && Fits(m.data, |d|) &&
    Covers(Data(d, m.data), used)
  }

  /** The free map's file says exactly what the free map says. */
  ghost predicate InStep(c: Bytes, used: seq<bool>) {
    |used| <= 8 * |c| && forall j :: 0 <= j < |used| ==> BitOf(c, j) == used[j]
  }

  lemma StoredWhole(c: Bytes, m: MapFile, used: seq<bool>, bounceOk: bool)
    requires MapShape(m, |used|) && |c| == m.data.length && Persists(m, bounceOk)
    ensures InStep(MapStored(c, MapImage(used, m.pad), bounceOk), used)
  {
    var image := MapImage(used, m.pad);
    assert Transferred(|image|, 0, |image|, bounceOk) == |image|;
    assert MapStored(c, image, bounceOk) == image;
    forall j | 0 <= j < |used|
      ensures BitOf(image, j) == used[j]
    {
      PackedBit(used + m.pad, j);
    }
  }

  /** Even a write cut short leaves every sector marked that was marked before and after. */
  lemma StoredCovers(c: Bytes, m: MapFile, was: seq<bool>, used: seq<bool>, now: seq<bool>, bounceOk: bool)
    requires MapShape(m, |used|) && |c| == m.data.length && Covers(c, was) && |was| == |used| == |now|
    requires forall j :: 0 <= j < |now| && now[j] ==> was[j] && used[j]
    ensures Covers(MapStored(c, MapImage(used, m.pad), bounceOk), now)
  {
    var image := MapImage(used, m.pad);
    var stored := MapStored(c, image, bounceOk);
    forall j | 0 <= j < |now| && now[j]
      ensures BitOf(stored, j)
    {
      PackedBit(used + m.pad, j);
      assert stored[j / 8] == image[j / 8] || stored[j / 8] == c[j / 8];
    }
  }

  /** The two disks have the same root directory and the same files, the free map's aside. */
  ghost predicate SameFiles(d: Sectors, d1: Sectors, root: Dir, live: Live) {
    HeadersOk(d, live) && HeadersOk(d1, live) && root.Readable(d) && root.Readable(d1) &&
    root.Entries(d1) == root.Entries(d) &&
    Store(d1, live) - {0} == Store(d, live) - {0}
  }

  lemma MapWriteSound(used: seq<bool>, d: Sectors, root: Dir, open: seq<OpenInode>, live: Live, own: map<int, int>,
                      m: MapFile, stored: seq<bool>, bounceOk: bool)
    requires MapOk(used, d, live, m) && |stored| == |used| && Sound(used, d, root, open, live, own)
    ensures var d1 := MapWritten(d, m, stored, bounceOk);
            Sound(used, d1, root, open, live, own) && SameFiles(d, d1, root, live) &&
            Data(d1, m.data) == MapStored(Data(d, m.data), MapImage(stored, m.pad), bounceOk)
  {
    hide Sound, HeadersOk, MapImage, Transferred, Spliced, MapStored, Patched, WellFormed, Covers, Part;
    var d1 := MapWritten(d, m, stored, bounceOk);
    var c, part := Data(d, m.data), Part(MapImage(stored, m.pad), bounceOk);
    PartStored(c, m, stored, bounceOk);
    SoundHeaders(used, d, root, open, live, own);
    FileWriteSound(used, d, root, open, live, own, 0, 0, part);
    SoundHeaders(used, d1, root, open, live, own);
  }

  lemma PartStored(c: Bytes, m: MapFile, stored: seq<bool>, bounceOk: bool)
    requires MapShape(m, |stored|) && |c| == m.data.length
    ensures var part := Part(MapImage(stored, m.pad), bounceOk);
            |part| <= |c| && Spliced(c, 0, part) == MapStored(c, MapImage(stored, m.pad), bounceOk)
  {}

  /** Marking a run and writing it back, as free_map_allocate does. */
  lemma AllocateWrite(used: seq<bool>, d: Sectors, root: Dir, open: seq<OpenInode>, live: Live, own: map<int, int>,
                      m: MapFile, r: nat, cnt: nat, bounceOk: bool)
    requires MapOk(used, d, live, m) && FreeRun(used, r, cnt) && Sound(used, d, root, open, live, own)
    ensures var marked := SetRun(used, r, cnt, true);
            var d1 := MapWritten(d, m, marked, bounceOk);
            Sound(used, d1, root, open, live, own) && MapOk(used, d1, live, m) && SameFiles(d, d1, root, live) &&
            (Persists(m, bounceOk) ==> MapOk(marked, d1, live, m) && InStep(Data(d1, m.data), marked))
  {
    var marked := SetRun(used, r, cnt, true);
    MapWriteSound(used, d, root, open, live, own, m, marked, bounceOk);
    StoredCovers(Data(d, m.data), m, used, marked, used, bounceOk);
    if Persists(m, bounceOk) {
      StoredWhole(Data(d, m.data), m, marked, bounceOk);
    }
    hide Sound, Store, BitOf, MapStored, MapImage, Persists, Data, SameFiles;
  }

  /** Clearing a run and writing that back, as free_map_release does. */
  lemma ReleaseWrite(used: seq<bool>, d: Sectors, root: Dir, open: seq<OpenInode>, live: Live, own: map<int, int>,
                     m: MapFile, r: nat, cnt: nat, bounceOk: bool)
    requires MapOk(used, d, live, m) && |used| == |d| && r + cnt <= |used|
    requires Sound(SetRun(used, r, cnt, false), d, root, open, live, own)
    ensures var cleared := SetRun(used, r, cnt, false);
            var d1 := MapWritten(d, m, cleared, bounceOk);
            Sound(cleared, d1, root, open, live, own) && MapOk(cleared, d1, live, m) && SameFiles(d, d1, root, live) &&
            (Persists(m, bounceOk) ==> InStep(Data(d1, m.data), cleared))
  {
    var cleared := SetRun(used, r, cnt, false);
    MapCleared(used, d, live, m, r, cnt);
    MapWriteSound(cleared, d, root, open, live, own, m, cleared, bounceOk);
    StoredCovers(Data(d, m.data), m, used, cleared, cleared, bounceOk);
    if Persists(m, bounceOk) {
      StoredWhole(Data(d, m.data), m, cleared, bounceOk);
    }
    hide Sound, Store, BitOf, MapStored, MapImage, Persists, Data, SameFiles;
  }

  lemma MapCleared(used: seq<bool>, d: Sectors, live: Live, m: MapFile, r: nat, cnt: nat)
    requires MapOk(used, d, live, m) && r + cnt <= |used|
    ensures MapOk(SetRun(used, r, cnt, false), d, live, m)
  {}

  /** Whoever leaves the free map and its file alone keeps them in agreement. */
  lemma MapKept(used: seq<bool>, d: Sectors, d1: Sectors, live: Live, live1: Live, m: MapFile)
    requires MapOk(used, d, live, m) && HeadersOk(d, live) && HeadersOk(d1, live1) && |d1| == |d|
    requires 0 in live1 && live1[0] == live[0] && Data(d1, live[0]) == Data(d, live[0])
    ensures MapOk(used, d1, live1, m)
  {}

  // ---------------------------------------------------------------- formatting

  /** Zeroed data reads as a directory with no entry in use. */
  lemma ZeroSlots(n: nat, i: nat)
    requires i < n / 20
    ensures !Slots(Zeros(n))[i].inUse
  {
    assert Zeros(n)[20 * i..20 * i + 20][19] == 0;
  }

  lemma {:induction false} NoFiles(s: seq<Entry>)
    requires forall i :: 0 <= i < |s| ==> !s[i].inUse
    ensures Proper(s) && Files(s) == map[]
  {
    if s != [] {
      var t := s[..|s| - 1];
      forall i | 0 <= i < |t|
        ensures !t[i].inUse
      {
        assert t[i] == s[i];
      }
      NoFiles(t);
    }
  }

  lemma EmptyDirectory(d: Sectors, root: Dir, e: Extent)
    requires WellFormed(d) && Fits(e, |d|) && e == Extent(root.inode.start, root.inode.length) && e.length % 20 == 0
    requires Data(d, e) == Zeros(e.length)
    ensures root.Valid(d) && root.Map(d) == map[]
  {
    var s := root.Entries(d);
    forall i | 0 <= i < |s|
      ensures !s[i].inUse
    {
      ZeroSlots(e.length, i);
    }
    NoFiles(s);
  }

  /** Writing the free map's file whole changes nothing but its data. */
  lemma MapWrittenRaw(d: Sectors, m: MapFile, used: seq<bool>)
    requires WellFormed(d) && MapShape(m, |used|) && Fits(m.data, |d|)
    ensures var d1 := MapWritten(d, m, used, true);
            Data(d1, m.data) == MapImage(used, m.pad) && OnlyFile(d, d1, m.data.start, m.data.length)
  {
    var image := MapImage(used, m.pad);
    assert image[..m.data.length] == image;
    PatchedOnlyFile(d, m.data.start, m.data.length, 0, image);
    ContentsPatched(d, m.data.start, m.data.length, 0, image);
    var c := Data(d, m.data);
    assert c[..0] + image + c[0 + |image|..] == image;
  }

  /** The disk while it is formatted: the free map's inode, the free map, then the root
      directory's inode with the free map written once more. */
  ghost function FormattedDisk(d: Sectors, m: MapFile, used1: seq<bool>, used2: seq<bool>, e1: Extent): Sectors
    requires WellFormed(d) && MapShape(m, |used1|) && |used1| == |used2| && Fits(m.data, |d|) && Fits(e1, |d|)
    requires m.data.start < 0x1_0000_0000 && m.data.length < 0x1_0000_0000
    requires e1.start < 0x1_0000_0000 && e1.length < 0x1_0000_0000
  {
    CreatedAt(d, 0, m.data);
    Created(MapWritten(MapWritten(Created(d, 0, m.data), m, used1, true), m, used2, true), 1, e1)
  }

  lemma FormattedReads(d: Sectors, m: MapFile, used1: seq<bool>, used2: seq<bool>, e1: Extent)
    requires WellFormed(d) && MapShape(m, |used1|) && |used1| == |used2| && Fits(m.data, |d|) && Fits(e1, |d|) &&
             2 <= |d|
    requires 2 <= m.data.start && m.data.start + SectorsFor(m.data.length) <= e1.start < 0x1_0000_0000
    requires m.data.length < 0x1_0000_0000 && e1.length < 0x1_0000_0000
    ensures var d4 := FormattedDisk(d, m, used1, used2, e1);
            |d4| == |d| && WellFormed(d4) && HeaderOf(d4[0]) == m.data && HeaderOf(d4[1]) == e1 &&
            Data(d4, e1) == Zeros(e1.length) && Data(d4, m.data) == MapImage(used2, m.pad)
  {
    CreatedReads(d, 0, m.data);
    var d1 := Created(d, 0, m.data);
    MapWrittenRaw(d1, m, used1);
    var d2 := MapWritten(d1, m, used1, true);
    MapWrittenRaw(d2, m, used2);
    var d3 := MapWritten(d2, m, used2, true);
    CreatedReads(d3, 1, e1);
    var d4 := Created(d3, 1, e1);
    FormattedMap(d3, d4, m.data, e1);
    hide Data, MapWritten;
    assert d4[0] == d3[0] == d1[0];
  }

  lemma FormattedMap(d3: Sectors, d4: Sectors, e0: Extent, e1: Extent)
    requires WellFormed(d3) && Fits(e0, |d3|) && Fits(e1, |d3|) && 2 <= e0.start &&
             e0.start + SectorsFor(e0.length) <= e1.start
    requires e1.start < 0x1_0000_0000 && e1.length < 0x1_0000_0000 && d4 == Created(d3, 1, e1) && WellFormed(d4)
    requires 2 <= |d3|
    ensures Data(d4, e0) == Data(d3, e0) && d4[0] == d3[0]
  {
    assert SameFor(d3, d4, 0, e0);
    SameData(d3, d4, 0, e0);
  }

  lemma FormattedMapOk(used: seq<bool>, d: Sectors, live: Live, m: MapFile, e1: Extent)
    requires WellFormed(d) && MapShape(m, |used|) && Fits(m.data, |d|) && Data(d, m.data) == MapImage(used, m.pad)
    requires live == map[0 := m.data][1 := e1] && HeadersOk(d, live)
    ensures MapOk(used, d, live, m) && InStep(Data(d, m.data), used) && Store(d, live) - {0} == map[]
  {
    var c := Data(d, m.data);
    StoredWhole(c, m, used, true);
    assert MapStored(c, MapImage(used, m.pad), true) == MapImage(used, m.pad);
  }

  /** The free map of a disk in formatting, and where its two files go. */
  lemma FormatRuns(used: seq<bool>, n0: nat, n1: nat)
    requires |used| >= 2 + n0 + n1 && n0 > 0 && n1 > 0
    requires used[0] && used[1] && forall j :: 2 <= j < |used| ==> !used[j]
    ensures FirstRun(used, 0, n0) == 2
    ensures var used1 := SetRun(used, 2, n0, true);
            used1[0] && used1[1] && FirstRun(used1, 0, n1) == 2 + n0 &&
            SetRun(used1, 2 + n0, n1, true)[0] && SetRun(used1, 2 + n0, n1, true)[1] &&
            UsedRun(SetRun(used1, 2 + n0, n1, true), 2, n0) && UsedRun(SetRun(used1, 2 + n0, n1, true), 2 + n0, n1)
  {
    FirstRunSkips(used, 0, 2, n0);
    FirstRunSkips(SetRun(used, 2, n0, true), 0, 2 + n0, n1);
  }

  /** Formatting gives a sound file system with no file in it. */
  lemma FormattedSound(used: seq<bool>, d: Sectors, root: Dir, e0: Extent, e1: Extent)
    requires |used| == |d| && WellFormed(d) && 2 <= |d|
    requires Fits(e0, |d|) && Fits(e1, |d|) && 2 <= e0.start && e0.start + SectorsFor(e0.length) <= e1.start
    requires HeaderOf(d[0]) == e0 && HeaderOf(d[1]) == e1
    requires used[0] && used[1] && UsedRun(used, e0.start, SectorsFor(e0.length)) &&
             UsedRun(used, e1.start, SectorsFor(e1.length))
    requires e1 == Extent(root.inode.start, root.inode.length) && e1.length % 20 == 0 && Data(d, e1) == Zeros(e1.length)
    ensures var live, own := map[0 := e0][1 := e1], OwnMore(OwnMore(map[], 0, e0), 1, e1);
            Sound(used, d, root, [], live, own) && root.Valid(d) && root.Map(d) == map[]
  {
    FormattedOwned(used, e0, e1);
    EmptyDirectory(d, root, e1);
    NoneInUse(root.Entries(d));
    FormattedHeaders(d, root, e0, e1);
    hide Owned, OwnMore, UsedRun, Data, Files, Zeros, HeadersOk, RootOk;
  }

  lemma FormattedHeaders(d: Sectors, root: Dir, e0: Extent, e1: Extent)
    requires WellFormed(d) && 2 <= |d| && Fits(e0, |d|) && Fits(e1, |d|)
    requires 2 <= e0.start && e0.start + SectorsFor(e0.length) <= e1.start
    requires HeaderOf(d[0]) == e0 && HeaderOf(d[1]) == e1 && e1 == Extent(root.inode.start, root.inode.length)
    requires root.Readable(d)
    ensures HeadersOk(d, map[0 := e0][1 := e1]) && RootOk(d, map[0 := e0][1 := e1], root)
  {}

  lemma NoneInUse(s: seq<Entry>)
    requires Proper(s) && Files(s) == map[]
    ensures forall i :: 0 <= i < |s| ==> !s[i].inUse
    ensures forall t :: !InUse(s, t)
  {
    forall i | 0 <= i < |s|
      ensures !s[i].inUse
    {
      if s[i].inUse { SlotInFiles(s, i); }
    }
  }

  lemma FormattedOwned(used: seq<bool>, e0: Extent, e1: Extent)
    requires 2 <= e0.start && 0 <= e0.length && 0 <= e1.length && e0.start + SectorsFor(e0.length) <= e1.start
    requires 2 <= |used| && used[0] && used[1] && UsedRun(used, e0.start, SectorsFor(e0.length)) &&
             UsedRun(used, e1.start, SectorsFor(e1.length))
    ensures Owned(used, map[0 := e0][1 := e1], OwnMore(OwnMore(map[], 0, e0), 1, e1))
  {
    var none: Live := map[];
    var own0: map<int, int> := map[];
    assert Unheld(none, 0, e0) && Owned(used, none, own0) by {
      assert forall s, x :: !LiveHolds(none, s, x);
    }
    assert UsedRun(used, 0, 1) && UsedRun(used, 1, 1);
    OwnedMore(used, none, own0, 0, e0);
    var live0 := none[0 := e0];
    forall s, x {:trigger LiveHolds(live0, s, x)} | LiveHolds(live0, s, x)
      ensures !Holds(1, e1, x)
    {}
    OwnedMore(used, live0, OwnMore(own0, 0, e0), 1, e1);
    hide OwnMore, UsedRun;
  }

  // ---------------------------------------------------------------- filesys_create, step by step

  /** No live inode is in sector s. */
  ghost predicate Vacant(live: Live, s: int) {
    forall t {:trigger LiveHolds(live, t, s)} :: !LiveHolds(live, t, s)
  }

  /** The sector just allocated for an inode. */
  lemma AfterAllocate(used: seq<bool>, d: Sectors, root: Dir, open: seq<OpenInode>, live: Live, own: map<int, int>,
                      m: MapFile, s: int, bounceOk: bool)
    requires MapOk(used, d, live, m) && FreeRun(used, s, 1) && Sound(used, d, root, open, live, own)
    ensures var used1, d1 := SetRun(used, s, 1, true), MapWritten(d, m, SetRun(used, s, 1, true), bounceOk);
            Sound(used, d1, root, open, live, own) && MapOk(used, d1, live, m) && SameFiles(d, d1, root, live) &&
            (Persists(m, bounceOk) ==> Sound(used1, d1, root, open, live, own) && MapOk(used1, d1, live, m)) &&
            UsedRun(used1, s, 1) && s < |d| && Vacant(live, s)
    ensures s != 0 && s != 1
  {
    AllocateWrite(used, d, root, open, live, own, m, s, 1, bounceOk);
    MarkSound(used, MapWritten(d, m, SetRun(used, s, 1, true), bounceOk), root, open, live, own, s, 1);
    VacantRun(used, d, root, open, live, own, s);
    hide Sound, MapOk, SameFiles, MapWritten, Vacant;
  }

  lemma VacantRun(used: seq<bool>, d: Sectors, root: Dir, open: seq<OpenInode>, live: Live, own: map<int, int>, s: int)
    requires Sound(used, d, root, open, live, own) && FreeRun(used, s, 1)
    ensures Vacant(live, s) && s != 0 && s != 1 && s < |d|
  {
    forall t | LiveHolds(live, t, s)
      ensures false
    {
      FreeIsUnowned(used, live, own, t, s);
    }
    assert LiveHolds(live, 0, 0) && LiveHolds(live, 1, 1) by {
      assert Holds(0, live[0], 0) && Holds(1, live[1], 1);
    }
  }

  lemma VacantStays(live: Live, s: int, used: seq<bool>, d: Sectors, root: Dir, open: seq<OpenInode>,
                    own: map<int, int>)
    requires Sound(used, d, root, open, live, own) && Vacant(live, s) && 0 <= s < |used|
    ensures Sound(SetRun(used, s, 1, false), d, root, open, live, own)
  {
    ClearSound(used, d, root, open, live, own, s, 1);
  }

  lemma AfterCreate(used: seq<bool>, d: Sectors, root: Dir, open: seq<OpenInode>, live: Live, own: map<int, int>,
                    s: int, e: Extent)
    requires Sound(used, d, root, open, live, own) && Vacant(live, s) && UsedRun(used, s, 1)
    requires 0 <= e.start < 0x1_0000_0000 && 0 <= e.length < 0x1_0000_0000
    requires FreeRun(used, e.start, SectorsFor(e.length))
    ensures var used1, d1 := SetRun(used, e.start, SectorsFor(e.length), true), Created(d, s, e);
            Sound(used1, d1, root, open, live, own) && root.Entries(d1) == root.Entries(d) &&
            UsedRun(used1, s, 1) && UsedRun(used1, e.start, SectorsFor(e.length)) &&
            HeaderOf(d1[s]) == e && Fits(e, |d1|) && Data(d1, e) == Zeros(e.length) &&
            HeadersOk(d, live) && HeadersOk(d1, live) && Store(d1, live) == Store(d, live)
    ensures Apart(s, e) && Unheld(live, s, e)
  {
    assert used[s];
    VacantUnheld(used, live, own, s, e);
    CreatedSameLive(d, live, s, e);
    CreatedReads(d, s, e);
    MarkSound(used, d, root, open, live, own, e.start, SectorsFor(e.length));
    SameLiveSound(SetRun(used, e.start, SectorsFor(e.length), true), d, root, open, live, own, Created(d, s, e));
    StoreSame(d, Created(d, s, e), live);
    hide Sound, Created, Unheld, Data, Holds, Owned, WellFormed;
  }

  lemma VacantUnheld(used: seq<bool>, live: Live, own: map<int, int>, s: int, e: Extent)
    requires Owned(used, live, own) && Vacant(live, s)
    requires 0 <= e.length && FreeRun(used, e.start, SectorsFor(e.length))
    ensures Unheld(live, s, e)
  {
    forall t, x {:trigger LiveHolds(live, t, x)} | LiveHolds(live, t, x)
      ensures !Holds(s, e, x)
    {
      if Holds(s, e, x) && x != s { FreeIsUnowned(used, live, own, t, x); }
    }
  }

  lemma AfterPublish(used: seq<bool>, d: Sectors, d1: Sectors, root: Dir, open: seq<OpenInode>, live: Live,
                     own: map<int, int>,
                     name: Bytes, s: int, e: Extent, i: nat)
    requires Sound(used, d, root, open, live, own) && Unheld(live, s, e) && s != 1
    requires UsedRun(used, s, 1) && Fits(e, |d|) && Apart(s, e) && UsedRun(used, e.start, SectorsFor(e.length))
    requires HeaderOf(d[s]) == e
    requires OnlyFile(d, d1, root.inode.start, root.inode.length) && root.Readable(d1)
    requires Added(root.Entries(d), root.Entries(d1), name, s, i)
    ensures var live1 := LiveBut(live, root.Entries(d), i, open);
            Sound(used, d1, root, open, live1[s := e], OwnMore(own, s, e)) && 0 in live1 && live1[0] == live[0] &&
            HeadersOk(d, live1) && HeadersOk(d1, live1[s := e]) &&
            Store(d1, live1[s := e]) == Store(d, live1)[s := Data(d, e)] && Data(d1, live[0]) == Data(d, live[0])
    ensures s !in live && s != 0
  {
    PublishSound(used, d, d1, root, open, live, own, name, s, e, i);
    RootWriteKeeps(used, d, d1, root, live, own);
    var live1 := LiveBut(live, root.Entries(d), i, open);
    StoreSame(d, d1, live1);
    StoreMore(d1, live1, s, e);
    SameData(d, d1, 0, live[0]);
    hide Sound, Owned, OwnMore, Unheld, Data;
  }

  /** inode_create on an allocated sector: the map is written back, then the inode. */
  lemma CreateSound(used: seq<bool>, d: Sectors, root: Dir, open: seq<OpenInode>, live: Live, own: map<int, int>,
                    m: MapFile, s: int, e: Extent, bounceOk: bool)
    requires MapOk(used, d, live, m) && Sound(used, d, root, open, live, own) && Vacant(live, s) && UsedRun(used, s, 1)
    requires 0 <= e.start < 0x1_0000_0000 && 0 <= e.length < 0x1_0000_0000
    requires FreeRun(used, e.start, SectorsFor(e.length)) && Persists(m, bounceOk)
    ensures var used1 := SetRun(used, e.start, SectorsFor(e.length), true);
            var d2 := Created(MapWritten(d, m, used1, bounceOk), s, e);
            Sound(used1, d2, root, open, live, own) && MapOk(used1, d2, live, m) && SameFiles(d, d2, root, live) &&
            InStep(Data(d2, m.data), used1) && UsedRun(used1, s, 1) && UsedRun(used1, e.start, SectorsFor(e.length)) &&
            HeaderOf(d2[s]) == e && Fits(e, |d2|) && Data(d2, e) == Zeros(e.length)
    ensures Apart(s, e) && Unheld(live, s, e)
  {
    var used1 := SetRun(used, e.start, SectorsFor(e.length), true);
    var d1 := MapWritten(d, m, used1, bounceOk);
    var d2 := Created(d1, s, e);
    AllocateWrite(used, d, root, open, live, own, m, e.start, SectorsFor(e.length), bounceOk);
    hide Sound, MapWritten, Created, SetRun, Unheld, Vacant, InStep, Holds, Persists, Zeros, FreeRun;
    AfterCreate(used, d1, root, open, live, own, s, e);
    SameStoreKeeps(used1, d1, d2, live, m);
  }

  /** The same inodes' bytes: the free map's file among them. */
  lemma SameStoreKeeps(used: seq<bool>, d: Sectors, d1: Sectors, live: Live, m: MapFile)
    requires MapOk(used, d, live, m) && HeadersOk(d, live) && HeadersOk(d1, live) && |d1| == |d|
    requires Store(d1, live) == Store(d, live)
    ensures MapOk(used, d1, live, m) && Data(d1, m.data) == Data(d, m.data)
  {
    assert Store(d1, live)[0] == Data(d1, live[0]) && Store(d, live)[0] == Data(d, live[0]);
  }

  /** One inode less, the free map's own kept. */
  lemma LiveLess(used: seq<bool>, d: Sectors, live: Live, m: MapFile, s: int)
    requires MapOk(used, d, live, m) && HeadersOk(d, live) && s != 0
    ensures MapOk(used, d, live - {s}, m) && HeadersOk(d, live - {s})
    ensures Store(d, live - {s}) - {0} == Store(d, live) - {0} - {s}
  {
    StoreLess(d, live, s);
    MapKept(used, d, d, live, live - {s}, m);
  }

  /** A write to another file. */
  lemma FileWriteMap(used: seq<bool>, d: Sectors, d1: Sectors, live: Live, m: MapFile, s: int, c: Bytes)
    requires MapOk(used, d, live, m) && HeadersOk(d, live) && HeadersOk(d1, live) && |d1| == |d| && s != 0 &&
             s != 1 && s in live
    requires Store(d1, live) == Store(d, live)[s := c]
    ensures MapOk(used, d1, live, m) && Data(d1, m.data) == Data(d, m.data)
    ensures Store(d1, live) - {0} == (Store(d, live) - {0})[s := c]
  {
    assert Store(d1, live)[0] == Data(d1, live[0]) && Store(d, live)[0] == Data(d, live[0]);
  }

  /** The files once a new entry has been written over entry i of the root directory. */
  ghost function StoreBut(files: map<int, Bytes>, s: seq<Entry>, i: nat, open: seq<OpenInode>): map<int, Bytes>
    requires i < |s|
  {
    if s[i].inUse && !IsOpen(open, s[i].sector) then files - {s[i].sector} else files
  }

  lemma StoreOfBut(d: Sectors, live: Live, s: seq<Entry>, i: nat, open: seq<OpenInode>)
    requires HeadersOk(d, live) && i < |s|
    ensures var live1 := LiveBut(live, s, i, open);
            HeadersOk(d, live1) && Store(d, live1) == StoreBut(Store(d, live), s, i, open)
  {
    assert IsOpen(open, s[i].sector) <==> exists j :: 0 <= j < |open| && open[j].sector == s[i].sector;
    StoreLess(d, live, s[i].sector);
  }

  /** dir_add's write has made a created inode live under its name. */
  lemma PublishValid(used: seq<bool>, d: Sectors, d1: Sectors, root: Dir, open: seq<OpenInode>, live: Live,
                     own: map<int, int>,
                     m: MapFile, name: Bytes, s: int, e: Extent, i: nat)
    requires MapOk(used, d, live, m) && Sound(used, d, root, open, live, own) && Unheld(live, s, e) && s != 0 && s != 1
    requires UsedRun(used, s, 1) && Fits(e, |d|) && Apart(s, e) && UsedRun(used, e.start, SectorsFor(e.length))
    requires HeaderOf(d[s]) == e
    requires OnlyFile(d, d1, root.inode.start, root.inode.length) && root.Readable(d1)
    requires Added(root.Entries(d), root.Entries(d1), name, s, i)
    ensures var live1 := LiveBut(live, root.Entries(d), i, open)[s := e];
            Sound(used, d1, root, open, live1, OwnMore(own, s, e)) && MapOk(used, d1, live1, m) &&
            HeadersOk(d1, live1) && HeadersOk(d, live) &&
            Store(d1, live1) - {0} == StoreBut(Store(d, live) - {0}, root.Entries(d), i, open)[s := Data(d, e)] &&
            Data(d1, m.data) == Data(d, m.data)
  {
    var live0 := LiveBut(live, root.Entries(d), i, open);
    SoundHeaders(used, d, root, open, live, own);
    FilesBut(Store(d, live), root.Entries(d), i, open, s, Data(d, e));
    hide *;
    AddedInside(root.Entries(d), root.Entries(d1), name, s, i);
    StoreOfBut(d, live, root.Entries(d), i, open);
    AfterPublish(used, d, d1, root, open, live, own, name, s, e, i);
    MapDataIs(used, d, live, m);
    HeadersWellFormed(d1, live0[s := e]);
    MapKept(used, d, d1, live, live0[s := e], m);
  }

  lemma AddedInside(s: seq<Entry>, t: seq<Entry>, name: Bytes, sector: int, i: nat)
    requires Added(s, t, name, sector, i)
    ensures i < |s|
  {}

  lemma MapDataIs(used: seq<bool>, d: Sectors, live: Live, m: MapFile)
    requires MapOk(used, d, live, m)
    ensures 0 in live && live[0] == m.data && WellFormed(d) && Fits(m.data, |d|)
  {}

  lemma FilesBut(files: map<int, Bytes>, s: seq<Entry>, i: nat, open: seq<OpenInode>, t: int, c: Bytes)
    requires i < |s| && t != 0
    ensures StoreBut(files, s, i, open)[t := c] - {0} == StoreBut(files - {0}, s, i, open)[t := c]
  {}

  lemma HeadersWellFormed(d: Sectors, live: Live)
    requires HeadersOk(d, live)
    ensures WellFormed(d)
  {}

  lemma RunInMap(used: seq<bool>, i: int, cnt: nat)
    requires UsedRun(used, i, cnt)
    ensures 0 <= i && i + cnt <= |used|
  {}

  lemma NotNamed(used: seq<bool>, d: Sectors, root: Dir, open: seq<OpenInode>, live: Live, own: map<int, int>, s: int)
    requires Sound(used, d, root, open, live, own) && Vacant(live, s)
    ensures s !in live && !InUse(root.Entries(d), s)
  {
    VacantNotLive(live, s);
    hide InUse;
  }

  lemma VacantNotLive(live: Live, s: int)
    requires Vacant(live, s)
    ensures s !in live
  {
    assert !LiveHolds(live, s, s);
  }

  // ---------------------------------------------------------------- openers

  /** How many openers the inode in sector s has. */
  ghost function Openers(open: seq<OpenInode>, s: int): int {
    if open == [] then 0
    else if open[0].sector == s then open[0].openCnt
    else Openers(open[1..], s)
  }

  /** The inode in sector s has n openers, every other inode as many as before. */
  ghost predicate OpenersNow(was: seq<OpenInode>, now: seq<OpenInode>, s: int, n: int) {
    Openers(now, s) == n && forall t :: t != s ==> Openers(now, t) == Openers(was, t)
  }

  ghost predicate OpenOnce(open: seq<OpenInode>) {
    forall i, j :: 0 <= i < j < |open| ==> open[i].sector != open[j].sector
  }

  lemma {:induction false} OpenersAt(open: seq<OpenInode>, i: nat)
    requires OpenOnce(open) && i < |open|
    ensures Openers(open, open[i].sector) == open[i].openCnt
  {
    if i > 0 {
      assert open[1..][i - 1] == open[i];
      OpenersAt(open[1..], i - 1);
    }
  }

  lemma {:induction false} OpenersNone(open: seq<OpenInode>, s: int)
    requires !IsOpen(open, s)
    ensures Openers(open, s) == 0
  {
    if open != [] {
      assert open[0].sector != s;
      assert forall i :: 0 <= i < |open| - 1 ==> open[1..][i] == open[i + 1];
      OpenersNone(open[1..], s);
    }
  }

  /** Changing the count of one record changes no other inode's openers. */
  lemma {:induction false} OpenersElsewhere(open: seq<OpenInode>, i: nat, o: OpenInode, s: int)
    requires i < |open| && o.sector == open[i].sector && s != o.sector
    ensures Openers(open[i := o], s) == Openers(open, s)
  {
    if i > 0 {
      assert open[i := o][1..] == open[1..][i - 1 := o];
      OpenersElsewhere(open[1..], i - 1, o, s);
    } else {
      assert open[i := o][1..] == open[1..];
    }
  }

  lemma {:induction false} OpenersDropped(open: seq<OpenInode>, i: nat, s: int)
    requires i < |open| && s != open[i].sector
    ensures Openers(DropAt(open, i), s) == Openers(open, s)
  {
    if i > 0 {
      assert DropAt(open, i)[1..] == DropAt(open[1..], i - 1);
      OpenersDropped(open[1..], i - 1, s);
    } else {
      assert DropAt(open, i) == open[1..];
    }
  }

  /** inode_close of a removed inode's last opener gives its sectors back, header and
      data, with the free map written back after each. */
  lemma ReleaseSound(used: seq<bool>, d: Sectors, root: Dir, open: seq<OpenInode>, live: Live, own: map<int, int>,
                     m: MapFile, s: int, e: Extent, bounce1: bool, bounce2: bool)
    requires MapOk(used, d, live, m) && Sound(used, d, root, open, live, own) && Unheld(live, s, e)
    requires UsedRun(used, s, 1) && 0 <= e.length && UsedRun(used, e.start, SectorsFor(e.length)) && Apart(s, e)
    ensures var used1, n := SetRun(used, s, 1, false), SectorsFor(e.length);
            var used2, d1 := SetRun(used1, e.start, n, false), MapWritten(d, m, used1, bounce1);
            UsedRun(used1, e.start, n) && WellFormed(d1) &&
            var d2 := MapWritten(d1, m, used2, bounce2);
            Sound(used2, d2, root, open, live, own) && MapOk(used2, d2, live, m) && SameFiles(d, d2, root, live) &&
            (Persists(m, bounce2) ==> InStep(Data(d2, m.data), used2))
  {
    var used1, n := SetRun(used, s, 1, false), SectorsFor(e.length);
    var d1 := MapWritten(d, m, used1, bounce1);
    ClearUnheld(used, d, root, open, live, own, s, e, s, 1);
    ReleaseWrite(used, d, root, open, live, own, m, s, 1, bounce1);
    ClearUnheld(used1, d1, root, open, live, own, s, e, e.start, n);
    ReleaseWrite(used1, d1, root, open, live, own, m, e.start, n, bounce2);
    SameFilesTwice(d, d1, MapWritten(d1, m, SetRun(used1, e.start, n, false), bounce2), root, live);
    hide Sound, Holds, LiveHolds, MapOk, SameFiles, Unheld, MapWritten, InStep, Data;
  }

  /** The free map has got sector s and the sectors of e back, and nothing else has changed. */
  ghost predicate GivenBack(was: seq<bool>, now: seq<bool>, s: int, e: Extent) {
    |now| == |was| && 0 <= e.length &&
    forall j :: 0 <= j < |was| ==>
      now[j] == (was[j] && j != s && !(e.start <= j < e.start + SectorsFor(e.length)))
  }

  /** The inode whose header is in sector s of this disk has given back its sectors. */
  ghost predicate InodeGivenBack(was: seq<bool>, now: seq<bool>, d: Sectors, s: int) {
    0 <= s < |d| && |d[s]| == 512 && GivenBack(was, now, s, HeaderOf(d[s]))
  }

  /** The inode in sector s has been removed, and only one opener is left. */
  ghost predicate LastOfRemoved(open: seq<OpenInode>, s: int) {
    exists i :: 0 <= i < |open| && open[i].sector == s && open[i].openCnt == 1 && open[i].removed
  }

  lemma LastAt(open: seq<OpenInode>, i: nat)
    requires OpenOnce(open) && i < |open|
    ensures LastOfRemoved(open, open[i].sector) <==> open[i].openCnt == 1 && open[i].removed
  {}

  lemma ReleasedRuns(used: seq<bool>, s: int, e: Extent)
    requires 0 <= s < |used| && 0 <= e.length && 0 <= e.start && e.start + SectorsFor(e.length) <= |used|
    ensures GivenBack(used, SetRun(SetRun(used, s, 1, false), e.start, SectorsFor(e.length), false), s, e)
  {}

  lemma ClearUnheld(used: seq<bool>, d: Sectors, root: Dir, open: seq<OpenInode>, live: Live, own: map<int, int>,
                    s: int, e: Extent, i: int, cnt: nat)
    requires Sound(used, d, root, open, live, own) && Unheld(live, s, e) && 0 <= i && i + cnt <= |used|
    requires forall x :: i <= x < i + cnt ==> Holds(s, e, x)
    ensures Sound(SetRun(used, i, cnt, false), d, root, open, live, own)
  {
    ClearSound(used, d, root, open, live, own, i, cnt);
  }

  lemma SameFilesTwice(d: Sectors, d1: Sectors, d2: Sectors, root: Dir, live: Live)
    requires SameFiles(d, d1, root, live) && SameFiles(d1, d2, root, live)
    ensures SameFiles(d, d2, root, live)
  {}

  lemma OpenFacts(used: seq<bool>, d: Sectors, root: Dir, open: seq<OpenInode>, live: Live, own: map<int, int>, i: nat)
    requires Sound(used, d, root, open, live, own) && i < |open|
    ensures open[i].openCnt >= 1 && open[i].sector in live && open[i].sector != 0 && open[i].sector != 1 &&
            open[i].data == live[open[i].sector]
    ensures Openers(open, open[i].sector) == open[i].openCnt
    ensures open[i].removed ==> !InUse(root.Entries(d), open[i].sector)
    ensures 0 <= open[i].data.length && OpenOnce(open)
  {
    OpenersAt(open, i);
  }

  lemma Counted(used: seq<bool>, d: Sectors, root: Dir, open: seq<OpenInode>, live: Live, own: map<int, int>, i: nat,
                n: int)
    requires Sound(used, d, root, open, live, own) && i < |open|
    ensures var o := open[i];
            Openers(open, o.sector) == o.openCnt && o.openCnt >= 1 &&
            Openers(open[i := o.(openCnt := n)], o.sector) == n &&
            forall t :: t != o.sector ==> Openers(open[i := o.(openCnt := n)], t) == Openers(open, t)
  {
    OpenFacts(used, d, root, open, live, own, i);
    var open' := open[i := open[i].(openCnt := n)];
    OpenersAt(open', i);
    forall t | t != open[i].sector
      ensures Openers(open', t) == Openers(open, t)
    {
      OpenersElsewhere(open, i, open'[i], t);
    }
  }

  lemma Dropped(used: seq<bool>, d: Sectors, root: Dir, open: seq<OpenInode>, live: Live, own: map<int, int>, i: nat)
    requires Sound(used, d, root, open, live, own) && i < |open|
    ensures var s := open[i].sector;
            Openers(DropAt(open, i), s) == 0 && forall t :: t != s ==> Openers(DropAt(open, i), t) == Openers(open, t)
  {
    OpenFacts(used, d, root, open, live, own, i);
    DropOpen(open, i);
    OpenersNone(DropAt(open, i), open[i].sector);
    forall t | t != open[i].sector
      ensures Openers(DropAt(open, i), t) == Openers(open, t)
    {
      OpenersDropped(open, i, t);
    }
  }

  lemma SectorNat(used: seq<bool>, d: Sectors, root: Dir, open: seq<OpenInode>, live: Live, own: map<int, int>, i: nat)
    requires Sound(used, d, root, open, live, own) && i < |open|
    ensures open[i].sector >= 0
  {}

  /** The record that inode_open has just put in front. */
  lemma FirstIndex(open: seq<OpenInode>, i: nat)
    requires OpenOnce(open) && i < |open|
    ensures open[0].sector == open[i].sector ==> i == 0 && DropAt(open, i) == open[1..]
  {}

  lemma SameOpeners(open: seq<OpenInode>, i: nat, o: OpenInode)
    requires i < |open| && o.sector == open[i].sector && o.openCnt == open[i].openCnt && OpenOnce(open)
    ensures forall t :: Openers(open[i := o], t) == Openers(open, t)
  {
    OpenersAt(open, i);
    OpenersAt(open[i := o], i);
    forall t
      ensures Openers(open[i := o], t) == Openers(open, t)
    {
      if t != o.sector { OpenersElsewhere(open, i, o, t); }
    }
  }

  lemma AfterUnlink(used: seq<bool>, d: Sectors, d1: Sectors, root: Dir, open: seq<OpenInode>, live: Live,
                    own: map<int, int>, k: nat, i: nat)
    requires Sound(used, d, root, open, live, own) && k < |root.Entries(d)| && root.Entries(d)[k].inUse
    requires i < |open| && open[i].sector == root.Entries(d)[k].sector
    requires OnlyFile(d, d1, root.inode.start, root.inode.length) && root.Readable(d1)
    requires root.Entries(d1) == Cleared(root.Entries(d), k)
    ensures Sound(used, d1, root, open[i := open[i].(removed := true)], live, own)
    ensures Store(d1, live) == Store(d, live) && !InUse(root.Entries(d1), open[i].sector)
  {
    UnlinkSound(used, d, d1, root, open, live, own, k, i);
    UnlinkParts(root.Entries(d), open, live, k, i);
    RootWriteKeeps(used, d, d1, root, live, own);
    StoreSame(d, d1, live);
    hide Sound, Owned, Cleared;
  }

  lemma StoreOf(d: Sectors, live: Live, s: int)
    requires HeadersOk(d, live) && s in live && s != 1
    ensures s in Store(d, live) && Store(d, live)[s] == Data(d, live[s]) && |Store(d, live)[s]| == live[s].length
    ensures OnDisk(d, live[s].start, live[s].length)
  {}

  lemma TransferFits(size: int, offset: nat, length: nat, bounceOk: bool)
    ensures var n := Transferred(size, offset, length, bounceOk);
            n > 0 ==> offset + n <= length
  {}
}
