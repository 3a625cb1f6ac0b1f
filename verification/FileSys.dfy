/** filesys.c, free-map.c and the life cycle of inodes in inode.c, on one disk. */
module FileSys {
  import opened ByteTypes
  import opened InodeIo
  import opened Bitmap
  import opened Directory
  import opened DiskLayout

  /** What the memory allocator answers during one call: for the directory, the in-memory
      inode and the file; for the bounce buffers of the writes of the free map, in order;
      for the reads and the write of directory entries. */
  datatype Env = Env(
    dirOk: bool, inodeOk: bool, fileOk: bool,
    bounce1: bool, bounce2: bool, bounce3: bool,
    lookOk: Answers, slotOk: Answers, entryOk: bool)

  class FileSystem {
    const freeMap: array<bool>
    const disk: array<Bytes>
    const root: Dir
    const mapInode: Inode            // the inode that free_map_file is open on
    const pad: seq<bool>             // the bits behind the last sector's in the last element
    var mapOpen: bool                // free_map_file is not null
    var openInodes: seq<OpenInode>   // without the system's two
    ghost var live: Live             // the inodes that own sectors
    ghost var own: map<int, int>     // which inode owns a sector

    function M(): MapFile {
      MapFile(Extent(mapInode.start, mapInode.length), pad)
    }

    ghost predicate Valid()
      reads this, freeMap, disk, root.inode, mapInode
    {
      freeMap.Length == disk.Length <= 0x1_0000_0000 && mapOpen &&
      root.inode.denyWriteCnt == 0 && mapInode.denyWriteCnt == 0 &&
      MapOk(freeMap[..], disk[..], live, M()) && Sound(freeMap[..], disk[..], root, openInodes, live, own)
    }

    /** The entries of the root directory. */
    ghost function Slots(): seq<Entry>
      reads this, freeMap, disk, root.inode, mapInode
      requires Valid()
    {
      root.Entries(disk[..])
    }

    /** No two entries carry the same name. */
    ghost predicate DistinctNames()
      reads this, freeMap, disk, root.inode, mapInode
      requires Valid()
    {
      Proper(Slots())
    }

    /** The names in the root directory and the inodes they stand for. */
    ghost function Names(): map<Bytes, int>
      reads this, freeMap, disk, root.inode, mapInode
      requires Valid() && DistinctNames()
    {
      Files(Slots())
    }

    /** The bytes of every inode that an entry leads to or that is open. */
    ghost function Inodes(): map<int, Bytes>
      reads this, freeMap, disk, root.inode, mapInode
      requires Valid()
    {
      Store(disk[..], live) - {0}
    }

    /** The bytes of the free map's file.  Valid has it mark every sector that the free map
        marks, whatever writes of it were cut short. */
    ghost function MapBytes(): Bytes
      reads this, freeMap, disk, root.inode, mapInode
      requires Valid()
    {
      Data(disk[..], M().data)
    }

    /** They say exactly what the free map says. */
    ghost predicate MapInStep()
      reads this, freeMap, disk, root.inode, mapInode
      requires Valid()
    {
      InStep(MapBytes(), freeMap[..])
    }

    /** free_map_init and do_format on a disk of size sectors: the free map's file, then a
        root directory with sixteen free entries; then free_map_open. */
    constructor (size: nat, pad: seq<bool>)
      requires 3 + SectorsFor(FileBytes(size)) <= size < 0x1_0000_0000 && size + |pad| == 8 * FileBytes(size)
      ensures Valid() && DistinctNames() && Names() == map[] && Inodes() == map[] && MapInStep() && openInodes == []
      ensures |Slots()| == 16 && freeMap.Length == size
      ensures forall j :: 0 <= j < size ==> (freeMap[j] <==> j < 3 + SectorsFor(FileBytes(size)))
      ensures fresh(freeMap) && fresh(disk) && fresh(root) && fresh(root.inode) && fresh(mapInode)
    {
      var length0 := FileBytes(size);
      freeMap := new bool[size](_ => false);
      disk := new Bytes[size](_ => Zeros(512));
      var mapNode := new Inode(2, length0);
      var inode := new Inode(2 + SectorsFor(length0), 320);
      mapInode := mapNode;
      root := new Dir(inode);
      this.pad := pad;
      mapOpen := false;
      openInodes := [];
      new;
      hide Valid, DistinctNames, Names, Slots, Inodes, MapInStep, MapBytes;
      Format(length0);
      var ok := FreeMapOpen(true);
    }

    /** A blank disk, nothing open, and room for the two system files. */
    ghost predicate Blank(length0: nat)
      reads this, freeMap, disk, root.inode, mapInode
    {
      freeMap.Length == disk.Length < 0x1_0000_0000 && 3 + SectorsFor(length0) <= disk.Length &&
      SectorsFor(length0) > 0 &&
      length0 < 0x1_0000_0000 && openInodes == [] && !mapOpen &&
      mapInode.start == 2 && mapInode.length == length0 && mapInode.denyWriteCnt == 0 &&
      MapShape(M(), freeMap.Length) &&
      root.inode.start == 2 + SectorsFor(length0) && root.inode.length == 320 && root.inode.denyWriteCnt == 0 &&
      (forall j :: 0 <= j < freeMap.Length ==> !freeMap[j]) &&
      forall s :: 0 <= s < disk.Length ==> disk[s] == Zeros(512)
    }

    /** do_format: free_map_create and dir_create (ROOT_DIR_SECTOR, 16). */
    method Format(length0: nat)
      requires Blank(length0)
      modifies freeMap, disk, this`live, this`own, this`mapOpen
      ensures Valid() && DistinctNames() && Names() == map[] && Inodes() == map[] && MapInStep() && |Slots()| == 16
      ensures forall j :: 0 <= j < freeMap.Length ==> (freeMap[j] <==> j < 3 + SectorsFor(length0))
    {
      hide *;
      ghost var d0, e0, e1 := disk[..], M().data, Extent(root.inode.start, root.inode.length);
      BlankFacts(length0);
      ghost var used1 := FormatDisk(length0);
      FormattedReads(d0, M(), used1, freeMap[..], e1);
      live, own := map[0 := e0][1 := e1], OwnMore(OwnMore(map[], 0, e0), 1, e1);
      FormattedSound(freeMap[..], disk[..], root, e0, e1);
      SoundHeaders(freeMap[..], disk[..], root, [], live, own);
      FormattedMapOk(freeMap[..], disk[..], live, M(), e1);
      SettledWhen();
      Revalidate();
      NoNames();
      SystemUsed(freeMap[..], SectorsFor(length0));
    }

    lemma SystemUsed(used: seq<bool>, n0: nat)
      requires 2 <= |used| && used[0] && used[1] && UsedRun(used, 2, n0) && UsedRun(used, 2 + n0, 1)
      ensures forall j :: 0 <= j < |used| && j < 3 + n0 ==> used[j]
    {}

    lemma NoNames()
      requires Valid() && root.Valid(disk[..]) && root.Map(disk[..]) == map[] && Slots() == root.Entries(disk[..])
      ensures DistinctNames() && Names() == map[] && |Slots()| == root.inode.length / 20
    {}

    lemma BlankFacts(length0: nat)
      requires Blank(length0)
      ensures var e0, e1, n0, d := M().data, Extent(root.inode.start, root.inode.length), SectorsFor(length0), disk[..];
              e0 == Extent(2, length0) && e1 == Extent(2 + n0, 320) && SectorsFor(320) == 1 && openInodes == [] &&
              WellFormed(d) && MapShape(M(), freeMap.Length) && Fits(e0, |d|) && Fits(e1, |d|) && 2 <= |d| &&
              2 + n0 < 0x1_0000_0000 && length0 < 0x1_0000_0000
      ensures freeMap.Length == disk.Length <= 0x1_0000_0000
      ensures root.inode.denyWriteCnt == 0 && mapInode.denyWriteCnt == 0
    {
      BlankDisk(disk[..]);
    }

    lemma SettledWhen()
      ensures Settled() <==>
              freeMap.Length == disk.Length <= 0x1_0000_0000 && mapOpen &&
              root.inode.denyWriteCnt == 0 && mapInode.denyWriteCnt == 0
    {}

    /** The writes of do_format. */
    method FormatDisk(length0: nat) returns (ghost used1: seq<bool>)
      requires Blank(length0) && WellFormed(disk[..])
      modifies freeMap, disk, this`mapOpen
      ensures mapOpen && |used1| == freeMap.Length
      ensures var n0, e1, used := SectorsFor(length0), Extent(root.inode.start, 320), freeMap[..];
              used[0] && used[1] && UsedRun(used, 2, n0) && UsedRun(used, 2 + n0, 1) &&
              (forall j :: 3 + n0 <= j < |used| ==> !used[j]) &&
              WellFormed(old(disk[..])) && Fits(e1, disk.Length) &&
              disk[..] == FormattedDisk(old(disk[..]), M(), used1, used, e1)
    {
      ghost var d0, n0 := disk[..], SectorsFor(length0);
      MarkSystem();
      FormatRuns(freeMap[..], n0, 1);
      assert SectorsFor(320) == 1;
      hide FirstRun, SetRun, Created, UsedRun, WellFormed, Zeros, InodeImage, MapWritten, MapImage, FileBytes, FreeRun;
      var ok, e0 := InodeCreate(0, length0, true, true);
      used1 := freeMap[..];
      mapOpen := true;
      CreatedAt(d0, 0, e0);
      var written := WriteMap(true);
      ghost var e1;
      ok, e1 := InodeCreate(1, 320, true, true);
    }

    lemma BlankDisk(d: Sectors)
      requires forall s :: 0 <= s < |d| ==> d[s] == Zeros(512)
      ensures WellFormed(d)
    {}

    /** The two system inodes' sectors. */
    method MarkSystem()
      requires freeMap.Length >= 2 && forall j :: 0 <= j < freeMap.Length ==> !freeMap[j]
      modifies freeMap
      ensures freeMap[0] && freeMap[1] && forall j :: 2 <= j < freeMap.Length ==> !freeMap[j]
    {
      SetMultiple(freeMap, FREE_MAP_SECTOR, 1, true);
      ghost var used := freeMap[..];
      assert forall j :: 0 <= j < freeMap.Length ==> used[j] == (j == 0);
      SetMultiple(freeMap, ROOT_DIR_SECTOR, 1, true);
      assert forall j :: 0 <= j < freeMap.Length ==> freeMap[..][j] == (j <= 1);
    }

    // ------------------------------------------------------------ free map

    /** The free map's file is where its inode says. */
    ghost predicate MapReady()
      reads this, freeMap, disk, mapInode
    {
      freeMap.Length == disk.Length && mapInode.denyWriteCnt == 0 && MapShape(M(), freeMap.Length) &&
      OnDisk(disk[..], mapInode.start, mapInode.length)
    }

    /** bitmap_write. */
    method WriteMap(bounceOk: bool) returns (ok: bool)
      requires MapReady()
      modifies disk
      ensures WellFormed(old(disk[..])) && disk[..] == MapWritten(old(disk[..]), M(), freeMap[..], bounceOk)
      ensures OnDisk(disk[..], mapInode.start, mapInode.length)
      ensures ok <==> Persists(M(), bounceOk)
    {
      var image := MapImage(freeMap[..], pad);
      var n := mapInode.WriteAt(disk, image, mapInode.length, 0, bounceOk);
      ok := n == mapInode.length;
    }

    /** free_map_allocate: the first free run is marked and the map is written back, or
        nothing is marked. */
    method FreeMapAllocate(cnt: nat, bounceOk: bool) returns (r: int)
      requires MapReady()
      modifies freeMap, disk
      ensures WellFormed(old(disk[..])) && OnDisk(disk[..], mapInode.start, mapInode.length)
      ensures var used, f := old(freeMap[..]), FirstRun(old(freeMap[..]), 0, cnt);
              r == (if f >= 0 && (mapOpen ==> Persists(M(), bounceOk)) then f else -1) &&
              freeMap[..] == (if r >= 0 then SetRun(used, r, cnt, true) else used) &&
              disk[..] == if f >= 0 && mapOpen then MapWritten(old(disk[..]), M(), SetRun(used, f, cnt, true), bounceOk)
                          else old(disk[..])
    {
      hide MapWritten, Persists, MapShape;
      var sector := Scan(freeMap, cnt);
      if sector != -1 {
        SetMultiple(freeMap, sector, cnt, true);
        if mapOpen {
          var ok := WriteMap(bounceOk);
          if !ok {
            SetMultiple(freeMap, sector, cnt, false);
            MarkAndClear(old(freeMap[..]), sector, cnt);
            sector := -1;
          }
        }
      }
      r := sector;
    }

    /** free_map_release.  The precondition is its assertion: all the bits are set. */
    method FreeMapRelease(sector: int, cnt: nat, bounceOk: bool)
      requires MapReady() && UsedRun(freeMap[..], sector, cnt)
      modifies freeMap, disk
      ensures freeMap[..] == SetRun(old(freeMap[..]), sector, cnt, false)
      ensures WellFormed(old(disk[..])) && disk[..] == MapWritten(old(disk[..]), M(), freeMap[..], bounceOk)
      ensures MapReady()
    {
      SetMultiple(freeMap, sector, cnt, false);
      var ok := WriteMap(bounceOk);
    }

    /** free_map_open: the free map is read back from its file; a failure is a panic.  No
        sector that was in use is free afterwards, and nothing changes if the last write was
        whole. */
    method FreeMapOpen(bounceOk: bool) returns (ok: bool)
      requires Valid()
      modifies freeMap
      ensures Valid() && Slots() == old(Slots()) && Inodes() == old(Inodes()) && MapBytes() == old(MapBytes())
      ensures ok <==> Persists(M(), bounceOk)
      ensures ok ==> MapInStep() && forall j :: 0 <= j < freeMap.Length && old(freeMap[j]) ==> freeMap[j]
      ensures !ok || old(MapInStep()) ==> freeMap[..] == old(freeMap[..])
    {
      ghost var was, d := freeMap[..], disk[..];
      SoundHeaders(was, d, root, openInodes, live, own);
      hide Sound, HeadersOk, Owned, RootOk, Store, BitOf, Persists;
      var size := mapInode.length;
      var bits := new Byte[size];
      var n := mapInode.ReadAt(disk, bits, size, 0, bounceOk);
      PersistsWhen(n, bounceOk);
      ok := n == size;
      if ok {
        assert bits[..] == Data(d, M().data);
        TakeBits(bits);
        MoreMarked(was, freeMap[..], d, root, openInodes, live, own);
      }
    }

    /** The elements as they came from the file; last_mask cuts off the rest. */
    method TakeBits(bits: array<Byte>)
      requires freeMap.Length <= 8 * bits.Length
      modifies freeMap
      ensures forall k :: 0 <= k < freeMap.Length ==> freeMap[k] == BitOf(bits[..], k)
    {
      for j := 0 to freeMap.Length
        invariant forall k :: 0 <= k < j ==> freeMap[k] == BitOf(bits[..], k)
      {
        freeMap[j] := BitOf(bits[..], j);
      }
    }

    lemma PersistsWhen(n: nat, bounceOk: bool)
      requires n == Transferred(mapInode.length, 0, mapInode.length, bounceOk)
      ensures n == mapInode.length <==> Persists(M(), bounceOk)
      ensures n == mapInode.length ==> forall c: Bytes :: |c| == n ==> Slice(c, 0, n) == c
    {}

    // ------------------------------------------------------------ inode_create

    /** inode_create: an extent of zeroed data and a header in the given sector. */
    method InodeCreate(sector: nat, length: nat, memOk: bool, bounceOk: bool) returns (ok: bool, ghost e: Extent)
      requires MapReady() && freeMap.Length <= 0x1_0000_0000 && sector < disk.Length
      requires freeMap[sector] && length < 0x1_0000_0000
      modifies freeMap, disk
      ensures WellFormed(old(disk[..]))
      ensures var used, f := old(freeMap[..]), FirstRun(old(freeMap[..]), 0, SectorsFor(length));
              var d1 := if memOk && f >= 0 && mapOpen
                        then MapWritten(old(disk[..]), M(), SetRun(used, f, SectorsFor(length), true), bounceOk)
                        else old(disk[..]);
              (ok <==> memOk && f >= 0 && (mapOpen ==> Persists(M(), bounceOk))) &&
              (ok ==> e == Extent(f, length) && e.start < 0x1_0000_0000 &&
                      freeMap[..] == SetRun(used, f, SectorsFor(length), true) && disk[..] == Created(d1, sector, e)) &&
              (!ok ==> freeMap[..] == used && disk[..] == d1)
    {
      hide MapWritten, Persists, MapShape;
      ok, e := false, Extent(0, 0);
      OnDiskWellFormed(disk[..], mapInode.start, mapInode.length);
      if !memOk {
        return;
      }
      ghost var used := freeMap[..];
      var sectors := SectorsFor(length);
      var start := FreeMapAllocate(sectors, bounceOk);
      if start < 0 {
        return;
      }
      e := Extent(start, length);
      ghost var d := disk[..];
      assert sectors > 0 ==> !used[start] by { assert FreeRun(used, start, sectors); }
      assert sector < start || start + sectors <= sector by {
        assert used[sector] && FreeRun(used, start, sectors);
      }
      disk[sector] := InodeImage(Extent(start, length));
      ZeroRun(start, sectors);
      assert disk[..] == Created(d, sector, e);
      ok := true;
    }

    /** Write zeros to a run of sectors. */
    method ZeroRun(start: nat, sectors: nat)
      requires start + sectors <= disk.Length
      modifies disk
      ensures forall x :: 0 <= x < disk.Length ==>
        disk[x] == if start <= x < start + sectors then Zeros(512) else old(disk[x])
    {
      for i := 0 to sectors
        invariant forall x :: 0 <= x < disk.Length ==>
          disk[x] == if start <= x < start + i then Zeros(512) else old(disk[x])
      {
        disk[start + i] := Zeros(512);
      }
    }

    // ------------------------------------------------------------ filesys_create

    /** When filesys_create succeeds: a sector for the inode, a run for its data, a good
        name that the directory scan does not see, an entry to write over, and memory
        where it is needed. */
    ghost predicate CanCreate(name: Bytes, size: nat, env: Env)
      reads this, freeMap, disk, root.inode, mapInode
      requires Valid()
    {
      var s := FirstRun(freeMap[..], 0, 1);
      env.dirOk && s >= 0 && Persists(M(), env.bounce1) &&
      env.inodeOk && FirstRun(SetRun(freeMap[..], s, 1, true), 0, SectorsFor(size)) >= 0 &&
      Persists(M(), env.bounce2) &&
      root.CanAdd(disk[..], name, env.lookOk, env.slotOk, env.entryOk)
    }

    /** A new inode of zeros in sector s under this name, its entry written over entry i.
        What that held before is lost, and its inode with it unless it is open. */
    ghost predicate HasNew(slots: seq<Entry>, inodes: map<int, Bytes>, name: Bytes, size: nat, s: int, i: nat)
      reads this, freeMap, disk, root.inode, mapInode
    {
      i < |slots| && s !in inodes && !InUse(slots, s) && Valid() && Added(slots, Slots(), name, s, i) && MapInStep() &&
      Inodes() == StoreBut(inodes, slots, i, openInodes)[s := Zeros(size)]
    }

    /** inode_create and dir_add on allocated sector s. */
    method CreateAt(name: Bytes, size: nat, s: nat, env: Env) returns (success: bool)
      requires Valid() && IsName(name) && size <= 0x7FFF_FE00
      requires Vacant(live, s) && UsedRun(freeMap[..], s, 1) && s != 0 && s != 1
      modifies this`live, this`own, freeMap, disk
      ensures success <==>
              env.inodeOk && FirstRun(old(freeMap[..]), 0, SectorsFor(size)) >= 0 && Persists(M(), env.bounce2) &&
                           old(root.CanAdd(disk[..], name, env.lookOk, env.slotOk, env.entryOk))
      ensures success ==>
        HasNew(old(Slots()), old(Inodes()), name, size, s, StopAt(old(Slots()), env.slotOk, 0)) &&
        freeMap[..] ==
        SetRun(old(freeMap[..]), FirstRun(old(freeMap[..]), 0, SectorsFor(size)), SectorsFor(size), true)
      ensures !success ==>
        Valid() && Vacant(live, s) && UsedRun(freeMap[..], s, 1) && own == old(own) &&
        Slots() == old(Slots()) && Inodes() == old(Inodes()) &&
        var f := FirstRun(old(freeMap[..]), 0, SectorsFor(size));
        freeMap[..] == if env.inodeOk && f >= 0 && Persists(M(), env.bounce2)
                       then SetRun(old(freeMap[..]), f, SectorsFor(size), true) else old(freeMap[..])
    {
      ghost var used, d := freeMap[..], disk[..];
      RunInMap(used, s, 1);
      assert used[s];
      ValidMapReady();
      SoundHeaders(used, d, root, openInodes, live, own);
      NotNamed(used, d, root, openInodes, live, own, s);
      hide Sound, MapOk, FirstRun, SetRun, Store, FreeRun, UsedRun, Vacant, Unheld, Owned, HeadersOk, Created, Data,
           LiveExactly, OpenOk, DirOk, Apart, MapWritten, Persists, MapShape, InStep, WellFormed, OnDisk, StopAt,
           Sees, Added,
           SameFiles, HasNew;
      success := false;
      var ok, e := InodeCreate(s, size, env.inodeOk, env.bounce2);
      ghost var f := FirstRun(used, 0, SectorsFor(size));
      if !ok {
        if env.inodeOk && f >= 0 {
          AllocateWrite(used, d, root, openInodes, live, own, M(), f, SectorsFor(size), env.bounce2);
          FilesSame(d, disk[..]);
        }
        return;
      }
      CreateSound(used, d, root, openInodes, live, own, M(), s, e, env.bounce2);
      ghost var used2, d2 := freeMap[..], disk[..];
      FilesSame(d, d2);
      success := root.Add(disk, name, s, env.lookOk, env.slotOk, env.entryOk);
      if success {
        PublishNew(used2, d2, name, s, e, StopAt(root.Entries(d2), env.slotOk, 0));
      }
    }

    lemma ValidMapReady()
      requires Valid()
      ensures MapReady()
    {}

    lemma FilesSame(d: Sectors, d1: Sectors)
      requires SameFiles(d, d1, root, live)
      ensures HeadersOk(d, live) && HeadersOk(d1, live) && root.Readable(d) && root.Readable(d1)
      ensures root.Entries(d1) == root.Entries(d) && Store(d1, live) - {0} == Store(d, live) - {0}
    {}

    /** The new inode goes live. */
    ghost method PublishNew(used: seq<bool>, d: Sectors, name: Bytes, s: int, e: Extent, i: nat)
      requires freeMap.Length == disk.Length <= 0x1_0000_0000 && mapOpen && used == freeMap[..]
      requires root.inode.denyWriteCnt == 0 && mapInode.denyWriteCnt == 0
      requires MapOk(used, d, live, M()) && Sound(used, d, root, openInodes, live, own) && Unheld(live, s, e) &&
               s != 0 && s != 1
      requires UsedRun(used, s, 1) && Fits(e, |d|) && Apart(s, e) && UsedRun(used, e.start, SectorsFor(e.length))
      requires HeaderOf(d[s]) == e && InStep(Data(d, M().data), used) && Data(d, e) == Zeros(e.length)
      requires OnlyFile(d, disk[..], root.inode.start, root.inode.length) && root.Readable(disk[..])
      requires Added(root.Entries(d), root.Entries(disk[..]), name, s, i)
      requires !InUse(root.Entries(d), s) && s !in Store(d, live)
      modifies this`live, this`own
      ensures HasNew(root.Entries(d), Store(d, old(live)) - {0}, name, e.length, s, i)
    {
      hide *;
      ghost var live0 := live;
      SoundHeaders(used, d, root, openInodes, live, own);
      root.ReadableOnDisk(disk[..]);
      AddedInside(root.Entries(d), root.Entries(disk[..]), name, s, i);
      MapDataIs(used, d, live, M());
      PublishValid(used, d, disk[..], root, openInodes, live, own, M(), name, s, e, i);
      live, own := LiveBut(live, root.Entries(d), i, openInodes)[s := e], OwnMore(own, s, e);
      SettledWhen();
      Revalidate();
      NewNamed(d, live0, name, s, e, i);
    }

    lemma NewNamed(d: Sectors, live0: Live, name: Bytes, s: int, e: Extent, i: nat)
      requires Valid() && Slots() == root.Entries(disk[..]) && root.Readable(d) && HeadersOk(d, live0) && 0 <= e.length
      requires OnDisk(d, root.inode.start, root.inode.length) && MapInStep()
      requires Added(root.Entries(d), Slots(), name, s, i) && !InUse(root.Entries(d), s) && s !in Store(d, live0)
      requires i < |root.Entries(d)|
      requires Inodes() == StoreBut(Store(d, live0) - {0}, root.Entries(d), i, openInodes)[s := Zeros(e.length)]
      ensures HasNew(root.Entries(d), Store(d, live0) - {0}, name, e.length, s, i)
    {
      hide Sound, MapOk, InStep, Data, Store, StoreBut, Added, HeadersOk, WellFormed, Zeros, InUse;
    }

    /** filesys_create: a new name for a new inode of zeros; on failure no file changes,
        though sectors may stay marked used. */
    method Create(name: Bytes, size: nat, env: Env) returns (success: bool)
      requires Valid() && IsName(name) && size <= 0x7FFF_FE00
      modifies this`live, this`own, freeMap, disk
      ensures openInodes == old(openInodes)
      ensures success <==> old(CanCreate(name, size, env))
      ensures success ==>
        HasNew(old(Slots()), old(Inodes()), name, size,
               FirstRun(old(freeMap[..]), 0, 1), StopAt(old(Slots()), env.slotOk, 0)) &&
        var used := SetRun(old(freeMap[..]), FirstRun(old(freeMap[..]), 0, 1), 1, true);
        freeMap[..] == SetRun(used, FirstRun(used, 0, SectorsFor(size)), SectorsFor(size), true)
      ensures !success ==> Valid() && Slots() == old(Slots()) && Inodes() == old(Inodes())
      ensures !success ==>
        RunLeft(old(freeMap[..]), freeMap[..], old(DataRun(size, env)), SectorsFor(size))
    {
      hide *;
      var inodeSector := 0;
      success := false;
      ghost var used, d := freeMap[..], disk[..];
      Views();
      ValidMapReady();
      CanCreateIs(name, size, env);
      DataRunIs(size, env);
      if env.dirOk {
        var r := FreeMapAllocate(1, env.bounce1);
        ghost var f := FirstRun(used, 0, 1);
        if f >= 0 {
          AfterAllocate(used, d, root, openInodes, live, own, M(), f, env.bounce1);
          FilesSame(d, disk[..]);
        }
        Revalidate();
        if r >= 0 {
          inodeSector := r;
          SameCanAdd(d, disk[..], name, env);
          success := CreateAt(name, size, inodeSector, env);
        }
      }
      if !success && inodeSector != 0 {
        Undo(inodeSector, env.bounce3);
        Undone(used, SectorsFor(size), env.inodeOk && Persists(M(), env.bounce2), freeMap[..]);
      }
      if !success && inodeSector == 0 { NoRunLeft(used, SectorsFor(size)); }
    }

    /** Where inode_create puts the data, if filesys_create gets so far; -1 otherwise. */
    ghost function DataRun(size: nat, env: Env): int
      reads this, freeMap, disk, root.inode, mapInode
    {
      var used := freeMap[..];
      var s := FirstRun(used, 0, 1);
      if env.dirOk && s >= 0 && Persists(M(), env.bounce1) && env.inodeOk && Persists(M(), env.bounce2)
      then FirstRun(SetRun(used, s, 1, true), 0, SectorsFor(size)) else -1
    }

    lemma DataRunIs(size: nat, env: Env)
      ensures var s := FirstRun(freeMap[..], 0, 1);
              DataRun(size, env) ==
              if env.dirOk && s >= 0 && Persists(M(), env.bounce1) && env.inodeOk && Persists(M(), env.bounce2)
              then FirstRun(SetRun(freeMap[..], s, 1, true), 0, SectorsFor(size)) else -1
    {
      hide Persists, FirstRun, SetRun;
    }

    lemma CanCreateIs(name: Bytes, size: nat, env: Env)
      requires Valid()
      ensures mapOpen && freeMap.Length == disk.Length
      ensures var s := FirstRun(freeMap[..], 0, 1);
              CanCreate(name, size, env) <==>
              env.dirOk && s >= 0 && Persists(M(), env.bounce1) &&
              env.inodeOk && FirstRun(SetRun(freeMap[..], s, 1, true), 0, SectorsFor(size)) >= 0 &&
              Persists(M(), env.bounce2) && root.CanAdd(disk[..], name, env.lookOk, env.slotOk, env.entryOk)
    {
      hide Sound, MapOk, Sees, StopAt, FirstRun, SetRun;
    }

    lemma SameCanAdd(d: Sectors, d1: Sectors, name: Bytes, env: Env)
      requires root.Readable(d) && root.Readable(d1) && root.Entries(d) == root.Entries(d1)
      ensures root.CanAdd(d, name, env.lookOk, env.slotOk, env.entryOk) ==
              root.CanAdd(d1, name, env.lookOk, env.slotOk, env.entryOk)
    {}

    /** free_map_release of the inode sector of a failed filesys_create. */
    method Undo(s: nat, bounceOk: bool)
      requires Valid() && Vacant(live, s) && UsedRun(freeMap[..], s, 1)
      modifies freeMap, disk
      ensures Valid() && Slots() == old(Slots()) && Inodes() == old(Inodes())
      ensures s < |old(freeMap[..])| && freeMap[..] == SetRun(old(freeMap[..]), s, 1, false)
      ensures Persists(M(), bounceOk) ==> MapInStep()
    {
      ValidMapReady();
      ghost var used, d := freeMap[..], disk[..];
      RunInMap(used, s, 1);
      VacantStays(live, s, used, d, root, openInodes, own);
      hide Sound, MapOk, SetRun, UsedRun, Vacant, Store, HeadersOk, Owned, RootOk, Persists, MapWritten, SameFiles,
           MapShape, OnDisk, WellFormed, InStep, Data;
      FreeMapRelease(s, 1, bounceOk);
      ReleaseWrite(used, d, root, openInodes, live, own, M(), s, 1, bounceOk);
      FilesSame(d, disk[..]);
    }

    /** With memory to be had, filesys_create inserts exactly the names that are good and
        absent while there is room, and touches no other file. */
    lemma CalmCreate(name: Bytes, size: nat, env: Env)
      requires Valid() && DistinctNames() && env.dirOk && env.inodeOk && env.bounce1 && env.bounce2 && env.entryOk
      requires forall j: nat :: j < |Slots()| ==> env.lookOk(j) && env.slotOk(j)
      ensures var s := FirstRun(freeMap[..], 0, 1);
              CanCreate(name, size, env) <==>
              s >= 0 && FirstRun(SetRun(freeMap[..], s, 1, true), 0, SectorsFor(size)) >= 0 &&
              0 < |name| <= 14 && name !in Names() && root.HasRoom(disk[..])
      ensures CanCreate(name, size, env) ==>
        var i := StopAt(Slots(), env.slotOk, 0);
        i < |Slots()| && !Slots()[i].inUse && Without(Slots(), i) == Names() &&
        StoreBut(Inodes(), Slots(), i, openInodes) == Inodes()
    {
      root.CalmAdd(disk[..], name, env.lookOk, env.slotOk);
      CalmScan(Slots(), env.slotOk, name);
      hide Sound, MapOk, Sees, FirstRun, SetRun;
    }

    lemma ReadyToCreate(name: Bytes, env: Env)
      requires Valid() && env.dirOk && env.inodeOk && env.bounce1 && env.bounce2 && env.entryOk
      requires TakesEmpty(freeMap[..])
      requires 0 < |name| <= 14 && !Sees(Slots(), env.lookOk, name) && StopAt(Slots(), env.slotOk, 0) < |Slots()|
      ensures CanCreate(name, 0, env) && FirstRun(freeMap[..], 0, 1) >= 0
      ensures var used1 := SetRun(freeMap[..], FirstRun(freeMap[..], 0, 1), 1, true);
              FirstRun(used1, 0, SectorsFor(0)) >= 0 &&
              WithEmpty(freeMap[..]) == SetRun(used1, FirstRun(used1, 0, SectorsFor(0)), SectorsFor(0), true)
    {
      hide Sound, MapOk, Sees, FirstRun, SetRun, StopAt;
    }

    /** A name that is seen is not created again. */
    lemma NotAgain(name: Bytes, size: nat, env: Env)
      requires Valid() && env.dirOk && env.inodeOk && env.bounce1 && env.bounce2 && Sees(Slots(), env.lookOk, name)
      ensures !CanCreate(name, size, env)
      ensures var s := FirstRun(freeMap[..], 0, 1);
              s >= 0 ==> DataRun(size, env) == FirstRun(SetRun(freeMap[..], s, 1, true), 0, SectorsFor(size))
    {
      DataRunIs(size, env);
      hide Sound, MapOk, Sees, FirstRun, SetRun, StopAt, DataRun;
    }

    lemma NoMore(name: Bytes, env: Env)
      requires Valid() && FirstRun(freeMap[..], 0, 1) < 0
      ensures !CanCreate(name, 0, env)
    {
      hide Sound, MapOk, Sees, FirstRun, SetRun, StopAt;
    }

    lemma NewIsValid()
      requires exists slots, inodes, name, size: nat, s: nat, i: nat :: HasNew(slots, inodes, name, size, s, i)
      ensures Valid()
    {}

    /** What a creation means for the names: they stay distinct exactly if no other entry had
        the new one, and then the directory maps it to the new inode and has lost the name it
        was written over, if there was one. */
    lemma NewNames(slots: seq<Entry>, inodes: map<int, Bytes>, name: Bytes, size: nat, s: nat, i: nat)
      requires Proper(slots) && HasNew(slots, inodes, name, size, s, i)
      ensures DistinctNames() <==> name !in Files(slots) || Hit(slots, name, i)
      ensures DistinctNames() ==> Names() == Without(slots, i)[name := s]
    {
      Overwrite(slots, i, Slots()[i]);
      hide Sound, MapOk, Files, Without;
    }

    lemma NewFacts(slots: seq<Entry>, name: Bytes, s: int, i: nat)
      requires s >= 0 && exists inodes, size: nat :: HasNew(slots, inodes, name, size, s, i)
      ensures Valid() && Added(slots, Slots(), name, s, i)
    {}

    /** A formatted directory has every entry to spare. */
    lemma NoSlots()
      requires Valid() && DistinctNames() && Names() == map[] && |Slots()| == 16
      ensures forall i :: 0 <= i < |Slots()| ==> !Slots()[i].inUse
      ensures forall ok: Answers, name :: !Sees(Slots(), ok, name)
      ensures forall ok: Answers :: StopAt(Slots(), ok, 0) == 0
    {
      EmptySlots(Slots());
    }

    // ------------------------------------------------------------ views

    /** What no operation on files can change. */
    ghost predicate Settled()
      reads this`mapOpen, root.inode, mapInode
    {
      freeMap.Length == disk.Length <= 0x1_0000_0000 && mapOpen && root.inode.denyWriteCnt == 0 &&
      mapInode.denyWriteCnt == 0
    }

    /** The invariant and what clients see, in terms of the disk. */
    lemma Views()
      requires Valid()
      ensures Settled() && MapOk(freeMap[..], disk[..], live, M()) &&
              Sound(freeMap[..], disk[..], root, openInodes, live, own)
      ensures HeadersOk(disk[..], live) && root.Readable(disk[..]) && WellFormed(disk[..]) &&
              Fits(M().data, disk.Length)
      ensures Slots() == root.Entries(disk[..]) && Inodes() == Store(disk[..], live) - {0}
      ensures MapInStep() <==> InStep(Data(disk[..], M().data), freeMap[..])
    {
      hide InStep, Data, Store;
    }

    lemma Revalidate()
      requires Settled() && MapOk(freeMap[..], disk[..], live, M()) &&
               Sound(freeMap[..], disk[..], root, openInodes, live, own)
      ensures Valid()
      ensures HeadersOk(disk[..], live) && root.Readable(disk[..]) && WellFormed(disk[..]) &&
              Fits(M().data, disk.Length)
      ensures Slots() == root.Entries(disk[..]) && Inodes() == Store(disk[..], live) - {0}
      ensures MapBytes() == Data(disk[..], M().data)
      ensures MapInStep() <==> InStep(Data(disk[..], M().data), freeMap[..])
    {
      hide InStep, Data, Store;
    }

    // ------------------------------------------------------------ opening and closing

    /** inode_open: one more opener, of the record that is there or of a new one. */
    method InodeOpen(s: int, memOk: bool) returns (ok: bool, i: nat)
      requires Valid() && InUse(Slots(), s)
      modifies this`openInodes
      ensures Valid() && Slots() == old(Slots()) && Inodes() == old(Inodes())
      ensures MapInStep() == old(MapInStep())
      ensures ok <==> IsOpen(old(openInodes), s) || memOk
      ensures ok ==> i < |openInodes| && openInodes[i].sector == s && !openInodes[i].removed &&
                     OpenersNow(old(openInodes), openInodes, s, Openers(old(openInodes), s) + 1)
      ensures ok && openInodes[i].openCnt == 1 ==> openInodes[0].sector == s && openInodes[1..] == old(openInodes)
      ensures ok && openInodes[i].openCnt > 1 ==>
        i < |old(openInodes)| &&
        old(openInodes) == openInodes[i := openInodes[i].(openCnt := openInodes[i].openCnt - 1)]
      ensures !ok ==> openInodes == old(openInodes)
    {
      hide *;
      ghost var was := openInodes;
      i := 0;
      while i < |openInodes|
        invariant 0 <= i <= |openInodes| && openInodes == was
        invariant forall j :: 0 <= j < i ==> openInodes[j].sector != s
      {
        if openInodes[i].sector == s {
          RecordFacts(i);
          Reopen(i);
          RecordFacts(i);
          ok := true;
          return;
        }
        i := i + 1;
      }
      NotOpen(was, s);
      if !memOk {
        return false, 0;
      }
      Views();
      ReadHeader(s);
      openInodes := [OpenInode(s, 1, false, 0, HeaderOf(disk[s]))] + openInodes;
      assert openInodes[1..] == was;
      Revalidate();
      NewOpener(was, openInodes, s);
      ok, i := true, 0;
    }

    /** inode_reopen. */
    method Reopen(i: nat)
      requires Valid() && i < |openInodes|
      modifies this`openInodes
      ensures Valid() && Slots() == old(Slots()) && Inodes() == old(Inodes())
      ensures MapInStep() == old(MapInStep())
      ensures var o := old(openInodes)[i];
              openInodes == old(openInodes)[i := o.(openCnt := o.openCnt + 1)] &&
              OpenersNow(old(openInodes), openInodes, o.sector, o.openCnt + 1) &&
              Openers(old(openInodes), o.sector) == o.openCnt
    {
      hide *;
      var o := openInodes[i];
      Views();
      RecordFacts(i);
      CountedHere(i, o.openCnt + 1);
      openInodes := openInodes[i := o.(openCnt := o.openCnt + 1)];
      Revalidate();
    }

    lemma CountedHere(i: nat, n: int)
      requires Valid() && i < |openInodes| && n >= 1
      ensures var o := openInodes[i];
              o.openCnt >= 1 && Openers(openInodes, o.sector) == o.openCnt &&
              OpenersNow(openInodes, openInodes[i := o.(openCnt := n)], o.sector, n) &&
              Sound(freeMap[..], disk[..], root, openInodes[i := o.(openCnt := n)], live, own)
    {
      hide MapOk;
      Counted(freeMap[..], disk[..], root, openInodes, live, own, i, n);
      OpenAgain(freeMap[..], disk[..], root, openInodes, live, own, i, n);
    }

    lemma ReadHeader(s: int)
      requires Valid() && InUse(Slots(), s) && !IsOpen(openInodes, s)
      ensures 0 <= s < disk.Length && |disk[s]| == 512
      ensures Sound(freeMap[..], disk[..], root, [OpenInode(s, 1, false, 0, HeaderOf(disk[s]))] + openInodes, live, own)
    {
      hide MapOk;
      OpenNew(freeMap[..], disk[..], root, openInodes, live, own, s);
      SectorSize(freeMap[..], disk[..], root, openInodes, live, own, s);
    }

    lemma NotOpen(open: seq<OpenInode>, s: int)
      requires forall j :: 0 <= j < |open| ==> open[j].sector != s
      ensures !IsOpen(open, s)
    {}

    lemma SectorSize(used: seq<bool>, d: Sectors, root: Dir, open: seq<OpenInode>, live: Live, own: map<int, int>,
                     s: int)
      requires Sound(used, d, root, open, live, own) && 0 <= s < |d|
      ensures |d[s]| == 512
    {}

    lemma NewOpener(was: seq<OpenInode>, now: seq<OpenInode>, s: int)
      requires !IsOpen(was, s) && now != [] && now[1..] == was && now[0].sector == s && now[0].openCnt == 1
      ensures OpenersNow(was, now, s, Openers(was, s) + 1)
    {
      OpenersNone(was, s);
    }

    /** inode_close: one opener less; with the last one the record goes, and if the file
        had been removed its inode goes too and its sectors are free again.  An inode that
        lost its name in any other way goes with its sectors still marked. */
    method InodeClose(i: nat, bounce1: bool, bounce2: bool)
      requires Valid() && i < |openInodes|
      modifies this`openInodes, this`live, freeMap, disk
      ensures Valid() && Slots() == old(Slots())
      ensures var o := old(openInodes)[i];
              OpenersNow(old(openInodes), openInodes, o.sector, Openers(old(openInodes), o.sector) - 1) &&
              (o.openCnt > 1 ==> openInodes == old(openInodes)[i := o.(openCnt := o.openCnt - 1)]) &&
              (o.openCnt == 1 ==> openInodes == DropAt(old(openInodes), i)) &&
              (Inodes() == if o.openCnt == 1 && !InUse(old(Slots()), o.sector) then old(Inodes()) - {o.sector}
              else old(Inodes())) &&
              (if o.openCnt == 1 && o.removed
               then GivenBack(old(freeMap[..]), freeMap[..], o.sector, o.data) &&
               (Persists(M(), bounce2) ==> MapInStep())
               else freeMap[..] == old(freeMap[..]) && disk[..] == old(disk[..]))
      ensures old(MapInStep()) && Persists(M(), bounce2) ==> MapInStep()
    {
      hide Sound, MapOk, Openers, Store, DropAt, HeadersOk, Persists, InStep, Data, InUse, GivenBack;
      ghost var was, used, d := openInodes, freeMap[..], disk[..];
      var o := openInodes[i];
      OpenFacts(used, d, root, was, live, own, i);
      if o.openCnt - 1 > 0 {
        Counted(used, d, root, was, live, own, i, o.openCnt - 1);
        OpenAgain(used, d, root, was, live, own, i, o.openCnt - 1);
        openInodes := openInodes[i := o.(openCnt := o.openCnt - 1)];
      } else {
        Dropped(used, d, root, was, live, own, i);
        if o.removed {
          ReleaseInode(i, bounce1, bounce2);
        } else {
          CloseNamed(used, d, root, was, live, own, i);
          openInodes := DropAt(openInodes, i);
          SoundHeaders(used, d, root, was, live, own);
          if !InUse(root.Entries(d), o.sector) {
            LiveLess(used, d, live, M(), o.sector);
            live := live - {o.sector};
          }
        }
      }
    }

    /** The last opener of a removed file goes. */
    method ReleaseInode(i: nat, bounce1: bool, bounce2: bool)
      requires Valid() && i < |openInodes| && openInodes[i].removed
      modifies this`openInodes, this`live, freeMap, disk
      ensures Valid() && Slots() == old(Slots())
      ensures openInodes == DropAt(old(openInodes), i)
      ensures Inodes() == old(Inodes()) - {old(openInodes)[i].sector}
      ensures GivenBack(old(freeMap[..]), freeMap[..], old(openInodes)[i].sector, old(openInodes)[i].data)
      ensures Persists(M(), bounce2) ==> MapInStep()
    {
      hide *;
      ghost var used, d := freeMap[..], disk[..];
      var o := openInodes[i];
      Views();
      ValidMapReady();
      ReleaseFacts(i);
      live := live - {o.sector};
      openInodes := DropAt(openInodes, i);
      ReleaseSound(used, d, root, openInodes, live, own, M(), o.sector, o.data, bounce1, bounce2);
      FreeMapRelease(o.sector, 1, bounce1);
      FreeMapRelease(o.data.start, SectorsFor(o.data.length), bounce2);
      RunsInside(used, o.sector, o.data);
      ReleasedRuns(used, o.sector, o.data);
      FilesSame(d, disk[..]);
      Revalidate();
    }

    lemma RunsInside(used: seq<bool>, s: int, e: Extent)
      requires 0 <= e.length && UsedRun(used, s, 1) && UsedRun(used, e.start, SectorsFor(e.length))
      ensures 0 <= s < |used| && 0 <= e.start && e.start + SectorsFor(e.length) <= |used|
    {}

    lemma ReleaseFacts(i: nat)
      requires Valid() && i < |openInodes| && openInodes[i].removed
      ensures var used, d, s, e := freeMap[..], disk[..], openInodes[i].sector, openInodes[i].data;
              MapOk(used, d, live - {s}, M()) && Sound(used, d, root, DropAt(openInodes, i), live - {s}, own) &&
              Unheld(live - {s}, s, e) && UsedRun(used, s, 1) && 0 <= e.length &&
              UsedRun(used, e.start, SectorsFor(e.length)) && Apart(s, e) &&
              HeadersOk(d, live) && HeadersOk(d, live - {s}) &&
              Store(d, live - {s}) - {0} == Store(d, live) - {0} - {s}
    {
      var used, d, o := freeMap[..], disk[..], openInodes[i];
      Views();
      hide MapOk, Store, Data, Unheld, UsedRun, Apart, DropAt;
      OpenFacts(used, d, root, openInodes, live, own, i);
      hide Sound;
      CloseRemoved(used, d, root, openInodes, live, own, i);
      LiveLess(used, d, live, M(), o.sector);
    }

    // ------------------------------------------------------------ filesys_open, file_close, filesys_remove

    /** Entry k of the root directory, at offset ofs, is e and carries name. */
    ghost predicate EntryAt(slots: seq<Entry>, k: nat, ofs: nat, e: Entry, name: Bytes) {
      Hit(slots, name, k) && ofs == 20 * k && e == slots[k]
    }

    /** lookup in the root directory. */
    method LookupRoot(name: Bytes, ok: Answers) returns (found: bool, e: Entry, ofs: nat, ghost k: nat)
      requires Valid()
      ensures found <==> Sees(Slots(), ok, name)
      ensures found ==> k == EntryFor(Slots(), name) && EntryAt(Slots(), k, ofs, e, name) &&
                        e.sector == InodeFor(Slots(), name) && InUse(Slots(), e.sector)
    {
      Views();
      hide Sound, HeadersOk, Owned, MapOk, Sees, EntryFor, InodeFor;
      found, e, ofs, k := root.Lookup(disk, name, ok);
    }

    /** What a caller of inode_open knows about the record it got. */
    lemma RecordFacts(i: nat)
      requires Valid() && i < |openInodes|
      ensures var o := openInodes[i];
              o.openCnt >= 1 && o.sector >= 0 && IsOpen(openInodes, o.sector) &&
              Openers(openInodes, o.sector) == o.openCnt && OpenOnce(openInodes)
      ensures openInodes[i].removed ==> !InUse(Slots(), openInodes[i].sector)
      ensures var o := openInodes[i];
              o.sector < disk.Length && |disk[o.sector]| == 512 && o.data == HeaderOf(disk[o.sector])
    {
      OpenFacts(freeMap[..], disk[..], root, openInodes, live, own, i);
      SoundHeaders(freeMap[..], disk[..], root, openInodes, live, own);
      SectorNat(freeMap[..], disk[..], root, openInodes, live, own, i);
    }

    /** filesys_open: one more opener of the inode the name stands for, or no change. */
    method Open(name: Bytes, env: Env) returns (handle: int)
      requires Valid()
      modifies this`openInodes, this`live, freeMap, disk
      ensures Valid() && Slots() == old(Slots()) && Inodes() == old(Inodes()) && freeMap[..] == old(freeMap[..]) &&
              disk[..] == old(disk[..])
      ensures handle >= 0 <==>
              env.dirOk && Sees(old(Slots()), env.lookOk, name) && env.fileOk &&
              (IsOpen(old(openInodes), InodeFor(old(Slots()), name)) || env.inodeOk)
      ensures handle >= 0 ==>
              handle == InodeFor(old(Slots()), name) && IsOpen(openInodes, handle) &&
              OpenersNow(old(openInodes), openInodes, handle, Openers(old(openInodes), handle) + 1)
      ensures handle < 0 ==> openInodes == old(openInodes)
    {
      hide *;
      handle := -1;
      if !env.dirOk {
        return;
      }
      var found, e, ofs, k := LookupRoot(name, env.lookOk);
      if !found {
        return;
      }
      var ok, i := InodeOpen(e.sector, env.inodeOk);
      if !ok {
        return;
      }
      RecordFacts(i);
      if env.fileOk {
        handle := e.sector;
      } else {
        FirstIndex(openInodes, i);
        InodeClose(i, true, true);
      }
    }

    /** filesys_remove: the first entry with the name goes at once; the inode and its bytes
        stay as long as somebody has it open. */
    method Remove(name: Bytes, env: Env) returns (success: bool)
      requires Valid()
      modifies this`openInodes, this`live, freeMap, disk
      ensures Valid()
      ensures success <==>
              env.dirOk && Sees(old(Slots()), env.lookOk, name) &&
              (IsOpen(old(openInodes), InodeFor(old(Slots()), name)) || env.inodeOk) && env.entryOk
      ensures success ==>
        var k, s := EntryFor(old(Slots()), name), InodeFor(old(Slots()), name);
        0 <= k < |old(Slots())| && Slots() == Cleared(old(Slots()), k) &&
        OpenersNow(old(openInodes), openInodes, s, Openers(old(openInodes), s)) &&
        Inodes() == (if Openers(old(openInodes), s) == 0 then old(Inodes()) - {s} else old(Inodes())) &&
        if Openers(old(openInodes), s) == 0 then InodeGivenBack(old(freeMap[..]), freeMap[..], old(disk[..]), s)
        else freeMap[..] == old(freeMap[..])
      ensures !success ==> Slots() == old(Slots()) && Inodes() == old(Inodes()) && openInodes == old(openInodes) &&
                           freeMap[..] == old(freeMap[..])
      ensures old(MapInStep()) && Persists(M(), env.bounce2) ==> MapInStep()
    {
      hide *;
      success := false;
      if !env.dirOk {
        return;
      }
      var found, e, ofs, k := LookupRoot(name, env.lookOk);
      if !found {
        return;
      }
      EntryInside(Slots(), k, ofs, e, name);
      var ok, i := InodeOpen(e.sector, env.inodeOk);
      if !ok {
        return;
      }
      RecordFacts(i);
      ghost var mid := openInodes;
      BackMeans(freeMap[..], disk[..], e.sector);
      success := Unlink(name, ofs, e, env.entryOk, k, i);
      if success {
        ghost var unlinked := openInodes;
        InodeClose(i, env.bounce1, env.bounce2);
        OpenersChain(old(openInodes), mid, unlinked, openInodes, e.sector);
      } else {
        FirstIndex(openInodes, i);
        InodeClose(i, env.bounce1, env.bounce2);
      }
    }

    lemma BackMeans(used: seq<bool>, d: Sectors, s: int)
      requires 0 <= s < |d| && |d[s]| == 512
      ensures forall now :: GivenBack(used, now, s, HeaderOf(d[s])) ==> InodeGivenBack(used, now, d, s)
    {}

    lemma EntryInside(slots: seq<Entry>, k: nat, ofs: nat, e: Entry, name: Bytes)
      requires EntryAt(slots, k, ofs, e, name)
      ensures k < |slots| && slots[k] == e
    {}

    /** Opening once and closing once again leaves the openers as they were. */
    lemma OpenersChain(was: seq<OpenInode>, mid: seq<OpenInode>, unlinked: seq<OpenInode>, now: seq<OpenInode>, s: int)
      requires OpenersNow(was, mid, s, Openers(was, s) + 1)
      requires forall t :: Openers(unlinked, t) == Openers(mid, t)
      requires OpenersNow(unlinked, now, s, Openers(unlinked, s) - 1)
      ensures OpenersNow(was, now, s, Openers(was, s)) && Openers(mid, s) == Openers(was, s) + 1
    {}

    /** dir_remove's write, and inode_remove. */
    method Unlink(name: Bytes, ofs: nat, e: Entry, entryOk: bool, ghost k: nat, i: nat) returns (success: bool)
      requires Valid() && i < |openInodes| && openInodes[i].sector == e.sector
      requires EntryAt(Slots(), k, ofs, e, name)
      modifies this`openInodes, disk
      ensures success <==> entryOk
      ensures Valid() && Inodes() == old(Inodes()) && MapInStep() == old(MapInStep())
      ensures success ==>
        k < |old(Slots())| && Slots() == Cleared(old(Slots()), k) && !InUse(Slots(), e.sector) &&
        openInodes == old(openInodes)[i := old(openInodes)[i].(removed := true)] &&
        forall t :: Openers(openInodes, t) == Openers(old(openInodes), t)
      ensures !success ==> disk[..] == old(disk[..]) && openInodes == old(openInodes) && Slots() == old(Slots())
    {
      hide *;
      ghost var used, d, was := freeMap[..], disk[..], openInodes;
      ghost var now := was[i := was[i].(removed := true)];
      Views();
      UnlinkFacts(i, k, ofs, e, name);
      success := root.Erase(disk, ofs, e, entryOk, k);
      if success {
        AfterUnlink(used, d, disk[..], root, was, live, own, k, i);
        SoundHeaders(used, disk[..], root, now, live, own);
        SameStoreKeeps(used, d, disk[..], live, M());
        OpenFacts(used, disk[..], root, now, live, own, i);
        openInodes := openInodes[i := openInodes[i].(removed := true)];
        Revalidate();
      } else {
        Revalidate();
      }
    }

    lemma UnlinkFacts(i: nat, k: nat, ofs: nat, e: Entry, name: Bytes)
      requires Valid() && i < |openInodes| && EntryAt(Slots(), k, ofs, e, name)
      ensures root.inode.denyWriteCnt == 0 && freeMap.Length == disk.Length
      ensures k < |root.Entries(disk[..])| && ofs == 20 * k && e == root.Entries(disk[..])[k] && e.inUse &&
              Name(e) == name
      ensures forall t :: Openers(openInodes[i := openInodes[i].(removed := true)], t) == Openers(openInodes, t)
    {
      OpenFacts(freeMap[..], disk[..], root, openInodes, live, own, i);
      SameOpeners(openInodes, i, openInodes[i].(removed := true));
      hide Sound, MapOk, Openers;
      EntryFacts(disk[..], k, ofs, e, name);
    }

    lemma EntryFacts(d: Sectors, k: nat, ofs: nat, e: Entry, name: Bytes)
      requires root.Readable(d) && EntryAt(root.Entries(d), k, ofs, e, name) && root.inode.denyWriteCnt == 0
      ensures k < |root.Entries(d)| && ofs == 20 * k && e == root.Entries(d)[k] && e.inUse && Name(e) == name
    {}

    // ------------------------------------------------------------ file_read_at and file_write_at

    /** Read from an open file, removed or not. */
    method Read(handle: int, buffer: array<Byte>, size: int, offset: nat, bounceOk: bool) returns (n: nat)
      requires Valid() && IsOpen(openInodes, handle) && size <= buffer.Length
      modifies buffer
      ensures Valid() && handle in Inodes()
      ensures Moves(n, size, offset, |Inodes()[handle]|, bounceOk) && n <= buffer.Length
      ensures buffer[..n] == Slice(Inodes()[handle], offset, n) && buffer[n..] == old(buffer[n..])
    {
      var i := FindOpen(handle);
      SoundHeaders(freeMap[..], disk[..], root, openInodes, live, own);
      OpenFacts(freeMap[..], disk[..], root, openInodes, live, own, i);
      StoreOf(disk[..], live, handle);
      var node := new Inode(openInodes[i].data.start, openInodes[i].data.length);
      hide Sound, MapOk, Store, HeadersOk, Transferred, Slice, Moves;
      n := node.ReadAt(disk, buffer, size, offset, bounceOk);
    }

    /** Writes to this inode are denied: inode_deny_write. */
    ghost predicate Denied(open: seq<OpenInode>, s: int) {
      exists i :: 0 <= i < |open| && open[i].sector == s && open[i].denyWriteCnt > 0
    }

    /** Write to an open file: slice assignment on its bytes, and on nothing else. */
    method Write(handle: int, data: Bytes, offset: nat, bounceOk: bool) returns (n: nat)
      requires Valid() && IsOpen(openInodes, handle)
      modifies disk
      ensures Valid() && handle in old(Inodes()) && Slots() == old(Slots()) && MapBytes() == old(MapBytes())
      ensures if Denied(openInodes, handle) then n == 0
              else Moves(n, |data|, offset, |old(Inodes())[handle]|, bounceOk)
      ensures n <= |data|
      ensures Inodes() == old(Inodes())[handle := Spliced(old(Inodes())[handle], offset, data[..n])]
      ensures n > 0 ==> offset + n <= |old(Inodes())[handle]|
    {
      var i := FindOpen(handle);
      ghost var used, d := freeMap[..], disk[..];
      SoundHeaders(used, d, root, openInodes, live, own);
      OpenFacts(used, d, root, openInodes, live, own, i);
      DeniedAt(openInodes, i);
      StoreOf(d, live, handle);
      var node := new Inode(openInodes[i].data.start, openInodes[i].data.length);
      node.denyWriteCnt := openInodes[i].denyWriteCnt;
      assert Settled();
      hide *;
      n := node.WriteAt(disk, data, |data|, offset, bounceOk);
      TransferFits(|data|, offset, node.length, bounceOk);
      FileWriteSound(used, d, root, openInodes, live, own, handle, offset, data[..n]);
      FileWriteMap(used, d, disk[..], live, M(), handle, Spliced(Store(d, live)[handle], offset, data[..n]));
      Revalidate();
    }

    lemma DeniedAt(open: seq<OpenInode>, i: nat)
      requires OpenOnce(open) && i < |open|
      ensures Denied(open, open[i].sector) <==> open[i].denyWriteCnt > 0
    {}

    /** inode_deny_write.  The precondition is its assertion. */
    method DenyWrite(handle: int) returns (ghost i: nat)
      requires Valid() && IsOpen(openInodes, handle)
      requires forall i :: 0 <= i < |openInodes| && openInodes[i].sector == handle ==>
               openInodes[i].denyWriteCnt < openInodes[i].openCnt
      modifies this`openInodes
      ensures Valid() && Slots() == old(Slots()) && Inodes() == old(Inodes()) && Denied(openInodes, handle)
      ensures CountNow(old(openInodes), openInodes, handle, i, 1)
      ensures forall t :: Openers(openInodes, t) == Openers(old(openInodes), t)
      ensures forall t :: t != handle ==> (Denied(openInodes, t) <==> Denied(old(openInodes), t))
    {
      hide *;
      var k := FindOpen(handle);
      i := k;
      var o := openInodes[k];
      ghost var was := openInodes;
      SetCount(k, o.denyWriteCnt + 1);
      CountIs(was, openInodes, handle, k, 1);
    }

    /** inode_allow_write.  The precondition is its assertions. */
    method AllowWrite(handle: int) returns (ghost i: nat)
      requires Valid() && IsOpen(openInodes, handle) && Denied(openInodes, handle)
      requires forall i :: 0 <= i < |openInodes| && openInodes[i].sector == handle ==>
                 openInodes[i].denyWriteCnt <= openInodes[i].openCnt
      modifies this`openInodes
      ensures Valid() && Slots() == old(Slots()) && Inodes() == old(Inodes())
      ensures CountNow(old(openInodes), openInodes, handle, i, -1)
      ensures forall t :: Openers(openInodes, t) == Openers(old(openInodes), t)
      ensures forall t :: t != handle ==> (Denied(openInodes, t) <==> Denied(old(openInodes), t))
    {
      hide *;
      var k := FindOpen(handle);
      i := k;
      var o := openInodes[k];
      RecordFacts(k);
      DeniedAt(openInodes, k);
      ghost var was := openInodes;
      SetCount(k, o.denyWriteCnt - 1);
      CountIs(was, openInodes, handle, k, -1);
    }

    /** Record i, for handle, has its count changed by n, and nothing else changes. */
    ghost predicate CountNow(was: seq<OpenInode>, now: seq<OpenInode>, handle: int, i: nat, n: int) {
      i < |was| && was[i].sector == handle && was[i].denyWriteCnt + n >= 0 &&
      now == was[i := was[i].(denyWriteCnt := was[i].denyWriteCnt + n)]
    }

    lemma CountIs(was: seq<OpenInode>, now: seq<OpenInode>, handle: int, i: nat, n: int)
      requires i < |was| && was[i].sector == handle && was[i].denyWriteCnt + n >= 0
      requires now == was[i := was[i].(denyWriteCnt := was[i].denyWriteCnt + n)]
      ensures CountNow(was, now, handle, i, n)
    {}

    method SetCount(i: nat, n: nat)
      requires Valid() && i < |openInodes|
      modifies this`openInodes
      ensures Valid() && Slots() == old(Slots()) && Inodes() == old(Inodes())
      ensures var was, s := old(openInodes), old(openInodes)[i].sector;
              openInodes == was[i := was[i].(denyWriteCnt := n)] && (n > 0 ==> Denied(openInodes, s)) &&
              (forall t :: Openers(openInodes, t) == Openers(was, t)) &&
              forall t :: t != s ==> (Denied(openInodes, t) <==> Denied(was, t))
    {
      ghost var now := openInodes[i := openInodes[i].(denyWriteCnt := n)];
      OpenFacts(freeMap[..], disk[..], root, openInodes, live, own, i);
      DenySound(freeMap[..], disk[..], root, openInodes, live, own, i, n);
      SetDeny(openInodes, i, n);
      assert Settled() && MapOk(freeMap[..], disk[..], live, M());
      hide *;
      openInodes := openInodes[i := openInodes[i].(denyWriteCnt := n)];
      Revalidate();
    }

    lemma SetDeny(open: seq<OpenInode>, i: nat, n: nat)
      requires OpenOnce(open) && i < |open|
      ensures var open1 := open[i := open[i].(denyWriteCnt := n)];
              (n > 0 ==> Denied(open1, open[i].sector)) &&
              (forall t :: Openers(open1, t) == Openers(open, t)) &&
              forall t :: t != open[i].sector ==> (Denied(open1, t) <==> Denied(open, t))
    {
      var o := open[i].(denyWriteCnt := n);
      SameOpeners(open, i, o);
      assert open[i := o][i] == o;
      forall t | t != o.sector
        ensures Denied(open[i := o], t) <==> Denied(open, t)
      {
        if Denied(open, t) {
          var k :| 0 <= k < |open| && open[k].sector == t && open[k].denyWriteCnt > 0;
          assert open[i := o][k] == open[k];
        }
      }
    }

    /** The record of an open inode. */
    method FindOpen(handle: int) returns (i: nat)
      requires IsOpen(openInodes, handle)
      ensures i < |openInodes| && openInodes[i].sector == handle
    {
      i := 0;
      while openInodes[i].sector != handle
        invariant 0 <= i < |openInodes|
        invariant forall j :: 0 <= j < i ==> openInodes[j].sector != handle
        decreases |openInodes| - i
      {
        i := i + 1;
      }
    }

    /** file_close. */
    method Close(handle: int, bounce1: bool, bounce2: bool)
      requires Valid() && IsOpen(openInodes, handle)
      modifies this`openInodes, this`live, freeMap, disk
      ensures Valid() && Slots() == old(Slots())
      ensures OpenersNow(old(openInodes), openInodes, handle, Openers(old(openInodes), handle) - 1)
      ensures Inodes() ==
              if Openers(old(openInodes), handle) == 1 && !InUse(old(Slots()), handle)
              then old(Inodes()) - {handle} else old(Inodes())
      ensures if LastOfRemoved(old(openInodes), handle)
              then InodeGivenBack(old(freeMap[..]), freeMap[..], old(disk[..]), handle)
              else freeMap[..] == old(freeMap[..])
      ensures old(MapInStep()) && Persists(M(), bounce2) ==> MapInStep()
    {
      hide *;
      var i := FindOpen(handle);
      RecordFacts(i);
      LastAt(openInodes, i);
      BackMeans(freeMap[..], disk[..], handle);
      InodeClose(i, bounce1, bounce2);
    }
  }

  /** Of a failed creation the run at f stays marked, if there is one, and nothing else. */
  ghost predicate RunLeft(was: seq<bool>, now: seq<bool>, f: int, n: nat) {
    if f >= 0 then FreeRun(was, f, n) && now == SetRun(was, f, n, true) else now == was
  }

  lemma NoRunLeft(used: seq<bool>, n: nat)
    ensures RunLeft(used, used, -1, n)
  {}

  /** The inode's sector has been marked, perhaps a run for the data, and the sector released. */
  lemma Undone(used: seq<bool>, n: nat, reached: bool, now: seq<bool>)
    requires FirstRun(used, 0, 1) >= 0
    requires var s := FirstRun(used, 0, 1);
             var used1 := SetRun(used, s, 1, true);
             var f := FirstRun(used1, 0, n);
             now == SetRun(if reached && f >= 0 then SetRun(used1, f, n, true) else used1, s, 1, false)
    ensures var used1 := SetRun(used, FirstRun(used, 0, 1), 1, true);
            RunLeft(used, now, if reached then FirstRun(used1, 0, n) else -1, n)
  {
    var s := FirstRun(used, 0, 1);
    var used1 := SetRun(used, s, 1, true);
    var f := FirstRun(used1, 0, n);
    hide FirstRun, SetRun, FreeRun;
    FreeThere(used, s);
    MarkAndClear(used, s, 1);
    if reached && f >= 0 { ClearBehind(used, s, f, n); }
  }

  lemma ClearBehind(used: seq<bool>, s: nat, f: nat, n: nat)
    requires s < |used| && !used[s] && FreeRun(SetRun(used, s, 1, true), f, n)
    ensures FreeRun(used, f, n)
    ensures SetRun(SetRun(SetRun(used, s, 1, true), f, n, true), s, 1, false) == SetRun(used, f, n, true)
  {
    var used1 := SetRun(used, s, 1, true);
    assert used1[s];
    forall j | f <= j < f + n
      ensures j != s && !used[j]
    {
      assert !used1[j];
    }
  }

  // ---------------------------------------------------------------- low memory and names

  /** On a disk with two sectors to spare an empty file is created, and then another one
      under the same name, which low memory hides from the lookup.  The name outlives its
      removal: it opens again. */
  method CreateTwice(size: nat, pad: seq<bool>, name: Bytes, blind: Answers)
    returns (first: bool, second: bool, removed: bool, handle: int)
    requires 5 + SectorsFor(FileBytes(size)) <= size < 0x1_0000_0000 && size + |pad| == 8 * FileBytes(size)
    requires IsName(name) && 0 < |name| <= 14 && !blind(0)
    ensures first && second && removed && handle >= 0
  {
    hide *;
    var calm := Env(true, true, true, true, true, true, _ => true, _ => true, true);
    var fs := new FileSystem(size, pad);
    TwoSpare(fs.freeMap[..], size - 1, size - 2);
    ghost var s0, sector := fs.Slots(), FirstRun(fs.freeMap[..], 0, 1);
    fs.NoSlots();
    fs.ReadyToCreate(name, calm);
    first := fs.Create(name, 0, calm);
    fs.NewFacts(s0, name, sector, 0);
    ghost var s1 := fs.Slots();
    OneName(s0, s1, name, sector, blind);
    fs.ReadyToCreate(name, calm.(lookOk := blind));
    ghost var sector2 := FirstRun(fs.freeMap[..], 0, 1);
    second := fs.Create(name, 0, calm.(lookOk := blind));
    fs.NewFacts(s1, name, sector2, 1);
    TwoNames(s1, fs.Slots(), name, sector2, calm);
    removed := fs.Remove(name, calm);
    handle := fs.Open(name, calm);
  }

  /** On such a disk two empty files are created; low memory ends the second one's search
      for a free entry at the first one's, and the first name is lost. */
  method CreateOver(size: nat, pad: seq<bool>, name: Bytes, other: Bytes, blind: Answers)
    returns (first: bool, second: bool, handle: int)
    requires 5 + SectorsFor(FileBytes(size)) <= size < 0x1_0000_0000 && size + |pad| == 8 * FileBytes(size)
    requires IsName(name) && 0 < |name| <= 14 && IsName(other) && 0 < |other| <= 14 && name != other && !blind(0)
    ensures first && second && handle < 0
  {
    hide *;
    var calm := Env(true, true, true, true, true, true, _ => true, _ => true, true);
    var fs := new FileSystem(size, pad);
    TwoSpare(fs.freeMap[..], size - 1, size - 2);
    ghost var s0, sector := fs.Slots(), FirstRun(fs.freeMap[..], 0, 1);
    fs.NoSlots();
    fs.ReadyToCreate(name, calm);
    first := fs.Create(name, 0, calm);
    fs.NewFacts(s0, name, sector, 0);
    ghost var s1 := fs.Slots();
    OneName(s0, s1, name, sector, blind);
    fs.ReadyToCreate(other, calm.(slotOk := blind));
    ghost var sector2 := FirstRun(fs.freeMap[..], 0, 1);
    second := fs.Create(other, 0, calm.(slotOk := blind));
    fs.NewFacts(s1, other, sector2, 0);
    OtherName(s1, fs.Slots(), name, other, sector2);
    handle := fs.Open(name, calm);
  }

  /** On a disk with three sectors to spare an empty file is created, then a file of one sector
      under the same name, which fails as it should.  Its data sector stays marked: of two
      more empty files only one can be created. */
  method CreateLeaks(size: nat, pad: seq<bool>, name: Bytes, other: Bytes, third: Bytes)
    returns (first: bool, again: bool, more: bool, last: bool)
    requires size == 6 + SectorsFor(FileBytes(size)) && size < 0x1_0000_0000 && size + |pad| == 8 * FileBytes(size)
    requires IsName(name) && 0 < |name| <= 14 && IsName(other) && 0 < |other| <= 14 && IsName(third)
    requires name != other
    ensures first && !again && more && !last
  {
    hide *;
    var calm := Env(true, true, true, true, true, true, _ => true, _ => true, true);
    var fs := new FileSystem(size, pad);
    ghost var u, s0 := fs.freeMap[..], fs.Slots();
    OnlyFrom(u, size - 3);
    fs.NoSlots();
    fs.ReadyToCreate(name, calm);
    first := fs.Create(name, 0, calm);
    fs.NewFacts(s0, name, size - 3, 0);
    OneNameCalm(s0, fs.Slots(), name, size - 3, calm);
    assert fs.freeMap[..] == u[size - 3 := true];
    OnlyFrom(fs.freeMap[..], size - 2);
    OneSector(fs.freeMap[..], size - 2);
    fs.NotAgain(name, 512, calm);
    again := fs.Create(name, 512, calm);
    LeftAt(u[size - 3 := true], fs.freeMap[..], size - 1);
    OnlyFrom(fs.freeMap[..], size - 2);
    fs.ReadyToCreate(other, calm);
    more := fs.Create(other, 0, calm);
    fs.NewIsValid();
    NoneFree(fs.freeMap[..]);
    fs.NoMore(third, calm);
    last := fs.Create(third, 0, calm);
  }

  /** Sector r is the first free one. */
  lemma OnlyFrom(used: seq<bool>, r: nat)
    requires r < |used| && !used[r] && forall j :: 0 <= j < r ==> used[j]
    ensures FirstRun(used, 0, 1) == r && TakesEmpty(used) && WithEmpty(used) == used[r := true]
  {
    FirstRunSkips(used, 0, r, 1);
    Spare(used, r);
    assert SetRun(used, r, 1, true) == used[r := true];
  }

  /** With one more behind it, there is room for a file of one sector. */
  lemma OneSector(used: seq<bool>, r: nat)
    requires r + 2 == |used| && !used[r] && !used[r + 1] && forall j :: 0 <= j < r ==> used[j]
    ensures FirstRun(SetRun(used, r, 1, true), 0, SectorsFor(512)) == r + 1
  {
    assert SetRun(used, r, 1, true) == used[r := true];
    FirstRunSkips(used[r := true], 0, r + 1, 1);
  }

  lemma LeftAt(was: seq<bool>, now: seq<bool>, f: nat)
    requires RunLeft(was, now, f, SectorsFor(512))
    ensures f < |was| && now == was[f := true]
  {}

  lemma NoneFree(used: seq<bool>)
    requires forall j :: 0 <= j < |used| ==> used[j]
    ensures FirstRun(used, 0, 1) < 0
  {
    var r := FirstRun(used, 0, 1);
    if r >= 0 { FreeThere(used, r); }
  }

  lemma FreeThere(used: seq<bool>, r: nat)
    requires FreeRun(used, r, 1)
    ensures r < |used| && !used[r]
  {}

  lemma EmptySlots(s: seq<Entry>)
    requires Proper(s) && Files(s) == map[] && |s| == 16
    ensures forall i :: 0 <= i < |s| ==> !s[i].inUse
    ensures forall ok: Answers, name :: !Sees(s, ok, name)
    ensures forall ok: Answers :: StopAt(s, ok, 0) == 0
  {
    NoneInUse(s);
  }

  /** Its entries once a name has been added. */
  lemma OneName(s: seq<Entry>, t: seq<Entry>, name: Bytes, sector: int, blind: Answers)
    requires |s| == 16 && (forall i :: 0 <= i < |s| ==> !s[i].inUse) && Added(s, t, name, sector, 0) && !blind(0)
    ensures |t| == 16 && Hit(t, name, 0) && (forall i :: 0 < i < |t| ==> !t[i].inUse) && !Sees(t, blind, name)
    ensures forall ok: Answers, other :: other != name ==> !Sees(t, ok, other)
    ensures StopAt(t, blind, 0) == 0 && forall ok: Answers :: ok(0) && ok(1) ==> StopAt(t, ok, 0) == 1
  {
    forall ok: Answers | ok(0) && ok(1)
      ensures StopAt(t, ok, 0) == 1
    {
      assert StopAt(t, ok, 1) == 1;
    }
  }

  /** A name written over the only one. */
  lemma OtherName(s: seq<Entry>, t: seq<Entry>, name: Bytes, other: Bytes, sector: int)
    requires |s| == 16 && (forall i :: 0 < i < |s| ==> !s[i].inUse) && Added(s, t, other, sector, 0) && other != name
    ensures forall ok: Answers :: !Sees(t, ok, name)
  {}

  /** With memory, its lookup sees that name alone, and its search stops behind it. */
  lemma OneNameCalm(s: seq<Entry>, t: seq<Entry>, name: Bytes, sector: int, calm: Env)
    requires |s| == 16 && (forall i :: 0 <= i < |s| ==> !s[i].inUse) && Added(s, t, name, sector, 0)
    requires forall j :: calm.lookOk(j) && calm.slotOk(j)
    ensures |t| == 16 && StopAt(t, calm.slotOk, 0) == 1
    ensures forall other :: Sees(t, calm.lookOk, other) <==> other == name
  {
    assert Hit(t, name, 0) && ReadTo(calm.lookOk, 0);
    assert StopAt(t, calm.slotOk, 1) == 1;
  }

  /** Two entries of one name: the second one remains when the first one goes. */
  lemma TwoNames(t: seq<Entry>, u: seq<Entry>, name: Bytes, sector: int, calm: Env)
    requires Hit(t, name, 0) && Added(t, u, name, sector, 1) && forall j :: calm.lookOk(j)
    ensures EntryFor(u, name) == 0 && Sees(u, calm.lookOk, name) && Sees(Cleared(u, 0), calm.lookOk, name)
  {
    FirstIs(u, name, 0);
    assert Hit(Cleared(u, 0), name, 1) && ReadTo(calm.lookOk, 1) && ReadTo(calm.lookOk, 0);
  }

  /** Two empty files fit on a disk with two sectors to spare. */
  lemma TwoSpare(used: seq<bool>, a: nat, b: nat)
    requires a < |used| && b < |used| && a != b && !used[a] && !used[b]
    ensures TakesEmpty(used) && TakesEmpty(WithEmpty(used))
  {
    Spare(used, a);
    Spare(WithEmpty(used), if FirstRun(used, 0, 1) == a then b else a);
  }

  /** There is a sector for the inode, and the empty run is anywhere. */
  ghost predicate TakesEmpty(used: seq<bool>) {
    FirstRun(used, 0, 1) >= 0 && FirstRun(SetRun(used, FirstRun(used, 0, 1), 1, true), 0, SectorsFor(0)) >= 0
  }

  /** The free map with an empty file more. */
  ghost function WithEmpty(used: seq<bool>): seq<bool>
    requires TakesEmpty(used)
  {
    var used1 := SetRun(used, FirstRun(used, 0, 1), 1, true);
    SetRun(used1, FirstRun(used1, 0, SectorsFor(0)), SectorsFor(0), true)
  }

  lemma Spare(used: seq<bool>, a: nat)
    requires a < |used| && !used[a]
    ensures TakesEmpty(used) && WithEmpty(used) == SetRun(used, FirstRun(used, 0, 1), 1, true)
  {
    if FirstRun(used, 0, 1) < 0 { NoRun(used, 0, 1, a); }
    var used1 := SetRun(used, FirstRun(used, 0, 1), 1, true);
    assert FreeRun(used1, 0, 0) && FirstRun(used1, 0, 0) == 0;
  }
}
