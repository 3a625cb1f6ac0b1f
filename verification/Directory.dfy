/** Directories (filesys/directory.c): an array of 20-byte entries in the data of an
    inode, read and written through inode_read_at and inode_write_at, against a finite
    map from names to inode sectors. */
module Directory {
  import opened ByteTypes
  import opened InodeIo

  const NAME_MAX := 14

  /** Which reads of a scan over the entries get their bounce buffer: an entry is never
      a whole sector, so each read needs one. */
  type Answers = nat -> bool

  /** A file name as C has it: any bytes but NUL. */
  ghost predicate IsName(name: Bytes) { 0 !in name }

  /** struct dir_entry: the sector, fifteen bytes of name, the in-use flag. */
  datatype Entry = Entry(sector: int, rawName: Bytes, inUse: bool)

  // ---------------------------------------------------------------- layout

  function Encode(e: Entry): (r: Bytes)
    requires 0 <= e.sector < 0x1_0000_0000 && |e.rawName| == 15
    ensures |r| == 20
  {
    Le32(e.sector) + e.rawName + [if e.inUse then 1 else 0]
  }

  function Decode(b: Bytes): (e: Entry)
    requires |b| == 20
    ensures |e.rawName| == 15 && 0 <= e.sector < 0x1_0000_0000
  {
    Entry(FromLe32(b[..4]), b[4..19], b[19] != 0)
  }

  /** What a slot is read back as is what was written into it. */
  lemma EntryRoundTrip(e: Entry)
    requires 0 <= e.sector < 0x1_0000_0000 && |e.rawName| == 15
    ensures Decode(Encode(e)) == e
  {
    var b := Encode(e);
    assert b[..4] == Le32(e.sector) && b[4..19] == e.rawName;
    Le32RoundTrip(e.sector);
  }

  /** Where the fields of struct dir_entry are. */
  lemma EntryLayout(e: Entry)
    requires 0 <= e.sector < 0x1_0000_0000 && |e.rawName| == 15
    ensures var b := Encode(e);
            b[0] as int + 0x100 * (b[1] as int) + 0x1_0000 * (b[2] as int) + 0x100_0000 * (b[3] as int) == e.sector &&
            b[4..19] == e.rawName && b[19] == if e.inUse then 1 else 0
  {
    Le32Places(e.sector);
    assert Encode(e)[..4] == Le32(e.sector);
    hide Le32;
  }

  /** The C string at the front of a character array. */
  function CString(raw: Bytes): Bytes {
    if raw == [] || raw[0] == 0 then [] else [raw[0]] + CString(raw[1..])
  }

  /** It reaches up to the first NUL, or to the end. */
  lemma {:induction false} CStringEnds(raw: Bytes)
    ensures CString(raw) <= raw && 0 !in CString(raw)
    ensures |CString(raw)| == |raw| || raw[|CString(raw)|] == 0
  {
    if raw != [] && raw[0] != 0 { CStringEnds(raw[1..]); }
  }

  /** strlcpy into a name field that held raw. */
  function CopyName(raw: Bytes, name: Bytes): (r: Bytes)
    requires |raw| == 15
    ensures |r| == 15
  {
    var n := if |name| > 14 then name[..14] else name;
    n + [0] + raw[|n| + 1..]
  }

  lemma {:induction false} CStringOf(name: Bytes, rest: Bytes)
    requires IsName(name)
    ensures CString(name + [0] + rest) == name
  {
    var raw := name + [0] + rest;
    if name != [] {
      assert raw[1..] == name[1..] + [0] + rest;
      CStringOf(name[1..], rest);
    }
  }

  lemma CopiedName(raw: Bytes, name: Bytes)
    requires |raw| == 15 && IsName(name) && |name| <= 14
    ensures CString(CopyName(raw, name)) == name && 0 in CopyName(raw, name)
  {
    CStringOf(name, raw[|name| + 1..]);
    assert CopyName(raw, name)[|name|] == 0;
  }

  // ---------------------------------------------------------------- slots and the map

  function Name(e: Entry): Bytes { CString(e.rawName) }

  /** The entries in a directory's data. */
  ghost function Slots(c: Bytes): (r: seq<Entry>)
    ensures |r| == |c| / 20
  {
    seq(|c| / 20, i requires 0 <= i < |c| / 20 => Decode(c[20 * i..20 * i + 20]))
  }

  ghost predicate Terminated(s: seq<Entry>) {
    forall i :: 0 <= i < |s| && s[i].inUse ==> 0 in s[i].rawName
  }

  /** In-use entries carry terminated names, all different. */
  ghost predicate Proper(s: seq<Entry>) {
    Terminated(s) &&
    (forall i, j :: 0 <= i < j < |s| && s[i].inUse && s[j].inUse ==> Name(s[i]) != Name(s[j]))
  }

  /** Entry i carries this name. */
  ghost predicate Hit(s: seq<Entry>, name: Bytes, i: int) {
    0 <= i < |s| && s[i].inUse && Name(s[i]) == name
  }

  /** All reads up to entry i got their buffer. */
  ghost predicate ReadTo(ok: Answers, i: nat) {
    forall j: nat :: j <= i ==> ok(j)
  }

  /** A scan that ends at the first read without a buffer comes across this name. */
  ghost predicate Sees(s: seq<Entry>, ok: Answers, name: Bytes) {
    exists i: nat :: Hit(s, name, i) && ReadTo(ok, i)
  }

  /** The first entry from i on that carries this name, or -1. */
  ghost function FindFrom(s: seq<Entry>, name: Bytes, i: nat): (r: int)
    requires i <= |s|
    ensures r >= 0 ==> i <= r && Hit(s, name, r) && forall j :: i <= j < r ==> !Hit(s, name, j)
    ensures r < 0 ==> r == -1 && forall j :: i <= j ==> !Hit(s, name, j)
    decreases |s| - i
  {
    if i == |s| then -1 else if Hit(s, name, i) then i else FindFrom(s, name, i + 1)
  }

  /** The entry that lookup finds. */
  ghost function EntryFor(s: seq<Entry>, name: Bytes): (r: int)
    ensures r >= 0 ==> Hit(s, name, r)
  {
    FindFrom(s, name, 0)
  }

  /** The inode that a name stands for: that of the first entry that carries it. */
  ghost function InodeFor(s: seq<Entry>, name: Bytes): int {
    if EntryFor(s, name) >= 0 then s[EntryFor(s, name)].sector else -1
  }

  lemma FirstIs(s: seq<Entry>, name: Bytes, i: nat)
    requires Hit(s, name, i) && forall j :: 0 <= j < i ==> !Hit(s, name, j)
    ensures EntryFor(s, name) == i
  {}

  /** As long as names are distinct, that is what the map says. */
  lemma NamesMean(s: seq<Entry>, name: Bytes)
    requires Proper(s)
    ensures name in Files(s) <==> EntryFor(s, name) >= 0
    ensures name in Files(s) ==> Files(s)[name] == InodeFor(s, name)
  {
    if name in Files(s) {
      var i := FilesHasSlot(s, name);
      assert Hit(s, name, i);
    }
    if EntryFor(s, name) >= 0 { SlotInFiles(s, EntryFor(s, name)); }
  }

  /** dir_remove deletes the name from the map, and keeps names distinct. */
  lemma RemovedName(s: seq<Entry>, name: Bytes)
    requires Proper(s) && EntryFor(s, name) >= 0
    ensures var t := Cleared(s, EntryFor(s, name));
            Proper(t) && Files(t) == Files(s) - {name} && InodeFor(t, name) == -1
  {
    ClearSlot(s, EntryFor(s, name));
    NamesMean(Cleared(s, EntryFor(s, name)), name);
  }

  /** Where the search for a free entry stops: at one that is not in use, at the first
      read without a buffer, or behind the last entry. */
  ghost function StopAt(s: seq<Entry>, ok: Answers, i: nat): (r: nat)
    requires i <= |s|
    ensures i <= r <= |s|
    ensures r < |s| ==> !ok(r) || !s[r].inUse
    ensures forall j :: i <= j < r ==> ok(j) && s[j].inUse
    decreases |s| - i
  {
    if i == |s| || !ok(i) || !s[i].inUse then i else StopAt(s, ok, i + 1)
  }

  /** With memory to be had, the scan sees every name there is, and the search stops at
      a free entry if there is one. */
  lemma CalmScan(s: seq<Entry>, ok: Answers, name: Bytes)
    requires Proper(s) && forall j: nat :: j < |s| ==> ok(j)
    ensures Sees(s, ok, name) <==> name in Files(s)
    ensures var i := StopAt(s, ok, 0);
            (i < |s| ==> !s[i].inUse) && (i < |s| <==> exists j :: 0 <= j < |s| && !s[j].inUse)
  {
    FilesDomain(s, name);
    if name in Files(s) {
      var i := FilesHasSlot(s, name);
      assert Hit(s, name, i) && ReadTo(ok, i);
    }
  }

  /** The map from names to sectors that the in-use entries make up. */
  ghost function Files(s: seq<Entry>): map<Bytes, int> {
    if s == [] then map[]
    else
      var e, m := s[|s| - 1], Files(s[..|s| - 1]);
      if e.inUse then m[Name(e) := e.sector] else m
  }

  lemma ProperPrefix(s: seq<Entry>)
    requires Proper(s) && s != []
    ensures Proper(s[..|s| - 1])
  {}

  /** Slot i of a proper directory is what the map says about its name. */
  lemma {:induction false} SlotInFiles(s: seq<Entry>, i: nat)
    requires Proper(s) && i < |s| && s[i].inUse
    ensures Name(s[i]) in Files(s) && Files(s)[Name(s[i])] == s[i].sector
  {
    if i < |s| - 1 {
      ProperPrefix(s);
      SlotInFiles(s[..|s| - 1], i);
    }
  }

  lemma {:induction false} FilesHasSlot(s: seq<Entry>, name: Bytes) returns (i: nat)
    requires name in Files(s)
    ensures i < |s| && s[i].inUse && Name(s[i]) == name
  {
    var e := s[|s| - 1];
    if e.inUse && Name(e) == name {
      i := |s| - 1;
    } else {
      i := FilesHasSlot(s[..|s| - 1], name);
    }
  }

  /** A name is in the map exactly if some in-use slot carries it. */
  lemma FilesDomain(s: seq<Entry>, name: Bytes)
    requires Proper(s)
    ensures name in Files(s) <==> exists i :: 0 <= i < |s| && s[i].inUse && Name(s[i]) == name
  {
    if name in Files(s) {
      var i := FilesHasSlot(s, name);
    }
    forall i | 0 <= i < |s| && s[i].inUse && Name(s[i]) == name
      ensures name in Files(s)
    {
      SlotInFiles(s, i);
    }
  }

  /** Clearing a slot deletes its name from the map. */
  lemma {:induction false} ClearSlot(s: seq<Entry>, i: nat)
    requires Proper(s) && i < |s| && s[i].inUse
    ensures Proper(s[i := s[i].(inUse := false)])
    ensures Files(s[i := s[i].(inUse := false)]) == Files(s) - {Name(s[i])}
  {
    var t := s[i := s[i].(inUse := false)];
    var name := Name(s[i]);
    if i == |s| - 1 {
      assert t[..|s| - 1] == s[..|s| - 1];
      if name in Files(s[..|s| - 1]) {
        var j := FilesHasSlot(s[..|s| - 1], name);
      }
    } else {
      assert t[..|s| - 1] == s[..|s| - 1][i := s[i].(inUse := false)];
      ProperPrefix(s);
      ClearSlot(s[..|s| - 1], i);
    }
  }

  /** Filling a free slot with a new name inserts it into the map. */
  lemma {:induction false} FillSlot(s: seq<Entry>, i: nat, e: Entry)
    requires Proper(s) && i < |s| && !s[i].inUse
    requires e.inUse && 0 in e.rawName && Name(e) !in Files(s)
    ensures Proper(s[i := e]) && Files(s[i := e]) == Files(s)[Name(e) := e.sector]
  {
    forall j | 0 <= j < |s| && s[j].inUse
      ensures Name(s[j]) != Name(e)
    {
      SlotInFiles(s, j);
    }
    FillFiles(s, i, e);
  }

  lemma {:induction false} FillFiles(s: seq<Entry>, i: nat, e: Entry)
    requires i < |s| && !s[i].inUse && e.inUse
    requires forall j :: 0 <= j < |s| && s[j].inUse ==> Name(s[j]) != Name(e)
    ensures Files(s[i := e]) == Files(s)[Name(e) := e.sector]
  {
    var p := s[..|s| - 1];
    if i == |s| - 1 {
      assert s[i := e][..|s| - 1] == p;
    } else {
      assert s[i := e][..|s| - 1] == p[i := e];
      FillFiles(p, i, e);
    }
  }

  /** The entries with entry i out of use. */
  function Cleared(s: seq<Entry>, i: nat): (r: seq<Entry>)
    requires i < |s|
    ensures |r| == |s|
  {
    s[i := s[i].(inUse := false)]
  }

  /** The map without the name of entry i. */
  ghost function Without(s: seq<Entry>, i: nat): map<Bytes, int>
    requires i < |s|
  {
    if s[i].inUse then Files(s) - {Name(s[i])} else Files(s)
  }

  /** Writing a new entry over entry i.  The names stay distinct exactly if no other
      entry has the new one; then the map loses the old name, if entry i was in use, and
      gains the new one. */
  lemma Overwrite(s: seq<Entry>, i: nat, e: Entry)
    requires Proper(s) && i < |s| && e.inUse && 0 in e.rawName
    ensures Proper(s[i := e]) <==> Name(e) !in Files(s) || Hit(s, Name(e), i)
    ensures Proper(s[i := e]) <==> Name(e) !in Without(s, i)
    ensures Proper(s[i := e]) ==> Files(s[i := e]) == Without(s, i)[Name(e) := e.sector]
  {
    var t := s[i := s[i].(inUse := false)];
    if s[i].inUse {
      ClearSlot(s, i);
      SlotInFiles(s, i);
    } else {
      assert t == s;
    }
    assert t[i := e] == s[i := e];
    if Name(e) in Files(t) {
      var j := FilesHasSlot(t, Name(e));
      var u := s[i := e];
      assert j != i && u[i].inUse && u[j].inUse && Name(u[i]) == Name(u[j]);
    } else {
      FillSlot(t, i, e);
    }
  }

  /** The entries t that s becomes when a new entry for name is written over entry i. */
  ghost predicate Added(s: seq<Entry>, t: seq<Entry>, name: Bytes, sector: int, i: nat) {
    i < |s| && |t| == |s| && t == s[i := t[i]] &&
    t[i].inUse && 0 in t[i].rawName && Name(t[i]) == name && t[i].sector == sector
  }

  /** Overwriting slot i of the data updates slot i of the entries and no other. */
  lemma StoreSlot(c: Bytes, i: nat, b: Bytes)
    requires i < |c| / 20 && |b| == 20
    ensures Slots(c[..20 * i] + b + c[20 * i + 20..]) == Slots(c)[i := Decode(b)]
  {
    var c1 := c[..20 * i] + b + c[20 * i + 20..];
    forall j | 0 <= j < |c| / 20
      ensures Slots(c1)[j] == Slots(c)[i := Decode(b)][j]
    {
      if j < i {
        assert c1[20 * j..20 * j + 20] == c[20 * j..20 * j + 20];
      } else if j == i {
        assert c1[20 * j..20 * j + 20] == b;
      } else {
        assert c1[20 * j..20 * j + 20] == c[20 * j..20 * j + 20];
      }
    }
  }

  // ---------------------------------------------------------------- operations

  /** A directory on its inode. */
  class Dir {
    const inode: Inode

    constructor (inode: Inode)
      ensures this.inode == inode
    {
      this.inode := inode;
    }

    ghost function Entries(d: Sectors): seq<Entry>
      requires OnDisk(d, inode.start, inode.length)
    {
      Slots(Contents(d, inode.start, inode.length))
    }

    /** The directory's data is whole entries with terminated names. */
    ghost predicate Readable(d: Sectors) {
      OnDisk(d, inode.start, inode.length) && inode.length % 20 == 0 && Terminated(Entries(d))
    }

    /** The entries' names are different, too. */
    ghost predicate Valid(d: Sectors) {
      OnDisk(d, inode.start, inode.length) && inode.length % 20 == 0 && Proper(Entries(d))
    }

    /** What the directory means: a finite map from names to inode sectors. */
    ghost function Map(d: Sectors): map<Bytes, int>
      requires Valid(d)
    {
      Files(Entries(d))
    }

    /** inode_read_at of one entry into what held e0. */
    method ReadEntry(disk: array<Bytes>, ofs: nat, e0: Entry, bounceOk: bool, ghost i: nat)
                     returns (whole: bool, e: Entry)
      requires Readable(disk[..]) && ofs == 20 * i
      ensures whole <==> i < |Entries(disk[..])| && bounceOk
      ensures e == if whole then Entries(disk[..])[i] else e0
      ensures whole ==> |e.rawName| == 15
    {
      var buffer := new Byte[20];
      var n := inode.ReadAt(disk, buffer, 20, ofs, bounceOk);
      SlotRead(Contents(disk[..], inode.start, inode.length), i, n, bounceOk);
      whole := n == 20;
      assert buffer[..n] + buffer[n..] == buffer[..];
      e := if whole then Decode(buffer[..]) else e0;
    }

    lemma SlotRead(c: Bytes, i: nat, n: nat, bounceOk: bool)
      requires |c| % 20 == 0 && n == Transferred(20, 20 * i, |c|, bounceOk)
      ensures n == 20 <==> i < |c| / 20 && bounceOk
      ensures n == 20 ==> Decode(Slice(c, 20 * i, 20)) == Slots(c)[i]
      ensures n == 20 || n == 0
    {}

    /** inode_write_at of one entry. */
    method WriteEntry(disk: array<Bytes>, ofs: nat, e: Entry, bounceOk: bool, ghost i: nat) returns (whole: bool)
      requires OnDisk(disk[..], inode.start, inode.length) && inode.length % 20 == 0 && ofs == 20 * i
      requires 0 <= e.sector < 0x1_0000_0000 && |e.rawName| == 15
      modifies disk
      ensures OnDisk(old(disk[..]), inode.start, inode.length) && OnDisk(disk[..], inode.start, inode.length)
      ensures whole <==> i < |old(Entries(disk[..]))| && inode.denyWriteCnt == 0 && bounceOk
      ensures whole ==>
        disk[..] == Patched(old(disk[..]), inode.start, 20 * i, Encode(e)) &&
        Entries(disk[..]) == old(Entries(disk[..]))[i := e]
      ensures !whole ==> disk[..] == old(disk[..])
    {
      hide Encode, Decode, Contents;
      ghost var d, st, len := disk[..], inode.start, inode.length;
      var b := Encode(e);
      var n := inode.WriteAt(disk, b, 20, ofs, bounceOk);
      whole := n == 20;
      SlotWrite(len, i, n, inode.denyWriteCnt, bounceOk);
      if whole {
        assert b[..20] == b;
        ContentsPatched(d, st, len, 20 * i, b);
        StoreSlot(Contents(d, st, len), i, b);
        EntryRoundTrip(e);
        PatchedOnDisk(d, st, len, 20 * i, b);
      } else {
        assert b[..0] == [];
        PatchedNothing(d, st, 20 * i);
      }
    }

    lemma SlotWrite(length: nat, i: nat, n: nat, deny: nat, bounceOk: bool)
      requires length % 20 == 0 && n == if deny > 0 then 0 else Transferred(20, 20 * i, length, bounceOk)
      ensures n == 20 || n == 0
      ensures n == 20 <==> i < length / 20 && deny == 0 && bounceOk
      ensures n == 20 ==> 20 * i + 20 <= length
    {}

    /** lookup: the first entry with this name and its offset, if the scan sees one. */
    method Lookup(disk: array<Bytes>, name: Bytes, ok: Answers) returns (found: bool, e: Entry, ofs: nat, ghost i: nat)
      requires Readable(disk[..])
      ensures found <==> Sees(Entries(disk[..]), ok, name)
      ensures found ==> Hit(Entries(disk[..]), name, i) && ofs == 20 * i && e == Entries(disk[..])[i]
      ensures found ==> i == EntryFor(Entries(disk[..]), name) && e.sector == InodeFor(Entries(disk[..]), name)
    {
      hide *;
      ReadableOnDisk(disk[..]);
      ghost var s := Entries(disk[..]);
      i, ofs, found := 0, 0, false;
      var whole;
      whole, e := ReadEntry(disk, ofs, Blank(), ok(0), i);
      while whole
        invariant ofs == 20 * i && (whole <==> i < |s| && ok(i)) && (whole ==> e == s[i]) && i <= |s|
        invariant forall j: nat :: j < i ==> ok(j) && !Hit(s, name, j)
        decreases |s| - i
      {
        HitIs(s, name, i);
        if e.inUse && Name(e) == name {
          Seen(s, ok, name, i);
          found := true;
          return;
        }
        ofs, i := ofs + 20, i + 1;
        whole, e := ReadEntry(disk, ofs, e, ok(ofs / 20), i);
      }
      Unseen(s, ok, name, i);
    }

    /** What e holds before anything has been read into it. */
    function Blank(): (e: Entry)
      ensures |e.rawName| == 15
    {
      Entry(0, seq(15, _ => 0), false)
    }

    lemma HitIs(s: seq<Entry>, name: Bytes, i: nat)
      requires i < |s|
      ensures Hit(s, name, i) <==> s[i].inUse && Name(s[i]) == name
    {}

    lemma Seen(s: seq<Entry>, ok: Answers, name: Bytes, i: nat)
      requires Hit(s, name, i) && forall j: nat :: j < i ==> ok(j) && !Hit(s, name, j)
      requires ok(i)
      ensures Sees(s, ok, name) && EntryFor(s, name) == i && InodeFor(s, name) == s[i].sector
    {
      assert ReadTo(ok, i);
      FirstIs(s, name, i);
    }

    lemma Unseen(s: seq<Entry>, ok: Answers, name: Bytes, i: nat)
      requires i < |s| ==> !ok(i)
      requires forall j: nat :: j < i ==> !Hit(s, name, j)
      ensures !Sees(s, ok, name)
    {}

    /** dir_add's second loop: the first entry not in use, unless a failed read or the end
        of the data comes first. */
    method FreeSlot(disk: array<Bytes>, ok: Answers) returns (ofs: nat, e: Entry, ghost i: nat)
      requires Readable(disk[..])
      ensures i == StopAt(Entries(disk[..]), ok, 0) && ofs == 20 * i && |e.rawName| == 15
    {
      hide *;
      ReadableOnDisk(disk[..]);
      ghost var s := Entries(disk[..]);
      i, ofs := 0, 0;
      var whole;
      whole, e := ReadEntry(disk, ofs, Blank(), ok(0), i);
      while whole
        invariant ofs == 20 * i && i <= |s| && (whole <==> i < |s| && ok(i)) && (whole ==> e == s[i])
        invariant |e.rawName| == 15 && StopAt(s, ok, 0) == StopAt(s, ok, i)
        decreases |s| - i
      {
        StopStep(s, ok, i);
        if !e.inUse {
          return;
        }
        ofs, i := ofs + 20, i + 1;
        whole, e := ReadEntry(disk, ofs, e, ok(ofs / 20), i);
      }
      StopStep(s, ok, i);
    }

    lemma StopStep(s: seq<Entry>, ok: Answers, i: nat)
      requires i <= |s|
      ensures StopAt(s, ok, i) == if i < |s| && ok(i) && s[i].inUse then StopAt(s, ok, i + 1) else i
    {}

    /** When dir_add writes an entry: a good name that its lookup does not see, an entry
        where its search stops, and a buffer for the write. */
    ghost predicate CanAdd(d: Sectors, name: Bytes, lookOk: Answers, slotOk: Answers, writeOk: bool)
      requires OnDisk(d, inode.start, inode.length)
      reads inode
    {
      0 < |name| <= NAME_MAX && !Sees(Entries(d), lookOk, name) && StopAt(Entries(d), slotOk, 0) < |Entries(d)| &&
      inode.denyWriteCnt == 0 && writeOk
    }

    /** dir_add.  The names stay distinct exactly if the name was in no other entry. */
    method Add(disk: array<Bytes>, name: Bytes, inodeSector: int, lookOk: Answers, slotOk: Answers, writeOk: bool)
      returns (success: bool)
      requires Readable(disk[..]) && IsName(name) && 0 <= inodeSector < 0x1_0000_0000
      modifies disk
      ensures Readable(old(disk[..])) && Readable(disk[..])
      ensures success <==> old(CanAdd(disk[..], name, lookOk, slotOk, writeOk))
      ensures success ==>
        Added(Entries(old(disk[..])), Entries(disk[..]), name, inodeSector, StopAt(Entries(old(disk[..])), slotOk, 0))
      ensures !success ==> disk[..] == old(disk[..])
      ensures OnlyFile(old(disk[..]), disk[..], inode.start, inode.length)
    {
      hide *;
      ghost var d := disk[..];
      ReadableOnDisk(d);
      SameFile(d);
      CanAddIs(d, name, lookOk, slotOk, writeOk);
      success := false;
      if name == [] || |name| > 14 {
        return;
      }
      var found, _, _, _ := Lookup(disk, name, lookOk);
      if found {
        return;
      }
      var ofs, e, i := FreeSlot(disk, slotOk);
      NameStored(e, name);
      e := e.(inUse := true, rawName := CopyName(e.rawName, name), sector := inodeSector);
      success := WriteEntry(disk, ofs, e, writeOk, i);
      if success {
        StoredOnlyHere(d, i, e);
        AddedIs(d, disk[..], name, inodeSector, i, e);
      }
    }

    lemma CanAddIs(d: Sectors, name: Bytes, lookOk: Answers, slotOk: Answers, writeOk: bool)
      requires Readable(d)
      ensures OnDisk(d, inode.start, inode.length) && inode.length % 20 == 0
      ensures CanAdd(d, name, lookOk, slotOk, writeOk) <==>
              name != [] && |name| <= 14 && !Sees(Entries(d), lookOk, name) &&
              StopAt(Entries(d), slotOk, 0) < |Entries(d)| && inode.denyWriteCnt == 0 && writeOk
    {}

    lemma AddedIs(d: Sectors, d1: Sectors, name: Bytes, sector: int, i: nat, e: Entry)
      requires Readable(d) && OnDisk(d1, inode.start, inode.length) && i < |Entries(d)|
      requires Entries(d1) == Entries(d)[i := e]
      requires e.inUse && 0 in e.rawName && Name(e) == name && e.sector == sector
      ensures Readable(d1) && Added(Entries(d), Entries(d1), name, sector, i)
    {}

    lemma ReadableOnDisk(d: Sectors)
      requires Readable(d)
      ensures OnDisk(d, inode.start, inode.length) && inode.length % 20 == 0
    {}

    /** What dir_add does to the map from names to sectors. */
    lemma AddMeans(d: Sectors, d1: Sectors, name: Bytes, sector: int, i: nat)
      requires Valid(d) && Readable(d1) && Added(Entries(d), Entries(d1), name, sector, i)
      ensures Valid(d1) <==> name !in Map(d) || Hit(Entries(d), name, i)
      ensures Valid(d1) <==> name !in Without(Entries(d), i)
      ensures Valid(d1) ==> Map(d1) == Without(Entries(d), i)[name := sector]
    {
      Overwrite(Entries(d), i, Entries(d1)[i]);
    }

    /** With memory to be had, dir_add inserts exactly the names that are good and absent
        while there is room. */
    lemma CalmAdd(d: Sectors, name: Bytes, lookOk: Answers, slotOk: Answers)
      requires Valid(d) && forall j: nat :: j < |Entries(d)| ==> lookOk(j) && slotOk(j)
      ensures CanAdd(d, name, lookOk, slotOk, true) <==>
              0 < |name| <= NAME_MAX && name !in Map(d) && HasRoom(d) && inode.denyWriteCnt == 0
      ensures var i := StopAt(Entries(d), slotOk, 0);
              i < |Entries(d)| ==> Without(Entries(d), i) == Map(d)
    {
      CalmScan(Entries(d), lookOk, name);
      CalmScan(Entries(d), slotOk, name);
    }

    /** The directory has an entry that is not in use. */
    ghost predicate HasRoom(d: Sectors)
      requires OnDisk(d, inode.start, inode.length)
    {
      exists i :: 0 <= i < |Entries(d)| && !Entries(d)[i].inUse
    }

    lemma SameFile(d: Sectors)
      requires OnDisk(d, inode.start, inode.length)
      ensures OnlyFile(d, d, inode.start, inode.length)
    {}

    lemma NameStored(e: Entry, name: Bytes)
      requires |e.rawName| == 15 && IsName(name) && |name| <= 14
      ensures var raw := CopyName(e.rawName, name);
              |raw| == 15 && 0 in raw && forall s, u :: Name(Entry(s, raw, u)) == name
    {
      CopiedName(e.rawName, name);
    }

    lemma StoredOnlyHere(d: Sectors, i: nat, e: Entry)
      requires OnDisk(d, inode.start, inode.length) && i < |Entries(d)|
      requires 0 <= e.sector < 0x1_0000_0000 && |e.rawName| == 15
      ensures OnlyFile(d, Patched(d, inode.start, 20 * i, Encode(e)), inode.start, inode.length)
    {
      PatchedOnlyFile(d, inode.start, inode.length, 20 * i, Encode(e));
    }

    /** dir_remove's write: the entry that lookup found is no longer in use. */
    method Erase(disk: array<Bytes>, ofs: nat, e: Entry, bounceOk: bool, ghost i: nat) returns (success: bool)
      requires Readable(disk[..]) && i < |Entries(disk[..])| && ofs == 20 * i
      requires e == Entries(disk[..])[i] && e.inUse
      modifies disk
      ensures Readable(old(disk[..])) && Readable(disk[..])
      ensures success <==> inode.denyWriteCnt == 0 && bounceOk
      ensures success ==> i < |Entries(old(disk[..]))| && Entries(disk[..]) == Cleared(Entries(old(disk[..])), i)
      ensures !success ==> disk[..] == old(disk[..])
      ensures OnlyFile(old(disk[..]), disk[..], inode.start, inode.length)
    {
      hide *;
      ghost var d := disk[..];
      ReadableOnDisk(d);
      SameFile(d);
      EntryFields(d, i);
      success := WriteEntry(disk, ofs, e.(inUse := false), bounceOk, i);
      if success {
        StoredOnlyHere(d, i, e.(inUse := false));
        ErasedIs(d, disk[..], i);
      }
    }

    lemma ErasedIs(d: Sectors, d1: Sectors, i: nat)
      requires Readable(d) && OnDisk(d1, inode.start, inode.length) && i < |Entries(d)|
      requires Entries(d1) == Entries(d)[i := Entries(d)[i].(inUse := false)]
      ensures Readable(d1) && Entries(d1) == Cleared(Entries(d), i)
    {}

    /** What dir_remove's write does to the map from names to sectors. */
    lemma EraseMeans(d: Sectors, d1: Sectors, i: nat)
      requires Valid(d) && Readable(d1) && i < |Entries(d)| && Entries(d)[i].inUse &&
               Entries(d1) == Cleared(Entries(d), i)
      ensures Valid(d1) && Map(d1) == Map(d) - {Name(Entries(d)[i])}
    {
      ClearSlot(Entries(d), i);
    }

    lemma EntryFields(d: Sectors, i: nat)
      requires OnDisk(d, inode.start, inode.length) && i < |Entries(d)|
      ensures |Entries(d)[i].rawName| == 15 && 0 <= Entries(d)[i].sector < 0x1_0000_0000
    {}
  }
}
