/** A process's user memory as its page tables show it: the bytes of each mapped page, and
    install_page of userprog/process.c, which adds one. */
module UserMemory {
  import opened ByteTypes
  import PageDir

  const PGSIZE := PageDir.PGSIZE
  const PHYS_BASE := PageDir.PHYS_BASE

  /** The bytes of each user page by page number. */
  type Space = map<int, Bytes>

  // ---------------------------------------------------------------- words and bytes

  /** A page frame's 1024 words, byte by byte. */
  function BytesOf(frame: PageDir.Frame): (r: Bytes)
    requires |frame| == 1024
    ensures |r| == PGSIZE
  {
    seq<Byte>(PGSIZE, j requires 0 <= j < PGSIZE => Le32(frame[j / 4] % 0x1_0000_0000)[j % 4])
  }

  function WordsOf(b: Bytes): (r: PageDir.Frame)
    requires |b| == PGSIZE
    ensures |r| == 1024
  {
    seq<int>(1024, i requires 0 <= i < 1024 => FromLe32(b[4 * i..4 * i + 4]))
  }

  lemma WordRoundTrip(b: Bytes)
    requires |b| == 4
    ensures Le32(FromLe32(b)) == b
  {
    var x, y, z, w: int := b[0], b[1], b[2], b[3];
    var v := FromLe32(b);
    assert v == x + 256 * (y + 256 * (z + 256 * w));
    assert v / 256 == y + 256 * (z + 256 * w) && v / 65536 == v / 256 / 256 == z + 256 * w;
    assert v / 16777216 == v / 65536 / 256 == w;
  }

  lemma ByteRoundTrip(b: Bytes, j: nat)
    requires |b| == PGSIZE && j < PGSIZE
    ensures BytesOf(WordsOf(b))[j] == b[j]
  {
    var i := j / 4;
    var part := b[4 * i..4 * i + 4];
    WordRoundTrip(part);
    hide Le32, FromLe32;
    assert WordsOf(b)[i] == FromLe32(part) && FromLe32(part) % 0x1_0000_0000 == FromLe32(part);
    assert BytesOf(WordsOf(b))[j] == Le32(FromLe32(part))[j % 4];
  }

  /** What is stored in a frame is read there. */
  lemma FrameRoundTrip(b: Bytes)
    requires |b| == PGSIZE
    ensures BytesOf(WordsOf(b)) == b
  {
    forall j | 0 <= j < PGSIZE
      ensures BytesOf(WordsOf(b))[j] == b[j]
    {
      ByteRoundTrip(b, j);
    }
    hide BytesOf, WordsOf;
  }

  /** Word i of a frame has bytes 4 i to 4 i + 3, the lowest first. */
  lemma FrameLayout(frame: PageDir.Frame, i: nat)
    requires |frame| == 1024 && i < 1024 && 0 <= frame[i] < 0x1_0000_0000
    ensures var b := BytesOf(frame);
            frame[i] == b[4 * i] as int + 0x100 * (b[4 * i + 1] as int) + 0x1_0000 * (b[4 * i + 2] as int) +
                        0x100_0000 * (b[4 * i + 3] as int)
  {
    Le32Places(frame[i]);
    hide Le32;
    assert frame[i] % 0x1_0000_0000 == frame[i];
    ByteInWord(frame, i, 0);
    ByteInWord(frame, i, 1);
    ByteInWord(frame, i, 2);
    ByteInWord(frame, i, 3);
    hide BytesOf;
  }

  lemma ByteInWord(frame: PageDir.Frame, i: nat, k: nat)
    requires |frame| == 1024 && i < 1024 && k < 4
    ensures BytesOf(frame)[4 * i + k] == Le32(frame[i] % 0x1_0000_0000)[k]
  {
    hide Le32;
    assert (4 * i + k) / 4 == i && (4 * i + k) % 4 == k;
  }

  // ---------------------------------------------------------------- what a process sees

  ghost function FrameBytes(m: PageDir.Memory, f: int): (r: Bytes)
    ensures |r| == PGSIZE
  {
    if 0 <= f < |m| && |m[f]| == 1024 then BytesOf(m[f]) else seq<Byte>(PGSIZE, _ => 0)
  }

  ghost function SpaceOf(m: PageDir.Memory, pd: int): Space {
    map p | p in PageDir.Pages(m, pd) :: FrameBytes(m, PageDir.Pages(m, pd)[p].frame)
  }

  ghost function ReadOnlyOf(m: PageDir.Memory, pd: int): set<int> {
    set p | p in PageDir.Pages(m, pd) && !PageDir.Pages(m, pd)[p].writable
  }

  /** Frame f is no part of the directory: neither it, nor a table, nor mapped. */
  ghost predicate Loose(m: PageDir.Memory, pd: int, f: int) {
    f != pd && (forall i :: !PageDir.IsTable(m, pd, i, f)) && forall i, j :: !PageDir.MapsTo(m, pd, i, j, f)
  }

  lemma FreeIsLoose(m: PageDir.Memory, u: seq<bool>, pd: int, f: int)
    requires PageDir.Sound(m, u, pd) && 0 <= f < |u| && !u[f]
    ensures Loose(m, pd, f)
  {
    PageDir.FreeIsNoTable(m, u, pd, f);
    forall i, j
      ensures !PageDir.MapsTo(m, pd, i, j, f)
    {
      if PageDir.MapsTo(m, pd, i, j, f) { PageDir.MappedIsNoTable(m, u, pd, i, j, f); }
    }
  }

  /** Page p of the map is the mapping its entry makes. */
  lemma PageMapsTo(m: PageDir.Memory, pd: int, p: int)
    requires p in PageDir.Pages(m, pd)
    ensures PageDir.MapsTo(m, pd, p / 1024, p % 1024, PageDir.Pages(m, pd)[p].frame)
  {}

  /** Nobody sees a change in a loose frame. */
  lemma LooseFrame(m: PageDir.Memory, u: seq<bool>, pd: int, f: int, w: PageDir.Frame, b: bool)
    requires PageDir.Sound(m, u, pd) && 0 <= f < |m| && Loose(m, pd, f) && |w| == 1024
    ensures var m1, u1 := m[f := w], u[f := b];
            PageDir.Sound(m1, u1, pd) && Loose(m1, pd, f) && PageDir.Pages(m1, pd) == PageDir.Pages(m, pd) &&
            SpaceOf(m1, pd) == SpaceOf(m, pd) && (PageDir.Injective(m, pd) ==> PageDir.Injective(m1, pd))
  {
    var m1, u1 := m[f := w], u[f := b];
    TablesInside(m, u, pd);
    PageDir.OtherSound(m, u, m1, u1, pd);
    hide PageDir.Sound;
    forall i, t
      ensures PageDir.IsTable(m1, pd, i, t) <==> PageDir.IsTable(m, pd, i, t)
    {}
    forall i, j
      ensures PageDir.Pte(m1, pd, i, j) == PageDir.Pte(m, pd, i, j)
    {
      if 0 <= i < PageDir.USER_PDES && m[pd][i] != 0 { assert PageDir.IsTable(m, pd, i, PageDir.FrameOf(m[pd][i])); }
    }
    forall i, j, g
      ensures PageDir.MapsTo(m1, pd, i, j, g) <==> PageDir.MapsTo(m, pd, i, j, g)
    {}
    forall p | p in PageDir.Pages(m, pd)
      ensures PageDir.Pages(m, pd)[p].frame != f
    {
      PageMapsTo(m, pd, p);
    }
  }

  lemma TablesInside(m: PageDir.Memory, u: seq<bool>, pd: int)
    requires PageDir.Sound(m, u, pd)
    ensures 0 <= pd < |m| == |u| && u[pd] && |m[pd]| == 1024 && PageDir.WellFormed(m)
    ensures forall i, t :: PageDir.IsTable(m, pd, i, t) ==> 0 <= t < |m| && u[t]
  {
    forall i, t | PageDir.IsTable(m, pd, i, t)
      ensures 0 <= t < |m| && u[t]
    {
      assert PageDir.PdeOk(m, u, pd, i);
    }
  }

  /** A new mapping adds its frame's bytes and changes no other page's. */
  lemma Mapped(m: PageDir.Memory, u: seq<bool>, m1: PageDir.Memory, u1: seq<bool>, pd: int, page: int, f: int,
               writable: bool)
    requires PageDir.Sound(m, u, pd) && PageDir.Untouched(m, u, m1, u1, pd)
    requires PageDir.Pages(m1, pd) == PageDir.Pages(m, pd)[page := PageDir.Mapping(f, writable)] &&
             page !in PageDir.Pages(m, pd)
    requires PageDir.IsFrame(m, u, f) && f != pd && forall i :: !PageDir.IsTable(m, pd, i, f)
    ensures SpaceOf(m1, pd) == SpaceOf(m, pd)[page := FrameBytes(m, f)]
    ensures ReadOnlyOf(m1, pd) == if writable then ReadOnlyOf(m, pd) else ReadOnlyOf(m, pd) + {page}
  {
    forall p | p in PageDir.Pages(m, pd)
      ensures FrameBytes(m1, PageDir.Pages(m, pd)[p].frame) == FrameBytes(m, PageDir.Pages(m, pd)[p].frame)
    {
      PageMapsTo(m, pd, p);
      PageDir.MappedIsNoTable(m, u, pd, p / 1024, p % 1024, PageDir.Pages(m, pd)[p].frame);
    }
    hide PageDir.Pages, PageDir.Sound;
  }
}
