/** Reading and writing the data of an inode: filesys/inode.c's sector loops with
    their bounce buffer, against slices of the file's byte sequence. */
module InodeIo {
  import opened ByteTypes

  type Sectors = seq<Bytes>

  /** bytes_to_sectors. */
  function SectorsFor(length: nat): nat { (length + 511) / 512 }

  /** It is the least number of sectors that hold the bytes. */
  lemma SectorsLeast(length: nat, n: nat)
    ensures length <= 512 * n <==> SectorsFor(length) <= n
  {}

  ghost predicate WellFormed(d: Sectors) {
    forall s :: 0 <= s < |d| ==> |d[s]| == 512
  }

  /** The data sectors [start, start + SectorsFor(length)) lie on the disk. */
  ghost predicate OnDisk(d: Sectors, start: nat, length: nat) {
    WellFormed(d) && start + SectorsFor(length) <= |d|
  }

  /** Byte offset i of a file sits at this place of its sectors. */
  ghost predicate InFile(d: Sectors, start: nat, i: nat) {
    start + i / 512 < |d| && |d[start + i / 512]| == 512
  }

  lemma OffsetInFile(d: Sectors, start: nat, length: nat, i: nat)
    requires OnDisk(d, start, length) && i < length
    ensures InFile(d, start, i)
  {}

  /** The bytes of the file: what a reader of inode.c is promised to see. */
  ghost function Contents(d: Sectors, start: nat, length: nat): (r: Bytes)
    requires OnDisk(d, start, length)
    ensures |r| == length
  {
    seq(length, i requires 0 <= i < length => OffsetInFile(d, start, length, i); d[start + i / 512][i % 512])
  }

  /** They are the bytes of its sectors, one sector after the other. */
  lemma ContentsInOrder(d: Sectors, start: nat, length: nat, k: nat)
    requires OnDisk(d, start, length) && k < SectorsFor(length)
    ensures var here := if length - 512 * k < 512 then length - 512 * k else 512;
            0 < here && |d[start + k]| == 512 &&
            Contents(d, start, length)[512 * k..512 * k + here] == d[start + k][..here]
  {
    var here := if length - 512 * k < 512 then length - 512 * k else 512;
    SectorsLeast(length, k);
    var part := Contents(d, start, length)[512 * k..512 * k + here];
    forall j | 0 <= j < here
      ensures part[j] == d[start + k][..here][j]
    {
      assert (512 * k + j) / 512 == k && (512 * k + j) % 512 == j;
    }
  }

  /** Within one sector, offsets advance together. */
  lemma SameSector(o: nat, k: nat)
    requires o % 512 + k < 512
    ensures (o + k) / 512 == o / 512 && (o + k) % 512 == o % 512 + k
  {}

  /** A chunk of a file that stays in one sector is a slice of that sector. */
  lemma ChunkOfContents(d: Sectors, start: nat, length: nat, o: nat, n: nat)
    requires OnDisk(d, start, length) && o + n <= length && o % 512 + n <= 512 && n > 0
    ensures InFile(d, start, o)
    ensures d[start + o / 512][o % 512..o % 512 + n] == Contents(d, start, length)[o..o + n]
  {
    OffsetInFile(d, start, length, o);
    var sec := d[start + o / 512];
    var c := Contents(d, start, length)[o..o + n];
    forall k | 0 <= k < n
      ensures sec[o % 512..o % 512 + n][k] == c[k]
    {
      SameSector(o, k);
    }
  }

  // ---------------------------------------------------------------- writing

  /** The offset in a file starting at sector start of byte j of sector s. */
  function FileOffset(start: nat, s: nat, j: nat): int { (s - start) * 512 + j }

  /** The disk after data has been stored at offset in the file that starts at start:
      every other byte of every sector is as before. */
  ghost function Patched(d: Sectors, start: nat, offset: nat, data: Bytes): (r: Sectors)
    requires WellFormed(d)
    ensures |r| == |d| && WellFormed(r)
  {
    seq(|d|, s requires 0 <= s < |d| => PatchedSector(d[s], FileOffset(start, s, 0), offset, data))
  }

  /** The part of a sector that begins at file offset base. */
  ghost function PatchedSector(sec: Bytes, base: int, offset: nat, data: Bytes): (r: Bytes)
    requires |sec| == 512
    ensures |r| == 512
  {
    seq(512, j requires 0 <= j < 512 =>
      if offset <= base + j < offset + |data| then data[base + j - offset] else sec[j])
  }

  lemma PatchedNothing(d: Sectors, start: nat, offset: nat)
    requires WellFormed(d)
    ensures Patched(d, start, offset, []) == d
  {
    forall s | 0 <= s < |d|
      ensures Patched(d, start, offset, [])[s] == d[s]
    {
      assert PatchedSector(d[s], FileOffset(start, s, 0), offset, []) == d[s];
    }
  }

  /** Storing one more chunk, within one sector, right after the data so far. */
  lemma PatchMore(d: Sectors, start: nat, offset: nat, data: Bytes, chunk: Bytes)
    requires WellFormed(d)
    requires var o := offset + |data|;
             start + o / 512 < |d| && 0 < |chunk| && o % 512 + |chunk| <= 512
    ensures var o := offset + |data|;
            var t, ofs, d1 := start + o / 512, o % 512, Patched(d, start, offset, data);
            d1[t := d1[t][..ofs] + chunk + d1[t][ofs + |chunk|..]] == Patched(d, start, offset, data + chunk)
  {
    var o := offset + |data|;
    PatchAt(d, start, offset, data, chunk, start + o / 512, o % 512);
  }

  /** The same, for byte ofs of sector t. */
  lemma PatchAt(d: Sectors, start: nat, offset: nat, data: Bytes, chunk: Bytes, t: nat, ofs: nat)
    requires WellFormed(d) && t < |d| && ofs + |chunk| <= 512 && offset + |data| == FileOffset(start, t, ofs)
    ensures var d1 := Patched(d, start, offset, data);
            d1[t := d1[t][..ofs] + chunk + d1[t][ofs + |chunk|..]] == Patched(d, start, offset, data + chunk)
  {
    var d1, d2 := Patched(d, start, offset, data), Patched(d, start, offset, data + chunk);
    SectorMore(d[t], FileOffset(start, t, 0), offset, data, chunk, ofs);
    forall s | 0 <= s < |d| && s != t
      ensures d1[s] == d2[s]
    {
      SectorSame(d[s], FileOffset(start, s, 0), offset, data, chunk);
    }
    hide PatchedSector;
  }

  lemma SectorMore(sec: Bytes, base: int, offset: nat, data: Bytes, chunk: Bytes, ofs: nat)
    requires |sec| == 512 && offset + |data| == base + ofs && ofs + |chunk| <= 512
    ensures var before := PatchedSector(sec, base, offset, data);
            before[..ofs] + chunk + before[ofs + |chunk|..] == PatchedSector(sec, base, offset, data + chunk)
  {}

  lemma SectorSame(sec: Bytes, base: int, offset: nat, data: Bytes, chunk: Bytes)
    requires |sec| == 512
    requires base + 512 <= offset + |data| || offset + |data| + |chunk| <= base
    ensures PatchedSector(sec, base, offset, data) == PatchedSector(sec, base, offset, data + chunk)
  {}

  /** Storing inside the file is slice assignment on its contents. */
  lemma ContentsPatched(d: Sectors, start: nat, length: nat, offset: nat, data: Bytes)
    requires OnDisk(d, start, length) && offset + |data| <= length
    ensures var c := Contents(d, start, length);
            Contents(Patched(d, start, offset, data), start, length) == c[..offset] + data + c[offset + |data|..]
  {
    var d1, c := Patched(d, start, offset, data), Contents(d, start, length);
    var want := c[..offset] + data + c[offset + |data|..];
    forall i | 0 <= i < length
      ensures Contents(d1, start, length)[i] == want[i]
    {
      OffsetInFile(d, start, length, i);
      assert FileOffset(start, start + i / 512, 0) + i % 512 == i;
    }
  }

  /** Sectors that hold no part of the stored range are untouched, and so is every byte
      of the range's own sectors outside it, the slack after the end of the file included. */
  lemma PatchedElsewhere(d: Sectors, start: nat, offset: nat, data: Bytes, s: nat, j: nat)
    requires WellFormed(d) && s < |d| && j < 512
    requires !(offset <= FileOffset(start, s, j) < offset + |data|)
    ensures Patched(d, start, offset, data)[s][j] == d[s][j]
  {}

  lemma PatchedOnDisk(d: Sectors, start: nat, length: nat, offset: nat, data: Bytes)
    requires OnDisk(d, start, length)
    ensures OnDisk(Patched(d, start, offset, data), start, length)
  {}

  /** The two disks differ at most in the data sectors of one file. */
  ghost predicate OnlyFile(d: Sectors, d1: Sectors, start: nat, length: nat) {
    |d1| == |d| && WellFormed(d1) &&
    forall s :: 0 <= s < |d| && !(start <= s < start + SectorsFor(length)) ==> d1[s] == d[s]
  }

  lemma PatchedOnlyFile(d: Sectors, start: nat, length: nat, offset: nat, data: Bytes)
    requires OnDisk(d, start, length) && offset + |data| <= length
    ensures OnlyFile(d, Patched(d, start, offset, data), start, length)
  {
    var d1 := Patched(d, start, offset, data);
    SectorsCover(length);
    forall s | 0 <= s < |d| && !(start <= s < start + SectorsFor(length))
      ensures d1[s] == d[s]
    {
      forall j | 0 <= j < 512
        ensures d1[s][j] == d[s][j]
      {
        PatchedElsewhere(d, start, offset, data, s, j);
      }
    }
  }

  /** Storing into one file leaves a file on other sectors as it was. */
  lemma OtherFileUntouched(d: Sectors, start: nat, length: nat, offset: nat, data: Bytes, start2: nat, length2: nat)
    requires OnDisk(d, start, length) && OnDisk(d, start2, length2) && offset + |data| <= length
    requires start + SectorsFor(length) <= start2 || start2 + SectorsFor(length2) <= start
    ensures Contents(Patched(d, start, offset, data), start2, length2) == Contents(d, start2, length2)
  {
    forall i | 0 <= i < length2
      ensures Contents(Patched(d, start, offset, data), start2, length2)[i] == Contents(d, start2, length2)[i]
    {
      OffsetInFile(d, start2, length2, i);
      SectorOfOffset(i, length2);
      if start2 + SectorsFor(length2) <= start {
        PatchedElsewhere(d, start, offset, data, start2 + i / 512, i % 512);
      } else {
        SectorsCover(length);
        PatchedElsewhere(d, start, offset, data, start2 + i / 512, i % 512);
      }
    }
  }

  lemma SectorOfOffset(i: nat, length: nat)
    requires i < length
    ensures i / 512 < SectorsFor(length)
  {}

  lemma SectorsCover(length: nat)
    ensures length <= SectorsFor(length) * 512
  {}

  // ---------------------------------------------------------------- how much moves

  /** Bytes a transfer of size bytes at offset moves when buffers are to be had. */
  function Available(size: int, offset: nat, length: nat): (n: nat)
    ensures n > 0 ==> offset + n <= length && n <= size
  {
    if size <= 0 || length <= offset then 0
    else if size < length - offset then size else length - offset
  }

  /** The same when the bounce buffer cannot be allocated: whole sectors only, and none
      at all from the middle of a sector. */
  function Transferred(size: int, offset: nat, length: nat, bounceOk: bool): (n: nat)
    ensures n <= Available(size, offset, length)
  {
    var n := Available(size, offset, length);
    if bounceOk then n else if offset % 512 != 0 then 0 else n / 512 * 512
  }

  /** How far a transfer of size bytes at offset gets in a file of this length.  With a bounce
      buffer: as far as is wanted and as the file reaches.  Without one: not at all from the
      middle of a sector, else every sector that is wanted and filled as a whole, and no more. */
  ghost predicate Moves(n: nat, size: int, offset: nat, length: nat, bounceOk: bool) {
    n <= (if size > 0 then size else 0) && (n > 0 ==> offset + n <= length) &&
    if bounceOk then n < size ==> offset + n >= length
    else n % 512 == 0 && if offset % 512 != 0 then n == 0 else n + 512 > size || offset + n + 512 > length
  }

  /** That is one number. */
  lemma MovesOnce(n: nat, m: nat, size: int, offset: nat, length: nat, bounceOk: bool)
    requires Moves(n, size, offset, length, bounceOk) && Moves(m, size, offset, length, bounceOk)
    ensures n == m
  {
    if !bounceOk {
      NextSector(n, m);
      NextSector(m, n);
    }
  }

  lemma NextSector(n: nat, m: nat)
    requires n % 512 == 0 && m % 512 == 0
    ensures n < m ==> n + 512 <= m
  {
    assert n == 512 * (n / 512) && m == 512 * (m / 512);
  }

  lemma TransferMoves(size: int, offset: nat, length: nat, bounceOk: bool)
    ensures Moves(Transferred(size, offset, length, bounceOk), size, offset, length, bounceOk)
  {
    var n := Available(size, offset, length);
    if !bounceOk && offset % 512 == 0 { WholePart(n); }
  }

  lemma WholePart(n: nat)
    ensures (n / 512 * 512) % 512 == 0 && n / 512 * 512 <= n < n / 512 * 512 + 512
  {}

  /** The loop's chunk: what is wanted, what the file has left, what the sector has left. */
  function ChunkSize(size: int, offset: nat, length: nat): int {
    var sectorLeft := 512 - offset % 512;
    var inodeLeft := length - offset;
    var minLeft := if inodeLeft < sectorLeft then inodeLeft else sectorLeft;
    if size < minLeft then size else minLeft
  }

  lemma ChunkFacts(size: int, offset: nat, length: nat)
    requires size > 0
    ensures var n := ChunkSize(size, offset, length);
            (n <= 0 <==> Available(size, offset, length) == 0) &&
            (n > 0 ==> offset % 512 + n <= 512 && offset + n <= length && n <= size)
    ensures var n := ChunkSize(size, offset, length);
            n > 0 ==> Available(size, offset, length) == n + Available(size - n, offset + n, length)
  {}

  /** One whole sector less to transfer. */
  lemma WholeSectorStep(size: int, offset: nat, length: nat, bounceOk: bool)
    requires size > 0 && offset % 512 == 0 && ChunkSize(size, offset, length) == 512
    ensures Transferred(size, offset, length, bounceOk) == 512 + Transferred(size - 512, offset + 512, length, bounceOk)
  {
    ChunkFacts(size, offset, length);
    var n := Available(size - 512, offset + 512, length);
    assert (512 + n) / 512 == 1 + n / 512;
  }

  /** A partial chunk ends the transfer when there is no bounce buffer. */
  lemma PartialStep(size: int, offset: nat, length: nat, bounceOk: bool)
    requires size > 0 && ChunkSize(size, offset, length) > 0
    requires !(offset % 512 == 0 && ChunkSize(size, offset, length) == 512)
    ensures var n := ChunkSize(size, offset, length);
            Transferred(size, offset, length, bounceOk) ==
            if bounceOk then n + Transferred(size - n, offset + n, length, bounceOk) else 0
  {
    ChunkFacts(size, offset, length);
  }

  /** Either way the transfer is this chunk and the transfer of the rest. */
  lemma TransferStep(size: int, offset: nat, length: nat, bounceOk: bool)
    requires size > 0 && ChunkSize(size, offset, length) > 0
    ensures var n := ChunkSize(size, offset, length);
            Transferred(size, offset, length, bounceOk) ==
            if bounceOk || (offset % 512 == 0 && n == 512)
                then n + Transferred(size - n, offset + n, length, bounceOk) else 0
  {
    if offset % 512 == 0 && ChunkSize(size, offset, length) == 512 {
      WholeSectorStep(size, offset, length, bounceOk);
    } else {
      PartialStep(size, offset, length, bounceOk);
    }
  }

  lemma NothingLeft(size: int, offset: nat, length: nat, bounceOk: bool)
    requires size <= 0 || ChunkSize(size, offset, length) <= 0
    ensures Transferred(size, offset, length, bounceOk) == 0
  {
    if size > 0 { ChunkFacts(size, offset, length); }
  }

  // ---------------------------------------------------------------- the loops

  /** n bytes from offset o, empty when there are none whatever o is. */
  ghost function Slice(c: Bytes, o: nat, n: nat): Bytes
    requires n > 0 ==> o + n <= |c|
  {
    if n == 0 then [] else c[o..o + n]
  }

  lemma SliceMore(c: Bytes, o: nat, n: nat, m: nat)
    requires o + n + m <= |c|
    ensures Slice(c, o, n) + c[o + n..o + n + m] == Slice(c, o, n + m)
  {}

  /** The buffer holds what has been read, and behind it what it held before. */
  ghost predicate Filled(b0: Bytes, b: Bytes, n: nat, done: Bytes) {
    |b| == |b0| && n <= |b| && b[..n] == done && b[n..] == b0[n..]
  }

  lemma FilledMore(b0: Bytes, b: Bytes, b1: Bytes, n: nat, done: Bytes, chunk: Bytes)
    requires Filled(b0, b, n, done) && n + |chunk| <= |b| && b1 == b[..n] + chunk + b[n + |chunk|..]
    ensures Filled(b0, b1, n + |chunk|, done + chunk)
  {
    assert b1[n + |chunk|..] == b[n..][|chunk|..];
  }

  /** An open inode: where its data is, and whether writes are denied. */
  class Inode {
    const start: nat
    const length: nat
    var denyWriteCnt: nat

    constructor (start: nat, length: nat)
      ensures this.start == start && this.length == length && denyWriteCnt == 0
    {
      this.start, this.length, denyWriteCnt := start, length, 0;
    }

    /** The sector that holds byte offset pos, or -1 past the end of the file. */
    function ByteToSector(pos: nat): (r: int)
      ensures r == -1 <==> pos >= length
    {
      if pos < length then start + pos / 512 else -1
    }

    /** The sector it names is the one with byte pos of the file, at the offset inside it
        that the loops use. */
    lemma ByteAtSector(d: Sectors, pos: nat)
      requires OnDisk(d, start, length) && pos < length
      ensures var s := ByteToSector(pos);
              0 <= s < |d| && |d[s]| == 512 && d[s][pos % 512] == Contents(d, start, length)[pos]
    {
      OffsetInFile(d, start, length, pos);
    }

    /** inode_read_at: refines taking a slice of the file's bytes. */
    method ReadAt(disk: array<Bytes>, buffer: array<Byte>, size0: int, offset0: nat, bounceOk: bool)
      returns (bytesRead: nat)
      requires OnDisk(disk[..], start, length) && size0 <= buffer.Length
      modifies buffer
      ensures bytesRead == Transferred(size0, offset0, length, bounceOk) <= buffer.Length
      ensures Moves(bytesRead, size0, offset0, length, bounceOk)
      ensures buffer[..bytesRead] == Slice(Contents(disk[..], start, length), offset0, bytesRead)
      ensures buffer[bytesRead..] == old(buffer[bytesRead..])
    {
      hide Transferred, Available, ChunkSize, Contents, OnDisk, Slice, Moves;
      TransferMoves(size0, offset0, length, bounceOk);
      ghost var d, c := disk[..], Contents(disk[..], start, length);
      var size, offset := size0, offset0;
      bytesRead := 0;
      SliceNone(c, offset0);
      assert Filled(buffer[..], buffer[..], 0, []);
      while size > 0
        invariant disk[..] == d && 0 <= bytesRead <= buffer.Length
        invariant size == size0 - bytesRead && offset == offset0 + bytesRead
        invariant bytesRead + Transferred(size, offset, length, bounceOk) ==
                  Transferred(size0, offset0, length, bounceOk)
        invariant bytesRead > 0 ==> offset <= length
        invariant Filled(old(buffer[..]), buffer[..], bytesRead, Slice(c, offset0, bytesRead))
      {
        var sectorIdx := ByteToSector(offset);
        var sectorOfs := offset % 512;
        var chunkSize := ChunkSize(size, offset, length);
        if chunkSize <= 0 {
          break;
        }
        ChunkFacts(size, offset, length);
        ChunkOfContents(d, start, length, offset, chunkSize);
        SliceMore(c, offset0, bytesRead, chunkSize);
        ghost var before := buffer[..];
        var whole := sectorOfs == 0 && chunkSize == 512;
        TransferStep(size, offset, length, bounceOk);
        if !whole && !bounceOk {
          return;
        }
        // A whole sector goes straight into the caller's buffer, a part of one by way of the
        // bounce buffer.
        var chunk := if whole then disk[sectorIdx] else disk[sectorIdx][sectorOfs..sectorOfs + chunkSize];
        CopyTo(buffer, bytesRead, chunk);
        FilledMore(old(buffer[..]), before, buffer[..], bytesRead, Slice(c, offset0, bytesRead), chunk);
        size, offset, bytesRead := size - chunkSize, offset + chunkSize, bytesRead + chunkSize;
      }
      NothingLeft(size, offset, length, bounceOk);
    }

    /** inode_write_at: refines slice assignment on the file's bytes, and disturbs no
        other byte of the disk. */
    method WriteAt(disk: array<Bytes>, buffer: Bytes, size0: int, offset0: nat, bounceOk: bool)
      returns (bytesWritten: nat)
      requires OnDisk(disk[..], start, length) && size0 <= |buffer|
      modifies disk
      ensures bytesWritten == if denyWriteCnt > 0 then 0 else Transferred(size0, offset0, length, bounceOk)
      ensures denyWriteCnt == 0 ==> Moves(bytesWritten, size0, offset0, length, bounceOk)
      ensures bytesWritten <= |buffer| && WellFormed(old(disk[..]))
      ensures disk[..] == Patched(old(disk[..]), start, offset0, buffer[..bytesWritten])
    {
      hide Transferred, Available, ChunkSize, Patched, OnDisk, WellFormed, Moves;
      TransferMoves(size0, offset0, length, bounceOk);
      ghost var d := disk[..];
      OnDiskWellFormed(d, start, length);
      PatchedNothing(d, start, offset0);
      bytesWritten := 0;
      assert buffer[..0] == [];
      if denyWriteCnt > 0 {
        return;
      }
      var size, offset := size0, offset0;
      while size > 0
        invariant 0 <= bytesWritten <= |buffer|
        invariant size == size0 - bytesWritten && offset == offset0 + bytesWritten
        invariant bytesWritten + Transferred(size, offset, length, bounceOk) ==
                  Transferred(size0, offset0, length, bounceOk)
        invariant disk[..] == Patched(d, start, offset0, buffer[..bytesWritten])
      {
        var sectorIdx := ByteToSector(offset);
        var sectorOfs := offset % 512;
        var chunkSize := ChunkSize(size, offset, length);
        var sectorLeft := 512 - sectorOfs;
        if chunkSize <= 0 {
          break;
        }
        ChunkFacts(size, offset, length);
        OffsetOnDisk(d, start, length, offset, offset0, buffer[..bytesWritten]);
        var chunk := buffer[bytesWritten..bytesWritten + chunkSize];
        PatchMore(d, start, offset0, buffer[..bytesWritten], chunk);
        assert buffer[..bytesWritten] + chunk == buffer[..bytesWritten + chunkSize];
        if sectorOfs == 0 && chunkSize == 512 {
          WholeSectorStep(size, offset, length, bounceOk);
          disk[sectorIdx] := chunk;
          WholeSector(d, chunk, start, offset0, buffer[..bytesWritten], sectorIdx);
        } else {
          PartialStep(size, offset, length, bounceOk);
          if !bounceOk {
            return;
          }
          var bounce: Bytes := [];
          if sectorOfs > 0 || chunkSize < sectorLeft {
            bounce := disk[sectorIdx];
          } else {
            // the source clears the buffer here, but a partial chunk always shares its sector
            assert false;
          }
          disk[sectorIdx] := bounce[..sectorOfs] + chunk + bounce[sectorOfs + chunkSize..];
        }
        size, offset, bytesWritten := size - chunkSize, offset + chunkSize, bytesWritten + chunkSize;
      }
      NothingLeft(size, offset, length, bounceOk);
    }
  }

  lemma SliceNone(c: Bytes, o: nat)
    ensures Slice(c, o, 0) == []
  {}

  lemma OnDiskWellFormed(d: Sectors, start: nat, length: nat)
    requires OnDisk(d, start, length)
    ensures WellFormed(d)
  {}

  lemma OffsetOnDisk(d: Sectors, start: nat, length: nat, o: nat, offset: nat, data: Bytes)
    requires OnDisk(d, start, length) && o < length && WellFormed(d)
    ensures start + o / 512 < |d| && |Patched(d, start, offset, data)[start + o / 512]| == 512
  {
    OffsetInFile(d, start, length, o);
  }

  /** A chunk of 512 bytes at the start of a sector is the whole sector. */
  lemma WholeSector(d: Sectors, chunk: Bytes, start: nat, offset: nat, data: Bytes, t: nat)
    requires WellFormed(d) && t < |d| && |chunk| == 512
    ensures var sec := Patched(d, start, offset, data)[t];
            |sec| == 512 && sec[..0] + chunk + sec[0 + |chunk|..] == chunk
  {}
}
