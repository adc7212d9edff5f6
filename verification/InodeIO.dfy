/** inode_read_at and inode_write_at over a block device, sector by sector. */
module InodeIO {
  import opened DiskModel

  /** In-memory inode. */
  class Inode {
    const sector: nat
    const data: DiskInode
    var openCnt: int
    var removed: bool
    var denyWriteCnt: int

    constructor (sector: nat, data: DiskInode)
      ensures this.sector == sector && openCnt == 1 && !removed && denyWriteCnt == 0 && this.data == data
    {
      this.sector, this.data := sector, data;
      openCnt, removed, denyWriteCnt := 1, false, 0;
    }
  }

  class Disk {
    var sectors: seq<Sector>

    constructor (size: nat)
      ensures |sectors| == size && forall s :: 0 <= s < size ==> sectors[s] == Data(Zeros())
    {
      sectors := seq(size, _ => Data(Zeros()));
    }

    /** block_read of a data sector into `buffer` at `at`. */
    method BlockRead(sector: nat, buffer: array<byte>, at: nat)
      requires sector < |sectors| && IsData(sectors[sector])
      requires at + SECTOR_SIZE <= buffer.Length
      modifies buffer
      ensures forall i :: 0 <= i < buffer.Length ==>
        buffer[i] == if at <= i < at + SECTOR_SIZE then sectors[sector].bytes[i - at] else old(buffer[i])
    {
      var b := sectors[sector].bytes;
      forall i | 0 <= i < SECTOR_SIZE {
        buffer[at + i] := b[i];
      }
    }

    method BlockWrite(sector: nat, data: Sector)
      requires sector < |sectors|
      modifies this
      ensures sectors == old(sectors)[sector := data]
    {
      sectors := sectors[sector := data];
    }
  }

  function Min(a: int, b: int): int {
    if a < b then a else b
  }

  /** How many bytes a transfer moves.  `bounceOk` says whether the bounce buffer can be
      allocated; without it only leading whole sectors are moved. */
  function Transferred(length: nat, size: int, offset: nat, bounceOk: bool): (n: nat)
    ensures n <= Max0(size) && (n > 0 ==> offset + n <= length)
  {
    var n := Min(Max0(size), Max0(length - offset));
    if bounceOk then n
    else if offset % SECTOR_SIZE != 0 then 0
    else n / SECTOR_SIZE * SECTOR_SIZE
  }

  /** With the bounce buffer a transfer stops at the end of the file only; without it, it
      takes from a sector boundary all the whole sectors there are. */
  lemma TransferMost(length: nat, size: nat, offset: nat)
    ensures var n := Transferred(length, size, offset, true);
            n <= size && (n > 0 ==> offset + n <= length) && (n < size ==> length <= offset + n)
    ensures var n, all := Transferred(length, size, offset, false), Transferred(length, size, offset, true);
            && n <= all && n % SECTOR_SIZE == 0 && (n > 0 ==> offset % SECTOR_SIZE == 0)
            && (offset % SECTOR_SIZE == 0 ==> all < n + SECTOR_SIZE)
  {
  }

  function Max0(a: int): nat {
    if a < 0 then 0 else a
  }

  /** The number of bytes moved by one turn of the loop. */
  function Chunk(length: nat, size: int, offset: nat): (n: int)
    ensures n <= size && n <= length - offset && n <= SECTOR_SIZE - offset % SECTOR_SIZE
    ensures size > 0 && offset < length ==> n > 0
  {
    var inodeLeft := length - offset;
    var sectorLeft := SECTOR_SIZE - offset % SECTOR_SIZE;
    Min(size, Min(inodeLeft, sectorLeft))
  }

  /** One turn and the rest of the transfer make up the whole transfer. */
  lemma TransferStep(length: nat, size: int, offset: nat, bounceOk: bool)
    requires size > 0 && offset < length
    ensures var chunk := Chunk(length, size, offset);
            if (offset % SECTOR_SIZE == 0 && chunk == SECTOR_SIZE) || bounceOk then
              Transferred(length, size, offset, bounceOk)
                == chunk + Transferred(length, size - chunk, offset + chunk, bounceOk)
            else Transferred(length, size, offset, bounceOk) == 0
  {
    var chunk := Chunk(length, size, offset);
    if offset % SECTOR_SIZE == 0 && chunk == SECTOR_SIZE {
      assert (offset + chunk) % SECTOR_SIZE == 0;
    }
  }

  lemma TransferEnd(length: nat, size: int, offset: nat, bounceOk: bool)
    requires size <= 0 || offset >= length
    ensures Transferred(length, size, offset, bounceOk) == 0
  {
  }

  /** The chunk starting at `offset` lies in one data sector of the inode's extent. */
  lemma ChunkSector(disk: seq<Sector>, d: DiskInode, size: int, offset: nat)
    requires Readable(disk, d) && size > 0 && offset < d.length
    ensures var s := d.start + offset / SECTOR_SIZE;
            && s < |disk| && IsData(disk[s])
            && forall j :: offset <= j < offset + Chunk(d.length, size, offset) ==>
                 Contents(disk, d)[j] == disk[s].bytes[j - offset + offset % SECTOR_SIZE]
  {
    SectorsCover(d.length, offset);
    forall j | offset <= j < offset + Chunk(d.length, size, offset)
      ensures Contents(disk, d)[j] == disk[d.start + offset / SECTOR_SIZE].bytes[j - offset + offset % SECTOR_SIZE]
    {
      ByteOf(d, j);
      assert j / SECTOR_SIZE == offset / SECTOR_SIZE;
      assert j % SECTOR_SIZE == j - offset + offset % SECTOR_SIZE;
    }
  }

  /** The body of the read loop: one chunk, directly or through the bounce buffer. */
  method ReadChunk(disk: Disk, inode: Inode, buffer: array<byte>, at: nat, left: int, ofs: nat,
                   bounce0: array?<byte>, bounceOk: bool)
    returns (ok: bool, bounce: array?<byte>)
    requires Readable(disk.sectors, inode.data) && ofs < inode.data.length && left > 0 && at + left <= buffer.Length
    requires bounce0 != null ==> bounce0.Length == SECTOR_SIZE && bounceOk && bounce0 != buffer
    modifies buffer, bounce0
    ensures bounce != bounce0 ==> fresh(bounce)
    ensures bounce != null ==> bounce.Length == SECTOR_SIZE && bounceOk && bounce != buffer
    ensures var chunk := Chunk(inode.data.length, left, ofs);
            && ok == (bounceOk || (ofs % SECTOR_SIZE == 0 && chunk == SECTOR_SIZE))
            && forall i :: 0 <= i < buffer.Length ==>
                 buffer[i] == if ok && at <= i < at + chunk then Contents(disk.sectors, inode.data)[ofs + (i - at)]
                              else old(buffer[i])
  {
    ok, bounce := true, bounce0;
    var sectorIdx := inode.data.start + ofs / SECTOR_SIZE;
    var sectorOfs := ofs % SECTOR_SIZE;
    var chunk := Chunk(inode.data.length, left, ofs);
    ChunkSector(disk.sectors, inode.data, left, ofs);
    if sectorOfs == 0 && chunk == SECTOR_SIZE {
      disk.BlockRead(sectorIdx, buffer, at);
    } else {
      if bounce == null {
        if !bounceOk {
          return false, null;
        }
        bounce := new byte[SECTOR_SIZE];
      }
      disk.BlockRead(sectorIdx, bounce, 0);
      forall i | 0 <= i < chunk {
        buffer[at + i] := bounce[sectorOfs + i];
      }
    }
  }

  /** Reads exactly the transferred part of the contents and touches nothing else. */
  method ReadAt(disk: Disk, inode: Inode, buffer: array<byte>, size: int, offset: nat, bounceOk: bool)
    returns (bytesRead: nat)
    requires Readable(disk.sectors, inode.data) && size <= buffer.Length
    modifies buffer
    ensures bytesRead == Transferred(inode.data.length, size, offset, bounceOk)
    ensures bytesRead > 0 ==> buffer[..bytesRead] == Contents(disk.sectors, inode.data)[offset..offset + bytesRead]
    ensures forall i :: bytesRead <= i < buffer.Length ==> buffer[i] == old(buffer[i])
  {
    var length := inode.data.length;
    ghost var c := Contents(disk.sectors, inode.data);
    bytesRead := 0;
    hide Transferred, Contents, Readable;
    var left, ofs := size, offset;
    var bounce: array?<byte> := null;
    while left > 0
      invariant ofs == offset + bytesRead && left == size - bytesRead && (bytesRead > 0 ==> ofs <= length && left >= 0)
      invariant Transferred(length, size, offset, bounceOk) == bytesRead + Transferred(length, left, ofs, bounceOk)
      invariant bounce != null ==> fresh(bounce) && bounce.Length == SECTOR_SIZE && bounceOk
      invariant forall j :: offset <= j < ofs && bytesRead > 0 ==> buffer[j - offset] == c[j]
      invariant forall i :: bytesRead <= i < buffer.Length ==> buffer[i] == old(buffer[i])
      decreases left
    {
      var chunk := Chunk(length, left, ofs);
      if chunk <= 0 {
        TransferEnd(length, left, ofs, bounceOk);
        break;
      }
      TransferStep(length, left, ofs, bounceOk);
      var ok;
      ok, bounce := ReadChunk(disk, inode, buffer, bytesRead, left, ofs, bounce, bounceOk);
      if !ok {
        break;
      }
      left := left - chunk;
      ofs := ofs + chunk;
      bytesRead := bytesRead + chunk;
    }
    if left <= 0 {
      TransferEnd(length, left, ofs, bounceOk);
    }
    if bytesRead > 0 {
      forall i | 0 <= i < bytesRead ensures buffer[..bytesRead][i] == c[offset..ofs][i] {
        assert buffer[i] == c[offset + i];
      }
      assert buffer[..bytesRead] == c[offset..ofs];
    }
  }

  /** `stored` is `was` with `chunk` copied in at `at`. */
  ghost predicate StoredIn(was: seq<byte>, at: nat, chunk: seq<byte>, stored: seq<byte>) {
    && |stored| == |was|
    && forall i :: 0 <= i < |was| ==> stored[i] == if at <= i < at + |chunk| then chunk[i - at] else was[i]
  }

  /** The device after one chunk has been stored in its sector. */
  lemma PatchChunk(disk: seq<Sector>, d: DiskInode, size: int, offset: nat, chunk: seq<byte>, stored: seq<byte>)
    requires Readable(disk, d) && size > 0 && offset < d.length && |chunk| == Chunk(d.length, size, offset)
    requires |stored| == SECTOR_SIZE
    requires var s := d.start + offset / SECTOR_SIZE;
             && s < |disk| && IsData(disk[s])
             && StoredIn(disk[s].bytes, offset % SECTOR_SIZE, chunk, stored)
    requires forall s :: 0 <= s < |disk| && disk[s].Data? ==> |disk[s].bytes| == SECTOR_SIZE
    ensures disk[d.start + offset / SECTOR_SIZE := Data(stored)] == Patch(disk, d.start * SECTOR_SIZE + offset, chunk)
  {
    var s := d.start + offset / SECTOR_SIZE;
    var base := d.start * SECTOR_SIZE + offset;
    ByteOf(d, offset);
    forall t | 0 <= t < |disk| ensures disk[s := Data(stored)][t] == Patch(disk, base, chunk)[t] {
      if t != s {
        PatchKeepsSector(disk, base, chunk, t);
      } else {
        assert Patch(disk, base, chunk)[s].bytes == stored;
      }
    }
  }

  /** Two stores side by side are one store of both pieces. */
  lemma PatchJoin(disk: seq<Sector>, base: int, a: seq<byte>, b: seq<byte>)
    ensures Patch(Patch(disk, base, a), base + |a|, b) == Patch(disk, base, a + b)
  {
    var l, r := Patch(Patch(disk, base, a), base + |a|, b), Patch(disk, base, a + b);
    forall s | 0 <= s < |disk| ensures l[s] == r[s] {
      if disk[s].Data? {
        assert l[s].bytes == r[s].bytes;
      }
    }
  }

  lemma PatchNothing(disk: seq<Sector>, base: int)
    ensures Patch(disk, base, []) == disk
  {
    forall s | 0 <= s < |disk| ensures Patch(disk, base, [])[s] == disk[s] {
      if disk[s].Data? {
        assert Patch(disk, base, [])[s].bytes == disk[s].bytes;
      }
    }
  }

  ghost predicate Formatted(disk: seq<Sector>) {
    forall s :: 0 <= s < |disk| && disk[s].Data? ==> |disk[s].bytes| == SECTOR_SIZE
  }

  /** The bounce buffer with the chunk copied over the sector's old bytes. */
  method FillBounce(disk: Disk, sectorIdx: nat, bounce: array<byte>, sectorOfs: nat, buffer: seq<byte>, at: nat, chunk: nat)
    requires sectorIdx < |disk.sectors| && IsData(disk.sectors[sectorIdx]) && bounce.Length == SECTOR_SIZE
    requires sectorOfs + chunk <= SECTOR_SIZE && at + chunk <= |buffer| && !(sectorOfs == 0 && chunk == SECTOR_SIZE)
    modifies bounce
    ensures StoredIn(disk.sectors[sectorIdx].bytes, sectorOfs, buffer[at..at + chunk], bounce[..])
  {
    if sectorOfs > 0 || chunk < SECTOR_SIZE - sectorOfs {
      disk.BlockRead(sectorIdx, bounce, 0);
    } else {
      // inode_write_at clears the bounce buffer here, but a chunk that fills the
      // sector has already been written directly
      assert false;
    }
    forall i | 0 <= i < chunk {
      bounce[sectorOfs + i] := buffer[at + i];
    }
  }

  /** The body of the write loop: one chunk, directly or through the bounce buffer. */
  method WriteChunk(disk: Disk, inode: Inode, buffer: seq<byte>, at: nat, left: int, ofs: nat,
                    bounce0: array?<byte>, bounceOk: bool)
    returns (ok: bool, bounce: array?<byte>)
    requires Readable(disk.sectors, inode.data) && Formatted(disk.sectors)
    requires ofs < inode.data.length && left > 0 && at + left <= |buffer|
    requires bounce0 != null ==> bounce0.Length == SECTOR_SIZE && bounceOk
    modifies disk, bounce0
    ensures bounce != bounce0 ==> fresh(bounce)
    ensures bounce != null ==> bounce.Length == SECTOR_SIZE && bounceOk
    ensures var chunk := Chunk(inode.data.length, left, ofs);
            && ok == (bounceOk || (ofs % SECTOR_SIZE == 0 && chunk == SECTOR_SIZE))
            && disk.sectors == if ok then Patch(old(disk.sectors), inode.data.start * SECTOR_SIZE + ofs, buffer[at..at + chunk])
                               else old(disk.sectors)
  {
    hide Patch, Contents;
    ok, bounce := true, bounce0;
    var sectorIdx := inode.data.start + ofs / SECTOR_SIZE;
    var sectorOfs := ofs % SECTOR_SIZE;
    var chunk := Chunk(inode.data.length, left, ofs);
    ChunkSector(disk.sectors, inode.data, left, ofs);
    ghost var piece := buffer[at..at + chunk];
    if sectorOfs == 0 && chunk == SECTOR_SIZE {
      PatchChunk(disk.sectors, inode.data, left, ofs, piece, piece);
      disk.BlockWrite(sectorIdx, Data(buffer[at..at + SECTOR_SIZE]));
    } else {
      if bounce == null {
        if !bounceOk {
          return false, null;
        }
        bounce := new byte[SECTOR_SIZE];
      }
      FillBounce(disk, sectorIdx, bounce, sectorOfs, buffer, at, chunk);
      PatchChunk(disk.sectors, inode.data, left, ofs, piece, bounce[..]);
      disk.BlockWrite(sectorIdx, Data(bounce[..]));
    }
  }

  lemma PatchFormatted(disk: seq<Sector>, base: int, data: seq<byte>)
    requires Formatted(disk)
    ensures Formatted(Patch(disk, base, data))
  {
  }

  lemma PatchMore(disk: seq<Sector>, base: int, d: DiskInode, buffer: seq<byte>, m: nat, n: nat)
    requires m <= n <= |buffer| && Readable(disk, d) && Formatted(disk)
    ensures Patch(Patch(disk, base, buffer[..m]), base + m, buffer[m..n]) == Patch(disk, base, buffer[..n])
    ensures Readable(Patch(disk, base, buffer[..m]), d) && Formatted(Patch(disk, base, buffer[..m]))
  {
    PatchJoin(disk, base, buffer[..m], buffer[m..n]);
    assert buffer[..m] + buffer[m..n] == buffer[..n];
  }

  /** Stores exactly the transferred part of `buffer` in the file's range of the device
      and leaves every other byte of the device as it was. */
  method WriteAt(disk: Disk, inode: Inode, buffer: seq<byte>, size: int, offset: nat, bounceOk: bool)
    returns (bytesWritten: nat)
    requires Readable(disk.sectors, inode.data) && Formatted(disk.sectors) && size <= |buffer|
    modifies disk
    ensures bytesWritten ==
      if inode.denyWriteCnt != 0 then 0 else Transferred(inode.data.length, size, offset, bounceOk)
    ensures bytesWritten <= |buffer|
    ensures disk.sectors == Patch(old(disk.sectors), inode.data.start * SECTOR_SIZE + offset, buffer[..bytesWritten])
    ensures Formatted(disk.sectors)
  {
    hide Transferred, Patch, Readable, Formatted;
    bytesWritten := 0;
    ghost var was := disk.sectors;
    ghost var d := inode.data;
    ghost var base := d.start * SECTOR_SIZE + offset;
    PatchNothing(was, base);
    if inode.denyWriteCnt != 0 {
      return;
    }
    var length := inode.data.length;
    var left, ofs := size, offset;
    var bounce: array?<byte> := null;
    while left > 0
      invariant ofs == offset + bytesWritten && left == size - bytesWritten && bytesWritten <= |buffer|
      invariant Transferred(length, size, offset, bounceOk) == bytesWritten + Transferred(length, left, ofs, bounceOk)
      invariant bounce != null ==> fresh(bounce) && bounce.Length == SECTOR_SIZE && bounceOk
      invariant disk.sectors == Patch(was, base, buffer[..bytesWritten])
      decreases left
    {
      var chunk := Chunk(length, left, ofs);
      if chunk <= 0 {
        TransferEnd(length, left, ofs, bounceOk);
        break;
      }
      TransferStep(length, left, ofs, bounceOk);
      PatchMore(was, base, d, buffer, bytesWritten, bytesWritten + chunk);
      assert base + bytesWritten == d.start * SECTOR_SIZE + ofs;
      var ok;
      ok, bounce := WriteChunk(disk, inode, buffer, bytesWritten, left, ofs, bounce, bounceOk);
      if !ok {
        break;
      }
      left := left - chunk;
      ofs := ofs + chunk;
      bytesWritten := bytesWritten + chunk;
    }
    if left <= 0 {
      TransferEnd(length, left, ofs, bounceOk);
    }
    PatchFormatted(was, base, buffer[..bytesWritten]);
  }

  /** With the bounce buffer available, a write is exactly `Apply` on the file's contents ... */
  lemma WriteIsApply(disk: seq<Sector>, d: DiskInode, buffer: seq<byte>, offset: nat)
    requires Readable(disk, d)
    ensures var n := Transferred(d.length, |buffer|, offset, true);
            var after := Patch(disk, d.start * SECTOR_SIZE + offset, buffer[..n]);
            Readable(after, d) && Contents(after, d) == Apply(Contents(disk, d), Write(offset, buffer))
  {
    var n := Transferred(d.length, |buffer|, offset, true);
    var w := Write(offset, buffer);
    assert buffer[..n] == Clip(d.length, w);
    if offset < d.length {
      PatchOwn(disk, d, offset, buffer[..n]);
    } else {
      PatchNothing(disk, d.start * SECTOR_SIZE + offset);
      assert buffer[..n] == [];
    }
  }

  /** ... and, with or without it, leaves the contents of every other file alone. */
  lemma WriteLeavesOthers(disk: seq<Sector>, d: DiskInode, e: DiskInode, buffer: seq<byte>, size: int, offset: nat, bounceOk: bool)
    requires Readable(disk, d) && Readable(disk, e) && Apart(d, e) && size <= |buffer|
    ensures var n := Transferred(d.length, size, offset, bounceOk);
            var after := Patch(disk, d.start * SECTOR_SIZE + offset, buffer[..n]);
            Readable(after, e) && Contents(after, e) == Contents(disk, e)
  {
    var n := Transferred(d.length, size, offset, bounceOk);
    if n > 0 {
      PatchOther(disk, d, offset, buffer[..n], e);
    } else {
      PatchNothing(disk, d.start * SECTOR_SIZE + offset);
      assert buffer[..n] == [];
    }
  }
}
