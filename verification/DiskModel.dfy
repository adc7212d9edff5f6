/** Sectors, inodes as they lie on disk, and a file's bytes as a flat sequence. */
module DiskModel {

  const SECTOR_SIZE := 512

  type byte = b: int | 0 <= b < 256

  datatype DiskInode = DiskInode(start: nat, length: nat)

  /** A sector holds an inode written by inode_create or 512 bytes of data. */
  datatype Sector = Header(inode: DiskInode) | Data(bytes: seq<byte>)

  /** bytes_to_sectors */
  function Sectors(length: nat): nat {
    (length + SECTOR_SIZE - 1) / SECTOR_SIZE
  }

  /** The least number of sectors that hold so many bytes. */
  lemma SectorsLeast(length: nat, n: nat)
    ensures length <= n * SECTOR_SIZE <==> Sectors(length) <= n
    ensures Sectors(0) == 0
    ensures length > 0 ==> (Sectors(length) - 1) * SECTOR_SIZE < length <= Sectors(length) * SECTOR_SIZE
  {
    assert length + SECTOR_SIZE - 1 == SECTOR_SIZE * Sectors(length) + (length + SECTOR_SIZE - 1) % SECTOR_SIZE;
  }

  function Zeros(): (z: seq<byte>)
    ensures |z| == SECTOR_SIZE
    ensures forall i :: 0 <= i < |z| ==> z[i] == 0
  {
    seq(SECTOR_SIZE, i => 0)
  }

  predicate IsData(s: Sector) {
    s.Data? && |s.bytes| == SECTOR_SIZE
  }

  /** The extent of an inode lies inside the device and holds data sectors only. */
  predicate Readable(disk: seq<Sector>, d: DiskInode) {
    && d.start + Sectors(d.length) <= |disk|
    && forall s :: d.start <= s < d.start + Sectors(d.length) ==> IsData(disk[s])
  }

  /** Byte `p` of the device, counted from its beginning. */
  function At(disk: seq<Sector>, p: nat): byte
    requires p / SECTOR_SIZE < |disk| && IsData(disk[p / SECTOR_SIZE])
  {
    disk[p / SECTOR_SIZE].bytes[p % SECTOR_SIZE]
  }

  /** The contents of a file: a flat byte array of the inode's length. */
  function Contents(disk: seq<Sector>, d: DiskInode): (c: seq<byte>)
    requires Readable(disk, d)
    ensures |c| == d.length
  {
    seq<byte>(d.length, i requires 0 <= i < d.length => At(disk, d.start * SECTOR_SIZE + i))
  }

  /** The device with `data` stored from byte `base` on. */
  function PatchSector(s: Sector, first: int, base: int, data: seq<byte>): Sector {
    match s
    case Header(_) => s
    case Data(b) =>
      Data(seq(|b|, i requires 0 <= i < |b| =>
        if base <= first + i < base + |data| then data[first + i - base] else b[i]))
  }

  function Patch(disk: seq<Sector>, base: int, data: seq<byte>): (r: seq<Sector>)
    ensures |r| == |disk|
  {
    seq(|disk|, s requires 0 <= s < |disk| => PatchSector(disk[s], s * SECTOR_SIZE, base, data))
  }

  /** A byte sequence overwritten from `ofs` on. */
  function Overwrite(c: seq<byte>, ofs: nat, data: seq<byte>): (r: seq<byte>)
    requires ofs + |data| <= |c|
    ensures |r| == |c|
  {
    c[..ofs] + data + c[ofs + |data|..]
  }

  lemma PatchKeepsSector(disk: seq<Sector>, base: int, data: seq<byte>, s: nat)
    requires s < |disk|
    requires (s + 1) * SECTOR_SIZE <= base || base + |data| <= s * SECTOR_SIZE
    requires disk[s].Data? ==> |disk[s].bytes| == SECTOR_SIZE
    ensures Patch(disk, base, data)[s] == disk[s]
  {
    if disk[s].Data? {
      assert Patch(disk, base, data)[s].bytes == disk[s].bytes;
    }
  }

  lemma PatchReadable(disk: seq<Sector>, base: int, data: seq<byte>, d: DiskInode)
    requires Readable(disk, d)
    ensures Readable(Patch(disk, base, data), d)
  {
  }

  lemma AtPatch(disk: seq<Sector>, base: int, data: seq<byte>, p: nat)
    requires p / SECTOR_SIZE < |disk| && IsData(disk[p / SECTOR_SIZE])
    ensures At(Patch(disk, base, data), p) == if base <= p < base + |data| then data[p - base] else At(disk, p)
  {
    var s := p / SECTOR_SIZE;
    assert s * SECTOR_SIZE + p % SECTOR_SIZE == p;
  }

  lemma SectorsCover(length: nat, i: nat)
    requires i < length
    ensures i / SECTOR_SIZE < Sectors(length)
  {
  }

  lemma ByteOf(d: DiskInode, i: nat)
    ensures (d.start * SECTOR_SIZE + i) / SECTOR_SIZE == d.start + i / SECTOR_SIZE
    ensures (d.start * SECTOR_SIZE + i) % SECTOR_SIZE == i % SECTOR_SIZE
  {
  }

  /** Storing into a file's range overwrites exactly that range of its contents ... */
  lemma PatchOwn(disk: seq<Sector>, d: DiskInode, ofs: nat, data: seq<byte>)
    requires Readable(disk, d) && ofs + |data| <= d.length
    ensures Readable(Patch(disk, d.start * SECTOR_SIZE + ofs, data), d)
    ensures Contents(Patch(disk, d.start * SECTOR_SIZE + ofs, data), d) == Overwrite(Contents(disk, d), ofs, data)
  {
    var base := d.start * SECTOR_SIZE + ofs;
    PatchReadable(disk, base, data, d);
    var c, r := Contents(disk, d), Contents(Patch(disk, base, data), d);
    forall i | 0 <= i < d.length ensures r[i] == Overwrite(c, ofs, data)[i] {
      ByteOf(d, i);
      SectorsCover(d.length, i);
      AtPatch(disk, base, data, d.start * SECTOR_SIZE + i);
    }
  }

  predicate Apart(d: DiskInode, e: DiskInode) {
    d.start + Sectors(d.length) <= e.start || e.start + Sectors(e.length) <= d.start
  }

  /** ... and leaves the contents of a file with another extent alone. */
  lemma PatchOther(disk: seq<Sector>, d: DiskInode, ofs: nat, data: seq<byte>, e: DiskInode)
    requires Readable(disk, d) && ofs + |data| <= d.length
    requires Readable(disk, e) && Apart(d, e)
    ensures Readable(Patch(disk, d.start * SECTOR_SIZE + ofs, data), e)
    ensures Contents(Patch(disk, d.start * SECTOR_SIZE + ofs, data), e) == Contents(disk, e)
  {
    var base := d.start * SECTOR_SIZE + ofs;
    PatchReadable(disk, base, data, e);
    var c, r := Contents(disk, e), Contents(Patch(disk, base, data), e);
    forall i | 0 <= i < e.length ensures r[i] == c[i] {
      ByteOf(e, i);
      SectorsCover(e.length, i);
      AtPatch(disk, base, data, e.start * SECTOR_SIZE + i);
    }
  }

  // ---------------------------------------------------------------- histories of writes

  datatype Write = Write(offset: nat, data: seq<byte>)

  /** The part of a write that lies inside a file of `length` bytes. */
  function Clip(length: nat, w: Write): (data: seq<byte>)
    ensures |data| == if w.offset < length then (if |w.data| <= length - w.offset then |w.data| else length - w.offset) else 0
  {
    if w.offset >= length then []
    else if w.offset + |w.data| <= length then w.data
    else w.data[..length - w.offset]
  }

  function Apply(c: seq<byte>, w: Write): (r: seq<byte>)
    ensures |r| == |c|
  {
    if w.offset >= |c| then c else Overwrite(c, w.offset, Clip(|c|, w))
  }

  function ApplyAll(c: seq<byte>, ws: seq<Write>): (r: seq<byte>)
    ensures |r| == |c|
  {
    if ws == [] then c else Apply(ApplyAll(c, ws[..|ws| - 1]), ws[|ws| - 1])
  }

  predicate Covers(w: Write, k: nat) {
    w.offset <= k < w.offset + |w.data|
  }

  ghost predicate Untouched(ws: seq<Write>, from: nat, k: nat) {
    forall m :: from <= m < |ws| ==> !Covers(ws[m], k)
  }

  /** `b` is byte `k` as the last write that covers it stored it, or `was` if none does. */
  ghost predicate Latest(was: byte, ws: seq<Write>, k: nat, b: byte) {
    && (Untouched(ws, 0, k) ==> b == was)
    && (forall j :: 0 <= j < |ws| && Covers(ws[j], k) && Untouched(ws, j + 1, k) ==> b == ws[j].data[k - ws[j].offset])
  }

  /** A read returns the latest write, after any history of writes. */
  lemma {:induction false} LatestWrite(c: seq<byte>, ws: seq<Write>, k: nat)
    requires k < |c|
    ensures Latest(c[k], ws, k, ApplyAll(c, ws)[k])
  {
    if ws != [] {
      var p, w := ws[..|ws| - 1], ws[|ws| - 1];
      var b := ApplyAll(c, p);
      LatestWrite(c, p, k);
      if Covers(w, k) {
        assert Apply(b, w)[k] == w.data[k - w.offset];
        assert Covers(ws[|ws| - 1], k);
      } else {
        assert Apply(b, w)[k] == b[k];
        assert forall m :: 0 <= m < |p| ==> p[m] == ws[m];
        forall j | 0 <= j <= |p| && Untouched(ws, j, k) ensures Untouched(p, j, k) {
        }
      }
    }
  }
}
