/** The file system's calls carried out in place: the free map, the list of open inodes,
    the directory slots, the struct files and the disk are changed step by step, and every
    call is proved equal to the function of the same name in FsSpec. */
module FileSystem {
  import opened Bitmap
  import opened DiskModel
  import opened InodeIO
  import FsSpec
  import opened FsOwnership
  import opened FsCache
  import opened FsInvariant
  import opened FsRuns

  type Slot = FsSpec.Slot
  type Memory = FsSpec.Memory

  class StructFile {
    const inode: Inode
    var pos: nat
    var denyWrite: bool

    constructor (inode: Inode)
      ensures this.inode == inode && pos == 0 && !denyWrite
    {
      this.inode, pos, denyWrite := inode, 0, false;
    }
  }

  function InodeView(n: Inode): FsSpec.OpenInode
    reads n
  {
    FsSpec.OpenInode(n.sector, n.openCnt, n.removed, n.denyWriteCnt, n.data)
  }

  function OpenView(ns: seq<Inode>): seq<FsSpec.OpenInode>
    reads ns
  {
    seq(|ns|, i requires 0 <= i < |ns| reads ns => InodeView(ns[i]))
  }

  lemma OpenViewIs(ns: seq<Inode>)
    ensures |OpenView(ns)| == |ns| && forall i :: 0 <= i < |ns| ==> OpenView(ns)[i] == InodeView(ns[i])
  {
  }

  function FilesView(files: map<nat, StructFile>): map<nat, FsSpec.File>
    reads files.Values
  {
    map h | h in files :: FsSpec.File(files[h].inode.sector, files[h].pos, files[h].denyWrite)
  }

  /** Every struct file points into the list of open inodes, which has no inode twice. */
  ghost predicate Points(ns: seq<Inode>, files: map<nat, StructFile>) {
    && (forall i, j :: 0 <= i < j < |ns| ==> ns[i] != ns[j])
    && (forall h :: h in files ==> files[h].inode in ns)
    && (forall g, h :: g in files && h in files && g != h ==> files[g] != files[h])
  }

  lemma PointsMore(ns: seq<Inode>, files: map<nat, StructFile>, n: Inode)
    requires Points(ns, files) && n !in ns
    ensures Points([n] + ns, files)
  {
  }

  lemma ViewMore(ns: seq<Inode>, n: Inode)
    ensures OpenView([n] + ns) == [InodeView(n)] + OpenView(ns)
  {
  }

  lemma PointsAdded(ns: seq<Inode>, files: map<nat, StructFile>, h: nat, f: StructFile)
    requires Points(ns, files) && f.inode in ns && h !in files && forall g :: g in files ==> files[g] != f
    ensures Points(ns, files[h := f])
  {
  }

  lemma ViewAdded(files: map<nat, StructFile>, h: nat, f: StructFile)
    ensures FilesView(files[h := f]) == FilesView(files)[h := FsSpec.File(f.inode.sector, f.pos, f.denyWrite)]
  {
  }

  lemma PointsLess(ns: seq<Inode>, files: map<nat, StructFile>, i: nat)
    requires Points(ns, files) && i < |ns| && forall h :: h in files ==> files[h].inode != ns[i]
    ensures Points(ns[..i] + ns[i + 1..], files)
  {
    var r := ns[..i] + ns[i + 1..];
    forall h | h in files ensures files[h].inode in r {
      var k :| 0 <= k < |ns| && ns[k] == files[h].inode;
      assert r[if k < i then k else k - 1] == files[h].inode;
    }
  }

  lemma Alone(ns: seq<Inode>, files: map<nat, StructFile>, i: nat)
    requires Points(ns, files) && i < |ns|
    ensures forall j :: 0 <= j < |ns| && j != i ==> ns[j] != ns[i]
  {
  }

  lemma OneChanged(v: seq<FsSpec.OpenInode>, v': seq<FsSpec.OpenInode>, i: nat)
    requires |v'| == |v| && i < |v| && forall j :: 0 <= j < |v| && j != i ==> v'[j] == v[j]
    ensures v' == v[i := v'[i]]
  {
  }

  lemma SpliceAt<T>(s: seq<T>, i: nat, k: nat)
    requires i < |s| && k < |s| - 1
    ensures (s[..i] + s[i + 1..])[k] == s[if k < i then k else k + 1]
  {
  }

  lemma Spliced<T>(r: seq<T>, v: seq<T>, i: nat)
    requires i < |v| && |r| == |v| - 1 && forall k :: 0 <= k < |r| ==> r[k] == v[if k < i then k else k + 1]
    ensures r == v[..i] + v[i + 1..]
  {
  }

  lemma ViewLess(ns: seq<Inode>, i: nat)
    requires i < |ns|
    ensures OpenView(ns[..i] + ns[i + 1..]) == OpenView(ns)[..i] + OpenView(ns)[i + 1..]
  {
    var r, v := OpenView(ns[..i] + ns[i + 1..]), OpenView(ns);
    OpenViewIs(ns);
    OpenViewIs(ns[..i] + ns[i + 1..]);
    hide *;
    forall k | 0 <= k < |r| ensures r[k] == v[if k < i then k else k + 1] {
      SpliceAt(ns, i, k);
    }
    Spliced(r, v, i);
  }

  function BlankSlots(): seq<Slot> {
    seq(FsSpec.ROOT_ENTRIES, i => FsSpec.Slot(0, "", false))
  }

  /** The state before formatting, with the two system sectors marked. */
  function Blank(size: nat): FsSpec.State {
    FsSpec.State(seq(size, i => i < 2), seq(size, i => Data(Zeros())), BlankSlots(), [], map[], {})
  }

  /** The parts of a formatted state. */
  lemma FormatParts(size: nat)
    requires FsSpec.Format(size).Done?
    ensures var st := Blank(size);
            var d := DiskInode(Fit(st.used, Sectors(FsSpec.MapBytes(size)), 0).value, FsSpec.MapBytes(size));
            var used1 := Mark(st.used, d.start, Sectors(d.length), true);
            var fit := Fit(used1, Sectors(FsSpec.ROOT_ENTRIES * FsSpec.ENTRY_SIZE), 0);
            && size >= 2
            && FsSpec.Allocate(st.used, Sectors(d.length), true) == Some(d.start)
            && fit.Some? && FsSpec.Allocate(used1, Sectors(FsSpec.ROOT_ENTRIES * FsSpec.ENTRY_SIZE), true) == fit
            && var e := DiskInode(fit.value, FsSpec.ROOT_ENTRIES * FsSpec.ENTRY_SIZE);
            FsSpec.Format(size).st
              == st.(used := Mark(used1, e.start, Sectors(e.length), true),
                     disk := Stored(Stored(st.disk, FsSpec.FREE_MAP_SECTOR, d), FsSpec.ROOT_DIR_SECTOR, e),
                     open := [FsSpec.OpenInode(FsSpec.FREE_MAP_SECTOR, 1, false, 0, d)],
                     files := map[0 := FsSpec.File(FsSpec.FREE_MAP_SECTOR, 0, false)])
  {
  }

  class FileSystem {
    const disk: Disk
    const freeMap: array<bool>
    const slots: array<Slot>
    var openInodes: seq<Inode>
    var files: map<nat, StructFile>
    ghost var leaked: set<nat>

    ghost predicate Linked()
      reads this, disk
    {
      Points(openInodes, files) && Formatted(disk.sectors)
    }

    ghost function Opened(): set<Inode>
      reads this
    {
      set n | n in openInodes
    }

    ghost function View(): FsSpec.State
      reads this, disk, freeMap, slots, openInodes, files.Values
    {
      FsSpec.State(freeMap[..], disk.sectors, slots[..], OpenView(openInodes), FilesView(files), leaked)
    }

    ghost predicate Valid()
      reads this, disk, freeMap, slots, openInodes, files.Values
    {
      Linked() && Inv(View())
    }

    /** do_format on a device of `size` blank sectors, and the mount that follows it. */
    constructor (size: nat)
      requires FsSpec.Format(size).Done?
      ensures Valid() && View() == FsSpec.Format(size).st
      ensures fresh(disk) && fresh(freeMap) && fresh(slots) && fresh(openInodes) && fresh(files.Values)
    {
      disk := new Disk(size);
      freeMap := new bool[size](i => i < 2);
      slots := new Slot[FsSpec.ROOT_ENTRIES](_ => FsSpec.Slot(0, "", false));
      openInodes, files, leaked := [], map[], {};
      new;
      assert freeMap[..] == seq(size, i => i < 2);
      assert slots[..] == BlankSlots();
      hide Valid, View, FsSpec.Format;
      MakeSystemFiles(size);
    }

    /** The free map's inode and the root directory's, and the free map opened as a file. */
    method MakeSystemFiles(size: nat)
      requires |disk.sectors| == freeMap.Length == size && freeMap[..] == seq(size, i => i < 2)
      requires forall s :: 0 <= s < |disk.sectors| ==> disk.sectors[s] == Data(Zeros())
      requires slots[..] == BlankSlots() && openInodes == [] && files == map[] && leaked == {}
      requires FsSpec.Format(size).Done?
      modifies freeMap, disk, this`openInodes, this`files
      ensures fresh(openInodes) && fresh(files.Values)
      ensures Valid() && View() == FsSpec.Format(size).st
    {
      BlankView(size);
      FormatParts(size);
      FormatGood(size);
      hide *;
      var m := InodeCreate(FsSpec.FREE_MAP_SECTOR, FsSpec.MapBytes(freeMap.Length), true, true);
      OpenFreeMap(DiskInode(m.value, FsSpec.MapBytes(freeMap.Length)));
      var r := InodeCreate(FsSpec.ROOT_DIR_SECTOR, FsSpec.ROOT_ENTRIES * FsSpec.ENTRY_SIZE, true, true);
      IsValid();
    }

    lemma IsValid()
      requires Linked() && Inv(View())
      ensures Valid()
    {
    }

    lemma BlankView(size: nat)
      requires |disk.sectors| == freeMap.Length == size && freeMap[..] == seq(size, i => i < 2)
      requires forall s :: 0 <= s < |disk.sectors| ==> disk.sectors[s] == Data(Zeros())
      requires slots[..] == BlankSlots() && openInodes == [] && files == map[] && leaked == {}
      ensures Linked() && View() == Blank(size)
    {
      assert disk.sectors == seq(size, i => Data(Zeros()));
    }

    method OpenFreeMap(data: DiskInode)
      requires Linked() && openInodes == [] && files == map[]
      modifies this`openInodes, this`files
      ensures fresh(openInodes) && fresh(files.Values) && Linked()
      ensures View() == old(View()).(open := [FsSpec.OpenInode(FsSpec.FREE_MAP_SECTOR, 1, false, 0, data)],
                                     files := map[0 := FsSpec.File(FsSpec.FREE_MAP_SECTOR, 0, false)])
    {
      var n := new Inode(FsSpec.FREE_MAP_SECTOR, data);
      var f := new StructFile(n);
      openInodes := [n];
      files := map[0 := f];
      assert FilesView(files) == map[0 := FsSpec.File(FsSpec.FREE_MAP_SECTOR, 0, false)];
    }

    // -------------------------------------------------------------- free map

    /** bitmap_set_multiple */
    method SetMultiple(from: nat, cnt: nat, v: bool)
      requires from + cnt <= freeMap.Length
      modifies freeMap
      ensures from + cnt <= |old(View()).used|
      ensures View() == old(View()).(used := Mark(old(View()).used, from, cnt, v))
    {
      var i := 0;
      while i < cnt
        invariant i <= cnt
        invariant forall k :: 0 <= k < freeMap.Length ==> freeMap[k] == if from <= k < from + i then v else old(freeMap[k])
      {
        freeMap[from + i] := v;
        i := i + 1;
      }
      assert freeMap[..] == Mark(old(freeMap[..]), from, cnt, v);
    }

    /** bitmap_contains, negated: all `cnt` bits from `from` on have value `v`. */
    method AllBits(from: nat, cnt: nat, v: bool) returns (all: bool)
      requires from + cnt <= freeMap.Length
      ensures all == AllAre(freeMap[..], from, cnt, v)
    {
      var i := 0;
      while i < cnt
        invariant i <= cnt
        invariant forall k :: from <= k < from + i ==> freeMap[k] == v
      {
        if freeMap[from + i] != v {
          assert freeMap[..][from + i] != v;
          return false;
        }
        i := i + 1;
      }
      return true;
    }

    /** bitmap_scan for free sectors */
    method Scan(cnt: nat) returns (r: Option<nat>)
      ensures r == Fit(freeMap[..], cnt, 0)
    {
      if cnt > freeMap.Length {
        return None;
      }
      var i := 0;
      while i <= freeMap.Length - cnt
        invariant i <= freeMap.Length - cnt + 1
        invariant Fit(freeMap[..], cnt, 0) == Fit(freeMap[..], cnt, i)
      {
        var free := AllBits(i, cnt, false);
        if free {
          return Some(i);
        }
        i := i + 1;
      }
      return None;
    }

    /** `writable` says whether the map can be written back to its file. */
    method FreeMapAllocate(cnt: nat, writable: bool) returns (r: Option<nat>)
      modifies freeMap
      ensures r == FsSpec.Allocate(old(View()).used, cnt, writable)
      ensures r.None? ==> View() == old(View())
      ensures r.Some? ==> AllAre(old(View()).used, r.value, cnt, false)
                          && View() == old(View()).(used := Mark(old(View()).used, r.value, cnt, true))
    {
      r := Scan(cnt);
      ViewIs();
      if r.Some? {
        MarkBack(View().used, r.value, cnt);
        hide View, Mark;
        SetMultiple(r.value, cnt, true);
        if !writable {
          SetMultiple(r.value, cnt, false);
          r := None;
        }
      }
    }

    lemma ViewIs()
      ensures View() == FsSpec.State(freeMap[..], disk.sectors, slots[..], OpenView(openInodes), FilesView(files), leaked)
      ensures |View().used| == freeMap.Length
    {
    }

    /** free_map_release; the precondition is its assertion. */
    method FreeMapRelease(from: nat, cnt: nat)
      requires AllAre(View().used, from, cnt, true)
      modifies freeMap
      ensures from + cnt <= |old(View()).used|
      ensures View() == old(View()).(used := Mark(old(View()).used, from, cnt, false))
    {
      ViewIs();
      hide View;
      SetMultiple(from, cnt, false);
    }

    // -------------------------------------------------------------- inodes

    /** block_write of a sector */
    method WriteSector(sector: nat, data: Sector)
      requires sector < |disk.sectors| && Linked() && (data.Data? ==> |data.bytes| == SECTOR_SIZE)
      modifies disk
      ensures Linked() && |disk.sectors| == |old(disk.sectors)| && sector < |old(View()).disk|
      ensures View() == old(View()).(disk := old(View()).disk[sector := data])
    {
      disk.BlockWrite(sector, data);
    }

    method ZeroSectors(from: nat, cnt: nat)
      requires from + cnt <= |disk.sectors| && Linked()
      modifies disk
      ensures Linked() && |disk.sectors| == |old(disk.sectors)| && from + cnt <= |old(View()).disk|
      ensures View() == old(View()).(disk := FsSpec.FillZero(old(View()).disk, from, cnt))
    {
      var i := 0;
      while i < cnt
        invariant i <= cnt && |disk.sectors| == |old(disk.sectors)| && Formatted(disk.sectors)
        invariant forall k :: 0 <= k < |disk.sectors| ==>
          disk.sectors[k] == if from <= k < from + i then Data(Zeros()) else old(disk.sectors)[k]
      {
        disk.BlockWrite(from + i, Data(Zeros()));
        i := i + 1;
      }
      assert disk.sectors == FsSpec.FillZero(old(disk.sectors), from, cnt);
    }

    /** inode_create: the inode and its zeroed extent are written to the disk.  `inodeMem`
        and `writable` say whether memory and the free map's file can be had. */
    method InodeCreate(sector: nat, length: nat, inodeMem: bool, writable: bool) returns (start: Option<nat>)
      requires sector < |disk.sectors| == freeMap.Length && Linked()
      modifies freeMap, disk
      ensures Linked() && |disk.sectors| == |old(disk.sectors)|
      ensures sector < |old(View()).disk| == |old(View()).used|
      ensures start == if inodeMem then FsSpec.Allocate(old(View()).used, Sectors(length), writable) else None
      ensures start.None? ==> View() == old(View())
      ensures start.Some? ==>
        && AllAre(old(View()).used, start.value, Sectors(length), false)
        && View() == old(View()).(used := Mark(old(View()).used, start.value, Sectors(length), true),
                                  disk := Stored(old(View()).disk, sector, DiskInode(start.value, length)))
    {
      start := None;
      ViewIs();
      hide View, Linked, Mark, Sectors, FsSpec.Allocate;
      if inodeMem {
        var sectors := Sectors(length);
        start := FreeMapAllocate(sectors, writable);
        if start.Some? {
          WriteSector(sector, Header(DiskInode(start.value, length)));
          ZeroSectors(start.value, sectors);
        }
      }
    }

    /** The place of a sector's inode in the list of open inodes. */
    method FindInode(sector: nat) returns (r: Option<nat>)
      ensures r == FsSpec.FindOpen(View().open, sector, 0)
      ensures r.Some? ==> r.value < |openInodes| && openInodes[r.value].sector == sector
      ensures r.Some? ==> openInodes[r.value] in Opened()
    {
      var i := 0;
      ghost var open := OpenView(openInodes);
      ViewIs();
      OpenViewIs(openInodes);
      hide View, OpenView;
      while i < |openInodes|
        invariant i <= |openInodes|
        invariant FsSpec.FindOpen(open, sector, 0) == FsSpec.FindOpen(open, sector, i)
        invariant forall k :: 0 <= k < i ==> openInodes[k].sector != sector
      {
        if openInodes[i].sector == sector {
          return Some(i);
        }
        i := i + 1;
      }
      return None;
    }

    method ChangeCount(i: nat, n: Inode, delta: int)
      requires i < |openInodes| && openInodes[i] == n && Linked()
      modifies n`openCnt
      ensures i < |old(View()).open| && n.openCnt == old(n.openCnt) + delta == old(View()).open[i].openCnt + delta
      ensures View() == old(View()).(open :=
        old(View()).open[i := old(View()).open[i].(openCnt := old(View()).open[i].openCnt + delta)])
    {
      ghost var was := OpenView(openInodes);
      hide Points, OpenView, FilesView, Formatted;
      Alone(openInodes, files, i);
      OpenViewIs(openInodes);
      n.openCnt := n.openCnt + delta;
      OpenViewIs(openInodes);
      OneChanged(was, OpenView(openInodes), i);
    }

    /** A new inode at the front of the list. */
    method PushInode(sector: nat, data: DiskInode) returns (n: Inode)
      requires Linked()
      modifies this`openInodes
      ensures Linked() && fresh(n) && Opened() == old(Opened()) + {n} && n.sector == sector
      ensures View() == old(View()).(open := [FsSpec.OpenInode(sector, 1, false, 0, data)] + old(View()).open)
    {
      n := new Inode(sector, data);
      PointsMore(openInodes, files, n);
      ViewMore(openInodes, n);
      hide Points, FilesView, OpenView, Formatted;
      openInodes := [n] + openInodes;
    }

    /** list_remove */
    method DropInode(i: nat)
      requires i < |openInodes| && Linked() && forall h :: h in files ==> files[h].inode != openInodes[i]
      modifies this`openInodes
      ensures Linked() && Opened() <= old(Opened())
      ensures i < |old(View()).open| && View() == old(View()).(open := old(View()).open[..i] + old(View()).open[i + 1..])
    {
      PointsLess(openInodes, files, i);
      ViewLess(openInodes, i);
      hide Points, FilesView, OpenView;
      openInodes := openInodes[..i] + openInodes[i + 1..];
    }

    /** inode_open and inode_reopen: one more reference to the inode in `sector`. */
    method InodeOpen(sector: nat, inodeMem: bool) returns (n: Inode?)
      requires Linked()
      modifies this`openInodes, Opened()`openCnt
      ensures Linked()
      ensures n == null <==> FsSpec.FindOpen(old(View()).open, sector, 0).None? && !inodeMem
      ensures n == null ==> View() == old(View()) && Opened() == old(Opened())
      ensures n != null ==>
        && n in Opened() && n.sector == sector
        && View() == old(View()).(open := FsSpec.OpenSector(old(View()).open, old(View()).disk, sector))
      ensures forall m :: m in Opened() ==> m in old(Opened()) || fresh(m)
    {
      var i := FindInode(sector);
      ViewIs();
      OpenSectorIs(View().open, View().disk, sector);
      hide *;
      if i.Some? {
        n := openInodes[i.value];
        ChangeCount(i.value, n, 1);
      } else if inodeMem {
        n := PushInode(sector, FsSpec.InodeAt(disk.sectors, sector));
      } else {
        n := null;
      }
    }

    method IndexOf(n: Inode) returns (i: nat)
      requires n in Opened()
      ensures i < |openInodes| && openInodes[i] == n
    {
      assert n in openInodes;
      i := 0;
      while openInodes[i] != n
        invariant i < |openInodes| && n in openInodes[i..]
        decreases |openInodes| - i
      {
        assert openInodes[i..] == [openInodes[i]] + openInodes[i + 1..];
        i := i + 1;
      }
    }

    /** inode_close */
    method InodeClose(n: Inode)
      requires Linked() && n in Opened() && InvWith(View(), Some(n.sector))
      modifies this`openInodes, this`leaked, Opened()`openCnt, freeMap
      ensures Linked() && Inv(View())
      ensures FsSpec.FindOpen(old(View()).open, n.sector, 0).Some?
      ensures FsSpec.CloseInode(old(View()), n.sector) == FsSpec.Done(View(), true)
      ensures Opened() <= old(Opened())
    {
      hide *;
      var i := IndexOf(n);
      ghost var st := View();
      BeforeClose(i);
      ChangeCount(i, n, -1);
      if n.openCnt == 0 {
        DropInode(i);
        WithoutChanged(st.open, i, st.open[i].(openCnt := 0));
        if n.removed {
          FreeMapRelease(n.sector, 1);
          FreeMapRelease(n.data.start, Sectors(n.data.length));
        } else {
          Leak(FsSpec.Unnamed(st, n.sector));
        }
      }
      GoodIsInv(FsSpec.CloseInode(st, n.sector));
    }

    // -------------------------------------------------------------- directory

    /** lookup; the read of an entry comes back short once `look` entries have been read. */
    method Lookup(name: string, look: nat) returns (r: Option<nat>)
      ensures r == FsSpec.Lookup(View().slots, name, look)
      ensures r.Some? ==> r.value < slots.Length && View().slots[r.value] == slots[r.value] && slots[r.value].inUse
    {
      var k := 0;
      while k < slots.Length && k < look
        invariant k <= slots.Length && k <= look
        invariant FsSpec.FindSlot(slots[..], name, 0) == FsSpec.FindSlot(slots[..], name, k)
      {
        if slots[k].inUse && slots[k].name == name {
          return Some(k);
        }
        k := k + 1;
      }
      return None;
    }

    /** The place at which the loop of dir_add stops: a free entry, a short read, or None at
        the end of the directory. */
    method EmptySlot(scan: nat) returns (r: Option<nat>)
      ensures r == FsSpec.Target(View().slots, scan)
      ensures r.Some? ==> r.value < slots.Length
    {
      var k := 0;
      while k < slots.Length && k < scan
        invariant k <= slots.Length && k <= scan
        invariant FsSpec.FreeSlot(slots[..], 0) == FsSpec.FreeSlot(slots[..], k)
      {
        if !slots[k].inUse {
          return Some(k);
        }
        k := k + 1;
      }
      r := if k < slots.Length then Some(k) else None;
    }

    method WriteSlot(k: nat, e: Slot)
      requires k < slots.Length
      modifies slots
      ensures k < |old(View()).slots| && View() == old(View()).(slots := old(View()).slots[k := e])
    {
      slots[k] := e;
    }

    /** dir_add: a directory does not grow, so writing behind its end fails. */
    method DirAdd(name: string, sector: nat, mem: Memory) returns (ok: bool)
      modifies slots
      ensures ok == FsSpec.CanAdd(old(View()).slots, name, mem)
      ensures ok ==> FsSpec.Target(old(View()).slots, mem.scan).Some?
      ensures View() == if ok
        then old(View()).(slots := old(View()).slots[FsSpec.Target(old(View()).slots, mem.scan).value := FsSpec.Slot(sector, name, true)])
        else old(View())
    {
      hide View, FsSpec.Lookup, FsSpec.Target;
      if |name| == 0 || |name| > FsSpec.NAME_MAX {
        return false;
      }
      var at := Lookup(name, mem.look);
      if at.Some? {
        return false;
      }
      var k := EmptySlot(mem.scan);
      if k.None? || !mem.entry {
        return false;
      }
      WriteSlot(k.value, FsSpec.Slot(sector, name, true));
      return true;
    }

    // -------------------------------------------------------------- struct files

    method AddFile(h: nat, n: Inode)
      requires Linked() && n in Opened() && h !in files
      modifies this`files
      ensures Linked() && (forall g :: g in files ==> (g in old(files) && files[g] == old(files)[g]) || fresh(files[g]))
      ensures View() == old(View()).(files := old(View()).files[h := FsSpec.File(n.sector, 0, false)])
    {
      var f := new StructFile(n);
      PointsAdded(openInodes, files, h, f);
      ViewAdded(files, h, f);
      hide Points, FilesView, OpenView, Formatted;
      files := files[h := f];
    }

    method DropFile(h: nat)
      requires Linked() && h in files
      modifies this`files
      ensures Linked() && files == old(files) - {h} && Opened() == old(Opened())
      ensures View() == old(View()).(files := old(View()).files - {h})
    {
      files := files - {h};
      assert FilesView(files) == old(FilesView(files)) - {h};
    }

    /** Sets a struct file's fields. */
    method SetFile(h: nat, f: StructFile, pos: nat, denyWrite: bool)
      requires Linked() && h in files && files[h] == f
      modifies f
      ensures Linked() && h in old(View()).files
      ensures View() == old(View()).(files := old(View()).files[h := FsSpec.File(f.inode.sector, pos, denyWrite)])
    {
      f.pos, f.denyWrite := pos, denyWrite;
      assert FilesView(files) == old(FilesView(files))[h := FsSpec.File(f.inode.sector, pos, denyWrite)];
    }

    lemma FileIs(h: nat)
      requires h in files
      ensures h in View().files && View().files[h] == FsSpec.File(files[h].inode.sector, files[h].pos, files[h].denyWrite)
    {
    }

    /** file_open: the reference to the inode becomes a struct file or is given back. */
    method FileOpen(n: Inode, h: nat, fileMem: bool) returns (ok: bool)
      requires Linked() && n in Opened() && InvWith(View(), Some(n.sector)) && h !in files
      modifies this`openInodes, this`files, this`leaked, Opened()`openCnt, freeMap
      ensures Valid() && FsSpec.FindOpen(old(View()).open, n.sector, 0).Some?
      ensures FsSpec.OpenFile(old(View()), n.sector, h, fileMem) == FsSpec.Done(View(), ok)
      ensures Opened() <= old(Opened())
      ensures forall g :: g in files ==> (g in old(files) && files[g] == old(files)[g]) || fresh(files[g])
    {
      OpenFileGood(View(), n.sector, h, fileMem) by { assert h !in View().files; }
      OpenFileIs(View(), n.sector, h, fileMem);
      hide *;
      if fileMem {
        AddFile(h, n);
        GoodIsInv(FsSpec.Done(View(), true));
        ok := true;
      } else {
        InodeClose(n);
        ok := false;
      }
      IsValid();
    }

    // -------------------------------------------------------------- calls

    lemma ValidFacts()
      requires Valid()
      ensures Linked() && Inv(View()) && |disk.sectors| == freeMap.Length
      ensures |View().used| == |View().disk| == freeMap.Length
    {
      InvSizes(View(), None);
    }

    /** filesys_create */
    method Create(name: string, size: nat, mem: Memory) returns (ok: bool)
      requires Valid()
      modifies freeMap, disk, slots, this`leaked
      ensures Valid() && |old(View()).used| == |old(View()).disk|
      ensures FsSpec.Create(old(View()), name, size, mem) == FsSpec.Done(View(), ok)
    {
      hide *;
      ValidFacts();
      CreateGood(View(), name, size, mem);
      CreateIs(View(), name, size, mem);
      ghost var st := View();
      ok := false;
      var inodeSector := 0;
      if mem.dir {
        var s := FreeMapAllocate(1, mem.map1);
        if s.Some? {
          inodeSector := s.value;
          TakenSector(st, inodeSector);
          var start := InodeCreate(inodeSector, size, mem.inode, mem.map2);
          if start.Some? {
            ok := DirAdd(name, inodeSector, mem);
            if ok {
              Leak(FsSpec.Overwritten(st, FsSpec.Target(st.slots, mem.scan).value));
            } else {
              Leak(FsSpec.Range(start.value, Sectors(size)));
            }
          }
        }
      }
      if !ok && inodeSector != 0 {
        FreeMapRelease(inodeSector, 1);
      }
      GoodIsInv(FsSpec.Create(st, name, size, mem));
      IsValid();
    }

    ghost method Leak(more: set<nat>)
      modifies this`leaked
      ensures View() == old(View()).(leaked := old(View()).leaked + more)
      ensures Linked() == old(Linked()) && Opened() == old(Opened())
    {
      leaked := leaked + more;
    }

    /** filesys_open; `h` is the handle the new struct file gets. */
    method Open(name: string, h: nat, mem: Memory) returns (ok: bool)
      requires Valid() && h !in files
      modifies this`openInodes, this`files, this`leaked, Opened()`openCnt, freeMap
      ensures Valid() && FsSpec.Open(old(View()), name, h, mem) == FsSpec.Done(View(), ok)
      ensures forall m :: m in Opened() ==> m in old(Opened()) || fresh(m)
      ensures forall g :: g in files ==> (g in old(files) && files[g] == old(files)[g]) || fresh(files[g])
    {
      hide *;
      ValidFacts();
      ghost var st := View();
      OpenIs(st, name, h, mem);
      if !mem.dir {
        return false;
      }
      var k := Lookup(name, mem.look);
      if k.None? {
        return false;
      }
      assert Opened() == old(Opened());
      var n := InodeOpen(slots[k.value].sector, mem.inode);
      if n == null {
        IsValid();
        return false;
      }
      FoundIsListed(st.slots, name);
      ListedIsLive(st, n.sector);
      OpenSectorGood(st, n.sector);
      ghost var held := Opened();
      ok := FileOpen(n, h, mem.file);
      assert Opened() <= held;
    }

    /** file_reopen */
    method Reopen(f: nat, h: nat, mem: Memory) returns (ok: bool)
      requires Valid() && f in files && h !in files
      modifies this`openInodes, this`files, this`leaked, Opened()`openCnt, freeMap
      ensures Valid() && FsSpec.IsOpenFile(old(View()), f)
      ensures FsSpec.Reopen(old(View()), f, h, mem) == FsSpec.Done(View(), ok)
      ensures Opened() <= old(Opened())
      ensures forall g :: g in files ==> (g in old(files) && files[g] == old(files)[g]) || fresh(files[g])
    {
      hide *;
      ValidFacts();
      ghost var st := View();
      FileIs(f);
      FileIsOpen(st, f);
      ReopenIs(st, f, h, mem);
      OpenIsLive(st, f);
      var n := files[f].inode;
      InFile(f);
      OpenSectorGood(st, n.sector);
      var i := IndexOf(n);
      EntryFound(i);
      ChangeCount(i, n, 1);
      ok := FileOpen(n, h, mem.file);
    }

    lemma InFile(f: nat)
      requires Linked() && f in files
      ensures files[f].inode in Opened()
    {
    }

    lemma EntryFound(i: nat)
      requires Inv(View()) && i < |openInodes|
      ensures openInodes[i] in Opened()
      ensures i < |View().open| && FsSpec.FindOpen(View().open, openInodes[i].sector, 0) == Some(i)
      ensures FsSpec.OpenSector(View().open, View().disk, openInodes[i].sector)
           == View().open[i := View().open[i].(openCnt := View().open[i].openCnt + 1)]
      ensures var n := openInodes[i];
              View().open[i] == FsSpec.OpenInode(n.sector, n.openCnt, n.removed, n.denyWriteCnt, n.data)
    {
      InvIs(View());
      hide *;
      FoundAt(i, None);
      OpenSectorIs(View().open, View().disk, openInodes[i].sector);
    }

    lemma FoundAt(i: nat, raw: Option<nat>)
      requires InvWith(View(), raw) && i < |openInodes|
      ensures i < |View().open| && FsSpec.FindOpen(View().open, openInodes[i].sector, 0) == Some(i)
      ensures openInodes[i] in Opened()
      ensures var n := openInodes[i];
              View().open[i] == FsSpec.OpenInode(n.sector, n.openCnt, n.removed, n.denyWriteCnt, n.data)
    {
      EntryIs(i);
      hide View;
      FoundIn(View(), i, raw);
    }

    /** Changes deny_write_cnt of an open inode. */
    method ChangeDeny(i: nat, n: Inode, delta: int)
      requires i < |openInodes| && openInodes[i] == n && Linked()
      modifies n`denyWriteCnt
      ensures i < |old(View()).open| && n.denyWriteCnt == old(n.denyWriteCnt) + delta
      ensures View() == old(View()).(open :=
        old(View()).open[i := old(View()).open[i].(denyCnt := old(View()).open[i].denyCnt + delta)])
    {
      ghost var was := OpenView(openInodes);
      hide Points, OpenView, FilesView, Formatted;
      Alone(openInodes, files, i);
      OpenViewIs(openInodes);
      n.denyWriteCnt := n.denyWriteCnt + delta;
      OpenViewIs(openInodes);
      OneChanged(was, OpenView(openInodes), i);
    }

    /** file_deny_write, with the assertion of inode_deny_write. */
    method DenyWrite(f: nat)
      requires Valid() && f in files
      modifies files[f], Opened()`denyWriteCnt
      ensures Valid() && FsSpec.IsOpenFile(old(View()), f)
      ensures FsSpec.DenyWrite(old(View()), f) == FsSpec.Done(View(), true)
    {
      hide *;
      ValidFacts();
      ghost var st := View();
      FileIs(f);
      DenyGood(st, f);
      var file := files[f];
      var n := file.inode;
      InFile(f);
      var i := IndexOf(n);
      EntryFound(i);
      DenyIs(st, f, i);
      if !file.denyWrite {
        SetFile(f, file, file.pos, true);
        ChangeDeny(i, n, 1);
        assert n.denyWriteCnt <= n.openCnt;
      }
      GoodIsInv(FsSpec.DenyWrite(st, f));
      IsValid();
    }

    /** file_allow_write, with the assertions of inode_allow_write. */
    method AllowWrite(f: nat)
      requires Valid() && f in files
      modifies files[f], Opened()`denyWriteCnt
      ensures Valid() && FsSpec.IsOpenFile(old(View()), f)
      ensures FsSpec.AllowWrite(old(View()), f) == FsSpec.Done(View(), true) && Opened() == old(Opened())
    {
      hide *;
      ValidFacts();
      ghost var st := View();
      FileIs(f);
      AllowGood(st, f);
      var file := files[f];
      var n := file.inode;
      InFile(f);
      var i := IndexOf(n);
      EntryFound(i);
      AllowIs(st, f, i);
      if file.denyWrite {
        SetFile(f, file, file.pos, false);
        assert n.denyWriteCnt > 0;
        assert n.denyWriteCnt <= n.openCnt;
        ChangeDeny(i, n, -1);
      }
      GoodIsInv(FsSpec.AllowWrite(st, f));
      IsValid();
    }

    /** file_close */
    method Close(f: nat)
      requires Valid() && f in files
      modifies this`openInodes, this`files, this`leaked, Opened(), files[f], freeMap
      ensures Valid() && FsSpec.IsOpenFile(old(View()), f)
      ensures FsSpec.Close(old(View()), f) == FsSpec.Done(View(), true)
      ensures files == old(files) - {f} && Opened() <= old(Opened())
    {
      hide *;
      ghost var st := View();
      var n := files[f].inode;
      ValidFacts();
      FileIs(f);
      AllowGood(st, f);
      AllowWrite(f);
      ValidFacts();
      FileIs(f);
      InFile(f);
      CloseIs(st, f);
      TakenBack(View(), f);
      DropFile(f);
      InodeClose(n);
      IsValid();
    }

    /** filesys_remove with dir_remove */
    method Remove(name: string, mem: Memory) returns (ok: bool)
      requires Valid()
      modifies this`openInodes, this`leaked, Opened(), slots, freeMap
      ensures Valid() && FsSpec.Remove(old(View()), name, mem) == FsSpec.Done(View(), ok)
      ensures forall m :: m in Opened() ==> m in old(Opened()) || fresh(m)
    {
      hide *;
      ValidFacts();
      ghost var st := View();
      RemoveIs(st, name, mem);
      if !mem.dir {
        return false;
      }
      var k := Lookup(name, mem.look);
      if k.None? {
        return false;
      }
      var e := slots[k.value];
      assert Opened() == old(Opened());
      var n := InodeOpen(e.sector, mem.inode);
      if n == null {
        IsValid();
        return false;
      }
      FoundIsListed(st.slots, name);
      ListedIsLive(st, n.sector);
      OpenSectorGood(st, n.sector);
      ghost var held := View();
      if !mem.entry {
        InodeClose(n);
        IsValid();
        return false;
      }
      UnlistedInv(held, k.value);
      var i := IndexOf(n);
      FoundAt(i, Some(n.sector));
      WriteSlot(k.value, e.(inUse := false));
      MarkRemoved(i, n);
      UnlistedIs(st, k.value, i);
      ghost var inodes := Opened();
      InodeClose(n);
      assert Opened() <= inodes;
      IsValid();
      ok := true;
    }

    /** inode_remove */
    method MarkRemoved(i: nat, n: Inode)
      requires i < |openInodes| && openInodes[i] == n && Linked()
      modifies n`removed
      ensures i < |old(View()).open|
      ensures View() == old(View()).(open := old(View()).open[i := old(View()).open[i].(removed := true)])
    {
      n.removed := true;
    }

    /** file_write: returns the number of bytes written. */
    method WriteFile(f: nat, data: seq<byte>, bounceOk: bool) returns (moved: nat)
      requires Valid() && f in files
      modifies files[f], disk
      ensures Valid() && FsSpec.IsOpenFile(old(View()), f)
      ensures moved == FsSpec.Written(old(View()), f, data, bounceOk)
      ensures FsSpec.WriteFile(old(View()), f, data, bounceOk) == FsSpec.Done(View(), true)
    {
      hide *;
      ValidFacts();
      ghost var st := View();
      FileIs(f);
      WriteGood(st, f, data, bounceOk);
      var file := files[f];
      var n := file.inode;
      InFile(f);
      ghost var i := IndexOf(n);
      EntryFound(i);
      WriteFileIs(st, f, data, bounceOk, i);
      OpenReadable(st, f);
      moved := WriteInode(n, data, file.pos, bounceOk);
      SetFile(f, file, file.pos + moved, file.denyWrite);
      GoodIsInv(FsSpec.WriteFile(st, f, data, bounceOk));
      IsValid();
    }

    method WriteInode(n: Inode, data: seq<byte>, pos: nat, bounceOk: bool) returns (moved: nat)
      requires Linked() && Readable(View().disk, n.data)
      modifies disk
      ensures Linked() && moved <= |data|
      ensures moved == if n.denyWriteCnt != 0 then 0 else Transferred(n.data.length, |data|, pos, bounceOk)
      ensures View() == old(View()).(disk := Patch(old(View()).disk, n.data.start * SECTOR_SIZE + pos, data[..moved]))
    {
      moved := WriteAt(disk, n, data, |data|, pos, bounceOk);
    }

    /** file_read into a new buffer of `size` bytes. */
    method ReadFile(f: nat, size: nat, bounceOk: bool) returns (bytes: seq<byte>)
      requires Valid() && f in files
      modifies files[f]
      ensures Valid() && FsSpec.IsOpenFile(old(View()), f)
      ensures var st := old(View());
              var n, pos := FsSpec.InodeOf(st, f).data, st.files[f].pos;
              && Readable(st.disk, n)
              && |bytes| == Transferred(n.length, size, pos, bounceOk)
              && (|bytes| > 0 ==> bytes == Contents(st.disk, n)[pos..pos + |bytes|])
              && FsSpec.Seek(st, f, pos + |bytes|) == FsSpec.Done(View(), true)
    {
      hide *;
      ValidFacts();
      ghost var st := View();
      FileIs(f);
      var file := files[f];
      var n := file.inode;
      InFile(f);
      ghost var i := IndexOf(n);
      EntryFound(i);
      FileIsOpen(st, f);
      InodeOfIs(st, f, i);
      OpenReadable(st, f);
      bytes := ReadInode(n, size, file.pos, bounceOk);
      SeekGood(st, f, file.pos + |bytes|);
      SetFile(f, file, file.pos + |bytes|, file.denyWrite);
      SeekIs(st, f, st.files[f].pos + |bytes|);
      GoodIsInv(FsSpec.Seek(st, f, st.files[f].pos + |bytes|));
      IsValid();
    }

    method ReadInode(n: Inode, size: nat, pos: nat, bounceOk: bool) returns (bytes: seq<byte>)
      requires Readable(View().disk, n.data)
      ensures |bytes| == Transferred(n.data.length, size, pos, bounceOk)
      ensures pos <= n.data.length || |bytes| == 0
      ensures |bytes| > 0 ==> pos + |bytes| <= n.data.length && bytes == Contents(View().disk, n.data)[pos..pos + |bytes|]
    {
      var buffer := new byte[size](_ => 0);
      var moved := ReadAt(disk, n, buffer, size, pos, bounceOk);
      bytes := buffer[..moved];
    }

    /** file_seek; the precondition on `pos` is its assertion. */
    method SeekFile(f: nat, pos: nat)
      requires Valid() && f in files
      modifies files[f]
      ensures Valid() && FsSpec.IsOpenFile(old(View()), f)
      ensures FsSpec.Seek(old(View()), f, pos) == FsSpec.Done(View(), true)
    {
      hide *;
      ValidFacts();
      ghost var st := View();
      FileIs(f);
      SeekGood(st, f, pos);
      SeekIs(st, f, pos);
      SetFile(f, files[f], pos, files[f].denyWrite);
      GoodIsInv(FsSpec.Seek(st, f, pos));
      IsValid();
    }

    lemma BeforeClose(i: nat)
      requires i < |openInodes| && InvWith(View(), Some(openInodes[i].sector))
      ensures i < |View().open|
      ensures var n := openInodes[i];
        && View().open[i] == FsSpec.OpenInode(n.sector, n.openCnt, n.removed, n.denyWriteCnt, n.data)
        && CloseCase(View(), i)
        && Good(FsSpec.CloseInode(View(), n.sector))
        && (n.openCnt == 1 ==> forall h :: h in files ==> files[h].inode != n)
    {
      EntryIs(i);
      CloseGood(View(), openInodes[i].sector);
      CloseFacts(View(), i);
      if openInodes[i].openCnt == 1 {
        NotHeld(i);
      }
    }

    lemma EntryIs(i: nat)
      requires i < |openInodes|
      ensures i < |View().open|
      ensures var n := openInodes[i];
              View().open[i] == FsSpec.OpenInode(n.sector, n.openCnt, n.removed, n.denyWriteCnt, n.data)
    {
    }

    lemma NotHeld(i: nat)
      requires i < |openInodes| && forall h :: h in View().files ==> View().files[h].sector != openInodes[i].sector
      ensures forall h :: h in files ==> files[h].inode != openInodes[i]
    {
      forall h | h in files ensures files[h].inode != openInodes[i] {
        assert h in View().files;
      }
    }
  }

  lemma OpenSectorIs(open: seq<FsSpec.OpenInode>, disk: seq<Sector>, sector: nat)
    ensures var i := FsSpec.FindOpen(open, sector, 0);
            FsSpec.OpenSector(open, disk, sector)
              == if i.Some? then open[i.value := open[i.value].(openCnt := open[i.value].openCnt + 1)]
                 else [FsSpec.OpenInode(sector, 1, false, 0, FsSpec.InodeAt(disk, sector))] + open
  {
  }

  lemma OpenFileIs(st: FsSpec.State, s: nat, h: nat, fileMem: bool)
    requires FsSpec.FindOpen(st.open, s, 0).Some?
    ensures fileMem ==> FsSpec.OpenFile(st, s, h, fileMem) == FsSpec.Done(st.(files := st.files[h := FsSpec.File(s, 0, false)]), true)
    ensures !fileMem && FsSpec.CloseInode(st, s).Done? ==>
      FsSpec.OpenFile(st, s, h, fileMem) == FsSpec.Done(FsSpec.CloseInode(st, s).st, false)
  {
  }

  lemma SeekIs(st: FsSpec.State, f: nat, pos: nat)
    requires FsSpec.IsOpenFile(st, f)
    ensures f in st.files
    ensures FsSpec.Seek(st, f, pos) == FsSpec.Done(st.(files := st.files[f := st.files[f].(pos := pos)]), true)
  {
  }

  lemma InodeOfIs(st: FsSpec.State, f: nat, i: nat)
    requires FsSpec.IsOpenFile(st, f)
    requires f in st.files && FsSpec.FindOpen(st.open, st.files[f].sector, 0) == Some(i)
    ensures i < |st.open| && FsSpec.InodeOf(st, f) == st.open[i]
  {
  }

  lemma OpenReadable(st: FsSpec.State, f: nat)
    requires Inv(st) && f in st.files
    ensures FsSpec.IsOpenFile(st, f) && Readable(st.disk, FsSpec.InodeOf(st, f).data)
  {
    FileIsOpen(st, f);
    var i := FsSpec.FindOpen(st.open, st.files[f].sector, 0).value;
    assert Faithful(st.disk, FsSpec.ListedSet(st.slots), st.open[i], st.files, None);
    assert Placed(st.disk, st.files[f].sector);
  }

  lemma WriteFileIs(st: FsSpec.State, f: nat, data: seq<byte>, bounceOk: bool, i: nat)
    requires FsSpec.IsOpenFile(st, f)
    requires f in st.files && FsSpec.FindOpen(st.open, st.files[f].sector, 0) == Some(i)
    ensures i < |st.open| && FsSpec.InodeOf(st, f) == st.open[i]
    ensures var n, pos, moved := st.open[i], st.files[f].pos, FsSpec.Written(st, f, data, bounceOk);
            && moved == (if n.denyCnt != 0 then 0 else Transferred(n.data.length, |data|, pos, bounceOk))
            && moved <= |data|
            && FsSpec.WriteFile(st, f, data, bounceOk)
                 == FsSpec.Done(st.(disk := Patch(st.disk, n.data.start * SECTOR_SIZE + pos, data[..moved]),
                                    files := st.files[f := st.files[f].(pos := pos + moved)]), true)
  {
  }

  lemma FoundIn(st: FsSpec.State, i: nat, raw: Option<nat>)
    requires InvWith(st, raw) && i < |st.open|
    ensures FsSpec.FindOpen(st.open, st.open[i].sector, 0) == Some(i)
  {
    FindIs(st.open, i);
  }

  lemma ListedIsLive(st: FsSpec.State, s: nat)
    requires s in FsSpec.ListedSet(st.slots)
    ensures s in Live(st.slots, st.open)
  {
  }

  lemma OpenIsLive(st: FsSpec.State, f: nat)
    requires f in st.files && st.files[f].sector in OpenSet(st.open)
    ensures st.files[f].sector in Live(st.slots, st.open)
  {
  }

  lemma OpenIs(st: FsSpec.State, name: string, h: nat, mem: Memory)
    ensures var r, k := FsSpec.Open(st, name, h, mem), FsSpec.Lookup(st.slots, name, mem.look);
      if !mem.dir || k.None? then r == FsSpec.Done(st, false)
      else
        var s := st.slots[k.value].sector;
        if FsSpec.FindOpen(st.open, s, 0).None? && !mem.inode then r == FsSpec.Done(st, false)
        else r == FsSpec.OpenFile(st.(open := FsSpec.OpenSector(st.open, st.disk, s)), s, h, mem.file)
  {
  }

  lemma ReopenIs(st: FsSpec.State, f: nat, h: nat, mem: Memory)
    requires FsSpec.IsOpenFile(st, f)
    ensures f in st.files
    ensures var s := st.files[f].sector;
            FsSpec.FindOpen(FsSpec.OpenSector(st.open, st.disk, s), s, 0).Some?
            && FsSpec.Reopen(st, f, h, mem)
                 == FsSpec.OpenFile(st.(open := FsSpec.OpenSector(st.open, st.disk, s)), s, h, mem.file)
  {
  }

  lemma DenyIs(st: FsSpec.State, f: nat, i: nat)
    requires FsSpec.IsOpenFile(st, f) && Good(FsSpec.DenyWrite(st, f))
    requires f in st.files && FsSpec.FindOpen(st.open, st.files[f].sector, 0) == Some(i)
    ensures i < |st.open|
    ensures var n, r := st.open[i], FsSpec.DenyWrite(st, f);
      if st.files[f].deny then r == FsSpec.Done(st, true)
      else n.denyCnt + 1 <= n.openCnt
           && r == FsSpec.Done(st.(files := st.files[f := st.files[f].(deny := true)],
                                   open := st.open[i := n.(denyCnt := n.denyCnt + 1)]), true)
  {
    hide Inv, FsSpec.FindOpen;
  }

  lemma AllowIs(st: FsSpec.State, f: nat, i: nat)
    requires FsSpec.IsOpenFile(st, f) && Good(FsSpec.AllowWrite(st, f))
    requires f in st.files && FsSpec.FindOpen(st.open, st.files[f].sector, 0) == Some(i)
    ensures i < |st.open|
    ensures var n, r := st.open[i], FsSpec.AllowWrite(st, f);
      if !st.files[f].deny then r == FsSpec.Done(st, true)
      else 0 < n.denyCnt <= n.openCnt
           && r == FsSpec.Done(st.(files := st.files[f := st.files[f].(deny := false)],
                                   open := st.open[i := n.(denyCnt := n.denyCnt - 1)]), true)
  {
    hide Inv, FsSpec.FindOpen;
  }

  lemma CloseIs(st: FsSpec.State, f: nat)
    requires FsSpec.IsOpenFile(st, f) && FsSpec.AllowWrite(st, f).Done?
    ensures f in st.files
    ensures var st1, s := FsSpec.AllowWrite(st, f).st, st.files[f].sector;
            FsSpec.FindOpen(st1.open, s, 0).Some?
            && FsSpec.Close(st, f) == FsSpec.CloseInode(st1.(files := st1.files - {f}), s)
  {
  }

  lemma TakenBack(st: FsSpec.State, f: nat)
    requires Inv(st) && f in st.files && !st.files[f].deny
    ensures InvWith(st.(files := st.files - {f}), Some(st.files[f].sector))
  {
    TakeBack(st.disk, FsSpec.ListedSet(st.slots), st.open, st.files, f);
  }

  lemma RemoveIs(st: FsSpec.State, name: string, mem: Memory)
    ensures var r, k := FsSpec.Remove(st, name, mem), FsSpec.Lookup(st.slots, name, mem.look);
      if !mem.dir || k.None? then r == FsSpec.Done(st, false)
      else
        var s := st.slots[k.value].sector;
        if FsSpec.FindOpen(st.open, s, 0).None? && !mem.inode then r == FsSpec.Done(st, false)
        else if mem.entry then r == FsSpec.CloseInode(FsSpec.Unlisted(st, k.value), s)
        else
          var st1 := st.(open := FsSpec.OpenSector(st.open, st.disk, s));
          FsSpec.CloseInode(st1, s).Done? ==> r == FsSpec.Done(FsSpec.CloseInode(st1, s).st, false)
  {
  }

  lemma TakenSector(st: FsSpec.State, s: nat)
    requires Inv(st) && AllAre(st.used, s, 1, false)
    ensures 0 < s < |st.used|
  {
    assert Placed(st.disk, FsSpec.FREE_MAP_SECTOR) && Owns(st.disk, FsSpec.FREE_MAP_SECTOR, FsSpec.FREE_MAP_SECTOR);
    assert !st.used[s];
  }

  /** filesys_create case by case. */
  lemma CreateIs(st: FsSpec.State, name: string, size: nat, mem: Memory)
    requires |st.used| == |st.disk| && FsSpec.Create(st, name, size, mem).Done?
    ensures var r, at := FsSpec.Create(st, name, size, mem), FsSpec.Allocate(st.used, 1, mem.map1);
      if !mem.dir || at.None? then r == FsSpec.Done(st, false)
      else
        var s, n := at.value, Sectors(size);
        var used1 := Mark(st.used, s, 1, true);
        var fit := if mem.inode then FsSpec.Allocate(used1, n, mem.map2) else None;
        if fit.None? then
          AllAre(used1, s, 1, true) && r == FsSpec.Done(st.(used := Mark(used1, s, 1, false)), false)
        else
          var used2 := Mark(used1, fit.value, n, true);
          var disk2 := Stored(st.disk, s, DiskInode(fit.value, size));
          if FsSpec.CanAdd(st.slots, name, mem) then
            var k := FsSpec.Target(st.slots, mem.scan).value;
            r == FsSpec.Done(st.(used := used2, disk := disk2, slots := st.slots[k := FsSpec.Slot(s, name, true)],
                                 leaked := st.leaked + FsSpec.Overwritten(st, k)), true)
          else
            && AllAre(used2, s, 1, true)
            && r == FsSpec.Done(st.(used := Mark(used2, s, 1, false), disk := disk2,
                                    leaked := st.leaked + FsSpec.Range(fit.value, n)), false)
  {
    hide Mark, AllAre, Fit, FsSpec.FillZero, Sectors, FsSpec.Lookup, FsSpec.Target, FsSpec.Range, FsSpec.Overwritten;
  }

  lemma UnlistedIs(st: FsSpec.State, k: nat, i: nat)
    requires k < |st.slots| && i < |FsSpec.OpenSector(st.open, st.disk, st.slots[k].sector)|
    requires FsSpec.FindOpen(FsSpec.OpenSector(st.open, st.disk, st.slots[k].sector), st.slots[k].sector, 0) == Some(i)
    ensures var open1 := FsSpec.OpenSector(st.open, st.disk, st.slots[k].sector);
            FsSpec.Unlisted(st, k) == st.(slots := st.slots[k := st.slots[k].(inUse := false)],
                                          open := open1[i := open1[i].(removed := true)])
  {
  }

  lemma GoodIsInv(r: FsSpec.Result)
    requires Good(r)
    ensures r.Done? && Inv(r.st)
  {
  }

  lemma WithoutChanged(open: seq<FsSpec.OpenInode>, i: nat, n: FsSpec.OpenInode)
    requires i < |open|
    ensures open[i := n][..i] + open[i := n][i + 1..] == open[..i] + open[i + 1..]
  {
  }

  /** inode_close case by case. */
  ghost predicate CloseCase(st: FsSpec.State, i: nat)
    requires i < |st.open|
  {
    var n, rest := st.open[i], st.open[..i] + st.open[i + 1..];
    && FsSpec.FindOpen(st.open, n.sector, 0) == Some(i)
    && var r := FsSpec.CloseInode(st, n.sector);
    if n.openCnt != 1 then r == FsSpec.Done(st.(open := st.open[i := n.(openCnt := n.openCnt - 1)]), true)
    else if !n.removed then r == FsSpec.Done(st.(open := rest, leaked := st.leaked + FsSpec.Unnamed(st, n.sector)), true)
    else
      && AllAre(st.used, n.sector, 1, true)
      && var used1 := Mark(st.used, n.sector, 1, false);
      && AllAre(used1, n.data.start, Sectors(n.data.length), true)
      && r == FsSpec.Done(st.(open := rest, used := Mark(used1, n.data.start, Sectors(n.data.length), false)), true)
  }

  lemma CloseFacts(st: FsSpec.State, i: nat)
    requires i < |st.open| && InvWith(st, Some(st.open[i].sector))
    ensures CloseCase(st, i)
    ensures st.open[i].openCnt == 1 ==> forall h :: h in st.files ==> st.files[h].sector != st.open[i].sector
  {
    CloseGood(st, st.open[i].sector);
    LastHolder(st, i);
    GoodIsInv(FsSpec.CloseInode(st, st.open[i].sector));
    hide *;
    CloseCases(st, i);
  }

  lemma CloseCases(st: FsSpec.State, i: nat)
    requires i < |st.open| && FsSpec.FindOpen(st.open, st.open[i].sector, 0) == Some(i)
    requires FsSpec.CloseInode(st, st.open[i].sector).Done?
    ensures CloseCase(st, i)
  {
    hide FsSpec.FindOpen, AllAre, Mark, Sectors, FsSpec.Unnamed;
  }

  lemma LastHolder(st: FsSpec.State, i: nat)
    requires i < |st.open| && InvWith(st, Some(st.open[i].sector))
    ensures FsSpec.FindOpen(st.open, st.open[i].sector, 0) == Some(i)
    ensures st.open[i].openCnt == 1 ==> forall h :: h in st.files ==> st.files[h].sector != st.open[i].sector
  {
    var s := st.open[i].sector;
    FindIs(st.open, i);
    assert Faithful(st.disk, FsSpec.ListedSet(st.slots), st.open[i], st.files, Some(s));
    hide FsSpec.FindOpen, Owned, FsSpec.ListedSet, SlotsOk;
    if st.open[i].openCnt == 1 {
      forall h | h in st.files ensures st.files[h].sector != s {
        if st.files[h].sector == s {
          OneElement(Handles(st.files, s), h);
        }
      }
    }
  }
}
