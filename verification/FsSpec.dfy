/** The file system as a state and its operations as functions on that state.
    `FileSystem.dfy` carries the operations out in place and is proved equal to these. */
module FsSpec {
  import opened DiskModel
  import opened Bitmap
  import opened InodeIO

  const NAME_MAX := 14
  const FREE_MAP_SECTOR: nat := 0
  const ROOT_DIR_SECTOR: nat := 1
  /** sizeof (struct dir_entry) */
  const ENTRY_SIZE: nat := 20

  datatype Slot = Slot(sector: nat, name: string, inUse: bool)

  datatype OpenInode = OpenInode(sector: nat, openCnt: int, removed: bool, denyCnt: int, data: DiskInode)

  datatype File = File(sector: nat, pos: nat, deny: bool)

  /** `leaked` keeps account of the sectors that stay marked although no file has them. */
  datatype State = State(used: seq<bool>, disk: seq<Sector>, slots: seq<Slot>,
                         open: seq<OpenInode>, files: map<nat, File>, leaked: set<nat>)

  /** A failed ASSERT ends every run. */
  datatype Result = Done(st: State, ok: bool) | Panic

  /** Which memory allocations of a call succeed: for struct dir, for the inode, for
      struct file, and for the buffer with which the free map is written back (twice).
      Every directory entry is read and written through a bounce buffer: `look` and `scan`
      count the entries that lookup and the loop of dir_add read before one read finds no
      buffer, and `entry` says whether the write of an entry gets one. */
  datatype Memory = Memory(dir: bool, inode: bool, file: bool, map1: bool, map2: bool, look: nat, scan: nat, entry: bool)

  // ---------------------------------------------------------------- disk and directory

  function FillZero(disk: seq<Sector>, from: nat, cnt: nat): (r: seq<Sector>)
    requires from + cnt <= |disk|
    ensures |r| == |disk|
    ensures forall i :: 0 <= i < |r| ==> r[i] == if from <= i < from + cnt then Data(Zeros()) else disk[i]
  {
    disk[..from] + seq(cnt, i => Data(Zeros())) + disk[from + cnt..]
  }

  function FindSlot(slots: seq<Slot>, name: string, from: nat): (r: Option<nat>)
    ensures r.Some? ==> from <= r.value < |slots| && slots[r.value].inUse && slots[r.value].name == name
    ensures r.Some? ==> forall k :: from <= k < r.value && slots[k].inUse ==> slots[k].name != name
    ensures r.None? ==> forall k :: from <= k < |slots| && slots[k].inUse ==> slots[k].name != name
    decreases |slots| - from
  {
    if from >= |slots| then None
    else if slots[from].inUse && slots[from].name == name then Some(from)
    else FindSlot(slots, name, from + 1)
  }

  function FreeSlot(slots: seq<Slot>, from: nat): (r: Option<nat>)
    ensures r.Some? ==> from <= r.value < |slots| && !slots[r.value].inUse
    ensures r.Some? ==> forall k :: from <= k < r.value ==> slots[k].inUse
    ensures r.None? ==> forall k :: from <= k < |slots| ==> slots[k].inUse
    decreases |slots| - from
  {
    if from >= |slots| then None
    else if !slots[from].inUse then Some(from)
    else FreeSlot(slots, from + 1)
  }

  /** lookup: a short read ends the search like the end of the directory. */
  function Lookup(slots: seq<Slot>, name: string, look: nat): (r: Option<nat>)
    ensures r.Some? ==> r == FindSlot(slots, name, 0)
  {
    match FindSlot(slots, name, 0)
    case Some(k) => if k < look then Some(k) else None
    case None => None
  }

  /** The entry that dir_add writes: the first free one, or the one whose read came back
      short, whatever it holds; None at the end of the directory. */
  function Target(slots: seq<Slot>, scan: nat): (r: Option<nat>)
    ensures r.Some? ==> r.value < |slots|
  {
    match FreeSlot(slots, 0)
    case Some(k) => if k <= scan then Some(k) else Some(scan)
    case None => if scan < |slots| then Some(scan) else None
  }

  predicate CanAdd(slots: seq<Slot>, name: string, mem: Memory) {
    && 0 < |name| <= NAME_MAX
    && Lookup(slots, name, mem.look).None?
    && Target(slots, mem.scan).Some?
    && mem.entry
  }

  /** Memory and sectors for a new file of `size` bytes can be had. */
  predicate HasRoom(st: State, size: nat, mem: Memory) {
    && mem.dir && mem.inode
    && Allocate(st.used, 1, mem.map1).Some?
    && Allocate(Mark(st.used, Fit(st.used, 1, 0).value, 1, true), Sectors(size), mem.map2).Some?
  }

  /** The directory can be opened, lookup finds the name, and its inode can be held. */
  predicate MayHold(st: State, name: string, mem: Memory) {
    && mem.dir && Lookup(st.slots, name, mem.look).Some?
    && (mem.inode || FindOpen(st.open, st.slots[Lookup(st.slots, name, mem.look).value].sector, 0).Some?)
  }

  function ListedSet(slots: seq<Slot>): set<nat> {
    set k | 0 <= k < |slots| && slots[k].inUse :: slots[k].sector
  }

  // ---------------------------------------------------------------- open inodes

  function FindOpen(open: seq<OpenInode>, sector: nat, from: nat): (r: Option<nat>)
    ensures r.Some? ==> from <= r.value < |open| && open[r.value].sector == sector
    ensures r.None? ==> forall k :: from <= k < |open| ==> open[k].sector != sector
    decreases |open| - from
  {
    if from >= |open| then None
    else if open[from].sector == sector then Some(from)
    else FindOpen(open, sector, from + 1)
  }

  /** The inode that reading a sector as an inode yields. */
  function InodeAt(disk: seq<Sector>, s: nat): DiskInode {
    if s < |disk| && disk[s].Header? then disk[s].inode else DiskInode(0, 0)
  }

  function OpenSector(open: seq<OpenInode>, disk: seq<Sector>, sector: nat): (r: seq<OpenInode>)
    ensures FindOpen(r, sector, 0).Some?
  {
    match FindOpen(open, sector, 0)
    case Some(i) =>
      var r := open[i := open[i].(openCnt := open[i].openCnt + 1)];
      assert r[i].sector == sector;
      r
    case None => [OpenInode(sector, 1, false, 0, InodeAt(disk, sector))] + open
  }

  function Range(from: nat, cnt: nat): (r: set<nat>)
    ensures forall x :: x in r <==> from <= x < from + cnt
  {
    if cnt == 0 then {} else Range(from, cnt - 1) + {from + cnt - 1}
  }

  /** The sectors of the inode in sector `s`. */
  function SectorsOf(disk: seq<Sector>, s: nat): set<nat> {
    if s < |disk| && disk[s].Header? then {s} + Range(disk[s].inode.start, Sectors(disk[s].inode.length)) else {}
  }

  function Release(used: seq<bool>, from: nat, cnt: nat): Option<seq<bool>> {
    if AllAre(used, from, cnt, true) then Some(Mark(used, from, cnt, false)) else None
  }

  /** inode_close: the last closer drops the inode and frees a removed file's sectors.  A
      file that lost its directory entry without being removed keeps them marked. */
  function CloseInode(st: State, sector: nat): Result
    requires FindOpen(st.open, sector, 0).Some?
  {
    var i := FindOpen(st.open, sector, 0).value;
    var n := st.open[i];
    if n.openCnt - 1 != 0 then
      Done(st.(open := st.open[i := n.(openCnt := n.openCnt - 1)]), true)
    else
      var rest := st.open[..i] + st.open[i + 1..];
      if !n.removed then Done(st.(open := rest, leaked := st.leaked + Unnamed(st, n.sector)), true)
      else
        match Release(st.used, n.sector, 1)
        case None => Panic
        case Some(used1) =>
          match Release(used1, n.data.start, Sectors(n.data.length))
          case None => Panic
          case Some(used2) => Done(st.(open := rest, used := used2), true)
  }

  /** The sectors of a file that has no directory entry. */
  function Unnamed(st: State, s: nat): set<nat> {
    if s < 2 || s in ListedSet(st.slots) then {} else SectorsOf(st.disk, s)
  }

  // ---------------------------------------------------------------- file system calls

  /** free_map_allocate; it fails as well when the map cannot be written back. */
  function Allocate(used: seq<bool>, cnt: nat, writable: bool): (r: Option<nat>)
    ensures r.Some? ==> r == Fit(used, cnt, 0)
  {
    if writable then Fit(used, cnt, 0) else None
  }

  /** filesys_create */
  function Create(st: State, name: string, size: int, mem: Memory): Result
    requires |st.used| == |st.disk|
  {
    if !mem.dir then Done(st, false)
    else
      match Allocate(st.used, 1, mem.map1)
      case None => Done(st, false)
      case Some(s) => if size < 0 then Panic else CreateAt(st, name, size, s, mem)
  }

  function CreateAt(st: State, name: string, size: nat, s: nat, mem: Memory): Result
    requires |st.used| == |st.disk| && s < |st.used|
  {
    var used1 := Mark(st.used, s, 1, true);
    var fit := Allocate(used1, Sectors(size), mem.map2);
    if !mem.inode || fit.None? then
      // inode_create failed: the inode sector goes back
      match Release(used1, s, 1)
      case None => Panic
      case Some(used2) => Done(st.(used := used2), false)
    else
      var start, n := fit.value, Sectors(size);
      var used2 := Mark(used1, start, n, true);
      var disk2 := FillZero(st.disk[s := Header(DiskInode(start, size))], start, n);
      if CanAdd(st.slots, name, mem) then
        var k := Target(st.slots, mem.scan).value;
        Done(st.(used := used2, disk := disk2, slots := st.slots[k := Slot(s, name, true)],
                 leaked := st.leaked + Overwritten(st, k)), true)
      else
        // dir_add failed: only the inode sector goes back
        match Release(used2, s, 1)
        case None => Panic
        case Some(used3) => Done(st.(used := used3, disk := disk2, leaked := st.leaked + Range(start, n)), false)
  }

  /** What writing over directory entry `k` loses: the sectors of a file that nobody has open. */
  function Overwritten(st: State, k: nat): set<nat>
    requires k < |st.slots|
  {
    var t := st.slots[k].sector;
    if st.slots[k].inUse && FindOpen(st.open, t, 0).None? then SectorsOf(st.disk, t) else {}
  }

  /** file_open on an inode just opened; `h` is the handle of the new struct file. */
  function OpenFile(st: State, s: nat, h: nat, fileMem: bool): Result
    requires FindOpen(st.open, s, 0).Some?
  {
    if fileMem then Done(st.(files := st.files[h := File(s, 0, false)]), true)
    else
      match CloseInode(st, s)
      case Panic => Panic
      case Done(st2, _) => Done(st2, false)
  }

  /** filesys_open */
  function Open(st: State, name: string, h: nat, mem: Memory): Result {
    if !mem.dir then Done(st, false)
    else
      match Lookup(st.slots, name, mem.look)
      case None => Done(st, false)
      case Some(k) =>
        var s := st.slots[k].sector;
        if FindOpen(st.open, s, 0).None? && !mem.inode then Done(st, false)
        else OpenFile(st.(open := OpenSector(st.open, st.disk, s)), s, h, mem.file)
  }

  predicate IsOpenFile(st: State, f: nat) {
    f in st.files && FindOpen(st.open, st.files[f].sector, 0).Some?
  }

  /** file_reopen */
  function Reopen(st: State, f: nat, h: nat, mem: Memory): Result
    requires IsOpenFile(st, f)
  {
    var s := st.files[f].sector;
    OpenFile(st.(open := OpenSector(st.open, st.disk, s)), s, h, mem.file)
  }

  /** file_deny_write with the assertion of inode_deny_write */
  function DenyWrite(st: State, f: nat): Result
    requires IsOpenFile(st, f)
  {
    var i := FindOpen(st.open, st.files[f].sector, 0).value;
    var n := st.open[i];
    if st.files[f].deny then Done(st, true)
    else if n.denyCnt + 1 > n.openCnt then Panic
    else Done(st.(files := st.files[f := st.files[f].(deny := true)],
                  open := st.open[i := n.(denyCnt := n.denyCnt + 1)]), true)
  }

  /** file_allow_write with the assertions of inode_allow_write */
  function AllowWrite(st: State, f: nat): (r: Result)
    requires IsOpenFile(st, f)
    ensures r.Done? ==> FindOpen(r.st.open, st.files[f].sector, 0).Some?
  {
    var i := FindOpen(st.open, st.files[f].sector, 0).value;
    var n := st.open[i];
    if !st.files[f].deny then Done(st, true)
    else if n.denyCnt <= 0 || n.denyCnt > n.openCnt then Panic
    else
      var open := st.open[i := n.(denyCnt := n.denyCnt - 1)];
      assert open[i].sector == st.files[f].sector;
      Done(st.(files := st.files[f := st.files[f].(deny := false)], open := open), true)
  }

  /** file_close */
  function Close(st: State, f: nat): Result
    requires IsOpenFile(st, f)
  {
    match AllowWrite(st, f)
    case Panic => Panic
    case Done(st1, _) => CloseInode(st1.(files := st1.files - {f}), st.files[f].sector)
  }

  /** The directory entry erased and its inode, held open, marked removed. */
  function Unlisted(st: State, k: nat): (r: State)
    requires k < |st.slots|
    ensures FindOpen(r.open, st.slots[k].sector, 0).Some?
  {
    var s := st.slots[k].sector;
    var open1 := OpenSector(st.open, st.disk, s);
    var i := FindOpen(open1, s, 0).value;
    var open2 := open1[i := open1[i].(removed := true)];
    assert open2[i].sector == s;
    st.(slots := st.slots[k := st.slots[k].(inUse := false)], open := open2)
  }

  /** filesys_remove: the inode is closed again also when its entry cannot be written. */
  function Remove(st: State, name: string, mem: Memory): Result {
    if !mem.dir then Done(st, false)
    else
      match Lookup(st.slots, name, mem.look)
      case None => Done(st, false)
      case Some(k) =>
        var s := st.slots[k].sector;
        if FindOpen(st.open, s, 0).None? && !mem.inode then Done(st, false)
        else if mem.entry then CloseInode(Unlisted(st, k), s)
        else
          match CloseInode(st.(open := OpenSector(st.open, st.disk, s)), s)
          case Panic => Panic
          case Done(st1, _) => Done(st1, false)
  }

  /** The in-memory inode behind a struct file. */
  function InodeOf(st: State, f: nat): (n: OpenInode)
    requires IsOpenFile(st, f)
  {
    st.open[FindOpen(st.open, st.files[f].sector, 0).value]
  }

  /** What file_write returns. */
  function Written(st: State, f: nat, data: seq<byte>, bounceOk: bool): (moved: nat)
    requires IsOpenFile(st, f)
    ensures moved <= |data|
  {
    var n := InodeOf(st, f);
    if n.denyCnt != 0 then 0 else Transferred(n.data.length, |data|, st.files[f].pos, bounceOk)
  }

  /** file_write at the file's own position */
  function WriteFile(st: State, f: nat, data: seq<byte>, bounceOk: bool): Result
    requires IsOpenFile(st, f)
  {
    var pos, moved := st.files[f].pos, Written(st, f, data, bounceOk);
    Done(st.(disk := Patch(st.disk, InodeOf(st, f).data.start * SECTOR_SIZE + pos, data[..moved]),
             files := st.files[f := st.files[f].(pos := pos + moved)]), true)
  }

  /** file_seek */
  function Seek(st: State, f: nat, pos: int): Result
    requires IsOpenFile(st, f)
  {
    if pos < 0 then Panic else Done(st.(files := st.files[f := st.files[f].(pos := pos)]), true)
  }

  /** bitmap_file_size of a map with one bit per sector */
  function MapBytes(size: nat): nat {
    (size + 31) / 32 * 4
  }

  const ROOT_ENTRIES: nat := 16

  /** filesys_init with formatting, on a device of `size` blank sectors.  Handle 0 is the
      free map's own struct file. */
  function Format(size: nat): Result {
    if size < 2 then Panic
    else
      var used0 := seq(size, i => i < 2);
      var disk0 := seq(size, i => Data(Zeros()));
      var mapLength, rootLength := MapBytes(size), ROOT_ENTRIES * ENTRY_SIZE;
      match Fit(used0, Sectors(mapLength), 0)
      case None => Panic
      case Some(m) =>
        var used1 := Mark(used0, m, Sectors(mapLength), true);
        var disk1 := FillZero(disk0[FREE_MAP_SECTOR := Header(DiskInode(m, mapLength))], m, Sectors(mapLength));
        match Fit(used1, Sectors(rootLength), 0)
        case None => Panic
        case Some(r) =>
          var used2 := Mark(used1, r, Sectors(rootLength), true);
          var disk2 := FillZero(disk1[ROOT_DIR_SECTOR := Header(DiskInode(r, rootLength))], r, Sectors(rootLength));
          Done(State(used2, disk2, seq(ROOT_ENTRIES, i => Slot(0, "", false)),
                     [OpenInode(FREE_MAP_SECTOR, 1, false, 0, DiskInode(m, mapLength))],
                     map[0 := File(FREE_MAP_SECTOR, 0, false)], {}), true)
  }
}
