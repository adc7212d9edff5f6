/** The effect of each call on the parts of the state. */
module FsEffects {
  import opened Bitmap
  import opened DiskModel
  import opened InodeIO
  import opened FsSpec
  import opened FsOwnership
  import opened FsCache
  import opened FsInvariant
  import opened FsRuns

  // ---------------------------------------------------------------- which inodes are live

  function HandleSectors(files: map<nat, File>): set<nat> {
    set f | f in files :: files[f].sector
  }

  /** The listed files and those with a struct file, next to the two system inodes. */
  function Known(slots: seq<Slot>, files: map<nat, File>): set<nat> {
    {FREE_MAP_SECTOR, ROOT_DIR_SECTOR} + ListedSet(slots) + HandleSectors(files)
  }

  lemma HandledOne(files: map<nat, File>, s: nat)
    requires |Handles(files, s)| > 0
    ensures s in HandleSectors(files)
  {
    var f :| f in Handles(files, s);
  }

  lemma LiveIsKnown(st: State)
    requires Inv(st)
    ensures Live(st.slots, st.open) == Known(st.slots, st.files)
  {
    hide Owned, SlotsOk, Handles, Deniers;
    forall i | 0 <= i < |st.open| ensures st.open[i].sector in HandleSectors(st.files) {
      assert Faithful(st.disk, ListedSet(st.slots), st.open[i], st.files, None);
      HandledOne(st.files, st.open[i].sector);
    }
    assert OpenSet(st.open) == HandleSectors(st.files);
  }

  /** A create that gets all it needs and finds an entry to write. */
  predicate Creates(st: State, c: Call) {
    c.CreateCall? && c.size >= 0 && HasRoom(st, c.size, c.mem) && CanAdd(st.slots, c.name, c.mem)
  }

  /** A remove that finds the name, can hold its inode and can write the entry. */
  predicate Removes(st: State, c: Call) {
    c.RemoveCall? && MayHold(st, c.name, c.mem) && c.mem.entry
  }

  /** The entry that a create or a remove writes. */
  function EntryOf(st: State, c: Call): (k: nat)
    requires Creates(st, c) || Removes(st, c)
    ensures k < |st.slots| && (Removes(st, c) ==> st.slots[k].inUse)
  {
    if c.CreateCall? then Target(st.slots, c.mem.scan).value else Lookup(st.slots, c.name, c.mem.look).value
  }

  /** The file that loses its name with this call. */
  function Delisted(st: State, c: Call): set<nat> {
    if Creates(st, c) || Removes(st, c) then NamedAt(st.slots, EntryOf(st, c)) else {}
  }

  /** The file that loses its last name or handle with this call. */
  function Gone(st: State, c: Call): set<nat>
    requires Possible(st, c)
  {
    if c.CloseCall? then
      var s := st.files[c.f].sector;
      if s >= 2 && s !in ListedSet(st.slots) && Handles(st.files, s) == {c.f} then {s} else {}
    else Delisted(st, c) - HandleSectors(st.files)
  }

  function Born(st: State, c: Call): set<nat> {
    if Creates(st, c) then {Fit(st.used, 1, 0).value} else {}
  }

  /** Of the files that go, the one whose sectors stay marked: nobody removed it, another
      file's entry was written over its own. */
  function Forgotten(st: State, c: Call): set<nat>
    requires Possible(st, c)
  {
    if c.RemoveCall? then {} else Gone(st, c) - RemovedSet(st.open)
  }

  lemma NewHandle(files: map<nat, File>, h: nat, f: File)
    requires h !in files
    ensures HandleSectors(files[h := f]) == HandleSectors(files) + {f.sector}
  {
    var r := files[h := f];
    forall s ensures s in HandleSectors(r) <==> s in HandleSectors(files) || s == f.sector {
      assert r[h].sector == f.sector;
      if s in HandleSectors(files) {
        var g :| g in files && files[g].sector == s;
        assert g in r && r[g] == files[g];
      }
    }
  }

  lemma SameSector(files: map<nat, File>, f: nat, x: File)
    requires f in files && x.sector == files[f].sector
    ensures HandleSectors(files[f := x]) == HandleSectors(files)
  {
    var r := files[f := x];
    forall s ensures s in HandleSectors(r) <==> s in HandleSectors(files) {
      if s in HandleSectors(files) {
        var g :| g in files && files[g].sector == s;
        assert g in r && r[g].sector == s;
      }
    }
  }

  lemma LostHandle(files: map<nat, File>, f: nat)
    requires f in files
    ensures var s := files[f].sector;
            HandleSectors(files - {f}) == if Handles(files, s) == {f} then HandleSectors(files) - {s} else HandleSectors(files)
  {
    var r, s := files - {f}, files[f].sector;
    assert f in Handles(files, s);
    if Handles(files, s) != {f} {
      var g :| g in Handles(files, s) && g != f;
      assert g in r && r[g].sector == s;
    }
    forall t ensures t in HandleSectors(r) <==> t in HandleSectors(files) && !(t == s && Handles(files, s) == {f}) {
      if t in HandleSectors(r) && t == s {
        var g :| g in r && r[g].sector == t;
        assert g in Handles(files, s);
      }
      if t in HandleSectors(files) && t != s {
        var g :| g in files && files[g].sector == t;
        assert g in r;
      }
    }
  }

  lemma HandledIff(files: map<nat, File>, s: nat)
    ensures s in HandleSectors(files) <==> Handles(files, s) != {}
    ensures forall f :: f in files && files[f].sector == s ==> s in HandleSectors(files)
  {
    if s in HandleSectors(files) {
      var f :| f in files && files[f].sector == s;
      assert f in Handles(files, s);
    }
  }

  // ---------------------------------------------------------------- the removed inodes

  lemma SameRemoved(open: seq<OpenInode>, i: nat, n: OpenInode)
    requires i < |open| && n.sector == open[i].sector && n.removed == open[i].removed
    ensures RemovedSet(open[i := n]) == RemovedSet(open)
  {
    var r := open[i := n];
    forall s ensures s in RemovedSet(r) <==> s in RemovedSet(open) {
      if s in RemovedSet(open) {
        var j :| 0 <= j < |open| && open[j].removed && open[j].sector == s;
        assert r[j].removed && r[j].sector == s;
      }
    }
  }

  lemma OpenedRemoved(open: seq<OpenInode>, disk: seq<Sector>, s: nat)
    ensures RemovedSet(OpenSector(open, disk, s)) == RemovedSet(open)
  {
    match FindOpen(open, s, 0)
    case Some(i) => SameRemoved(open, i, open[i].(openCnt := open[i].openCnt + 1));
    case None =>
      var r := OpenSector(open, disk, s);
      forall t ensures t in RemovedSet(r) <==> t in RemovedSet(open) {
        if t in RemovedSet(open) {
          var j :| 0 <= j < |open| && open[j].removed && open[j].sector == t;
          assert r[j + 1] == open[j];
        }
      }
  }

  lemma MarkedRemoved(open: seq<OpenInode>, i: nat)
    requires i < |open|
    ensures RemovedSet(open[i := open[i].(removed := true)]) == RemovedSet(open) + {open[i].sector}
  {
    var r := open[i := open[i].(removed := true)];
    forall s ensures s in RemovedSet(r) <==> s in RemovedSet(open) || s == open[i].sector {
      assert r[i].removed && r[i].sector == open[i].sector;
      if s in RemovedSet(open) {
        var j :| 0 <= j < |open| && open[j].removed && open[j].sector == s;
        assert r[j].removed && r[j].sector == s;
      }
    }
  }

  lemma DroppedRemoved(open: seq<OpenInode>, i: nat)
    requires DistinctSectors(open) && i < |open|
    ensures RemovedSet(open[..i] + open[i + 1..]) == RemovedSet(open) - {open[i].sector}
  {
    var rest := open[..i] + open[i + 1..];
    DropEntry(open, i);
    forall s ensures s in RemovedSet(rest) <==> s in RemovedSet(open) && s != open[i].sector {
      if s in RemovedSet(open) && s != open[i].sector {
        var j :| 0 <= j < |open| && open[j].removed && open[j].sector == s;
        assert rest[if j < i then j else j - 1] == open[j];
      }
      if s in RemovedSet(rest) {
        var j :| 0 <= j < |rest| && rest[j].removed && rest[j].sector == s;
        assert rest[j] == open[if j < i then j else j + 1];
      }
    }
  }

  lemma RemovedIsOpen(open: seq<OpenInode>)
    ensures RemovedSet(open) <= OpenSet(open)
  {
  }

  lemma RemovedIff(open: seq<OpenInode>, i: nat)
    requires DistinctSectors(open) && i < |open|
    ensures open[i].sector in RemovedSet(open) <==> open[i].removed
  {
  }

  /** A removed inode has no directory entry. */
  lemma RemovedUnlisted(st: State, raw: Option<nat>)
    requires InvWith(st, raw)
    ensures forall s :: s in RemovedSet(st.open) ==> s >= 2 && s !in ListedSet(st.slots)
  {
    forall s | s in RemovedSet(st.open) ensures s >= 2 && s !in ListedSet(st.slots) {
      var i :| 0 <= i < |st.open| && st.open[i].removed && st.open[i].sector == s;
      assert Faithful(st.disk, ListedSet(st.slots), st.open[i], st.files, raw);
    }
  }

  // ---------------------------------------------------------------- inode_close

  /** What inode_close leaves alone, and what it does to the removed inodes and to the
      sectors without an owner. */
  lemma CloseInodeEffect(st: State, s: nat)
    requires InvWith(st, Some(s))
    ensures FindOpen(st.open, s, 0).Some? && CloseInode(st, s).Done? && CloseInode(st, s).ok
    ensures var st' := CloseInode(st, s).st;
            && st'.slots == st.slots && st'.files == st.files && st'.disk == st.disk
            && RemovedSet(st'.open) == RemovedSet(st.open) * OpenSet(st'.open)
            && st'.leaked == st.leaked + if Handles(st.files, s) == {} && s !in RemovedSet(st.open) then Unnamed(st, s) else {}
  {
    hide *;
    InvParts(st, Some(s));
    CloseGood(st, s);
    GoodIsDone(CloseInode(st, s));
    var i := FindOpen(st.open, s, 0).value;
    FoundAtPlace(st.open, s, i);
    CloseShape(st, s, i);
    Holders(st, s, i);
    var n := st.open[i].(openCnt := st.open[i].openCnt - 1);
    if st.open[i].openCnt != 1 {
      SameRemoved(st.open, i, n);
      CloseShared(st.disk, ListedSet(st.slots), st.open, st.files, i);
    } else {
      CloseLast(st.disk, ListedSet(st.slots), st.open, st.files, i);
      DroppedRemoved(st.open, i);
    }
  }

  lemma CloseShape(st: State, s: nat, i: nat)
    requires FindOpen(st.open, s, 0) == Some(i) && CloseInode(st, s).Done?
    ensures CloseInode(st, s).ok
    ensures var st', n := CloseInode(st, s).st, st.open[i];
            && st'.slots == st.slots && st'.files == st.files && st'.disk == st.disk
            && st'.open == (if n.openCnt != 1 then st.open[i := n.(openCnt := n.openCnt - 1)] else st.open[..i] + st.open[i + 1..])
            && st'.leaked == st.leaked + if n.openCnt == 1 && !n.removed then Unnamed(st, s) else {}
  {
    hide FindOpen, Release, Unnamed;
    assert st.leaked + {} == st.leaked;
  }

  /** The inode that a call holds: whether others hold it too, and whether it is removed. */
  lemma Holders(st: State, s: nat, i: nat)
    requires InvWith(st, Some(s)) && i < |st.open| && st.open[i].sector == s
    ensures DistinctSectors(st.open)
    ensures st.open[i].openCnt == 1 <==> Handles(st.files, s) == {}
    ensures s in RemovedSet(st.open) <==> st.open[i].removed
    ensures RemovedSet(st.open) <= OpenSet(st.open)
  {
    assert Faithful(st.disk, ListedSet(st.slots), st.open[i], st.files, Some(s));
    RemovedIff(st.open, i);
    RemovedIsOpen(st.open);
    hide Handles;
  }

  // ---------------------------------------------------------------- references

  lemma BumpBack(open: seq<OpenInode>, i: nat)
    requires i < |open|
    ensures var up := open[i := open[i].(openCnt := open[i].openCnt + 1)];
            up[i := up[i].(openCnt := up[i].openCnt - 1)] == open
  {
    var up := open[i := open[i].(openCnt := open[i].openCnt + 1)];
    assert up[i].(openCnt := up[i].openCnt - 1) == open[i];
  }

  /** inode_close undoes inode_open, whether the inode was open before or not. */
  lemma OpenThenClose(st: State, s: nat)
    requires Inv(st) && s in Live(st.slots, st.open)
    ensures FindOpen(OpenSector(st.open, st.disk, s), s, 0).Some?
    ensures CloseInode(st.(open := OpenSector(st.open, st.disk, s)), s) == Done(st, true)
  {
    var at := FindOpen(st.open, s, 0);
    if at.Some? {
      AtIs(st.open, s);
      OpenSectorGood(st, s);
      Counted(st, at.value);
      EntryAt(st.(open := OpenSector(st.open, st.disk, s)), s, at.value);
      hide *;
      SharedUndone(st, s, at.value);
    } else {
      FindIn(st.open, s);
      hide *;
      NewUndone(st, s);
    }
  }

  lemma AtIs(open: seq<OpenInode>, s: nat)
    requires FindOpen(open, s, 0).Some?
    ensures var i := FindOpen(open, s, 0).value; i < |open| && open[i].sector == s
    ensures forall disk :: |OpenSector(open, disk, s)| == |open| && OpenSector(open, disk, s)[FindOpen(open, s, 0).value].sector == s
  {
  }

  lemma SharedUndone(st: State, s: nat, i: nat)
    requires i < |st.open| && st.open[i].openCnt >= 1 && FindOpen(st.open, s, 0) == Some(i)
    requires FindOpen(OpenSector(st.open, st.disk, s), s, 0) == Some(i)
    ensures CloseInode(st.(open := OpenSector(st.open, st.disk, s)), s) == Done(st, true)
  {
    hide FindOpen;
    BumpBack(st.open, i);
  }

  lemma NewUndone(st: State, s: nat)
    requires FindOpen(st.open, s, 0).None? && s in Live(st.slots, st.open)
    ensures FindOpen(OpenSector(st.open, st.disk, s), s, 0) == Some(0)
    ensures CloseInode(st.(open := OpenSector(st.open, st.disk, s)), s) == Done(st, true)
  {
    var open' := OpenSector(st.open, st.disk, s);
    assert open'[..0] + open'[1..] == st.open;
    assert FindOpen(open', s, 0) == Some(0);
    FindIn(st.open, s);
    hide FindOpen, ListedSet, OpenSet;
    assert Unnamed(st.(open := open'), s) == {};
    assert st.leaked + {} == st.leaked;
  }

  lemma Counted(st: State, i: nat)
    requires Inv(st) && i < |st.open|
    ensures st.open[i].openCnt >= 1
  {
    assert Faithful(st.disk, ListedSet(st.slots), st.open[i], st.files, None);
  }

  lemma EntryAt(st: State, s: nat, i: nat)
    requires InvWith(st, Some(s)) && i < |st.open| && st.open[i].sector == s
    ensures FindOpen(st.open, s, 0) == Some(i)
  {
    FindIs(st.open, i);
  }

  lemma FreeIsNotLive(st: State, s: nat)
    requires Inv(st) && AllAre(st.used, s, 1, false)
    ensures s !in Live(st.slots, st.open) && s >= 2
  {
    var used1 := Mark(st.used, s, 1, true);
    assert AllAre(used1, s, Sectors(0), false);
    FreshSectors(st, s, s, 0);
  }

  // ---------------------------------------------------------------- filesys_create

  /** A create that fails only at the directory, after its sectors were taken. */
  predicate FailsAtDirectory(st: State, c: Call) {
    c.CreateCall? && c.size >= 0 && HasRoom(st, c.size, c.mem) && !CanAdd(st.slots, c.name, c.mem)
  }

  /** The extent that a create takes. */
  function Extent(st: State, c: Call): set<nat>
    requires c.CreateCall? && c.size >= 0 && HasRoom(st, c.size, c.mem)
  {
    Range(Fit(Mark(st.used, Fit(st.used, 1, 0).value, 1, true), Sectors(c.size), 0).value, Sectors(c.size))
  }

  /** filesys_create succeeds exactly when it gets sectors and memory and the directory
      takes the entry. */
  lemma CreateEffect(st: State, c: Call)
    requires c.CreateCall? && Possible(st, c) && |st.used| == |st.disk| && Step(st, c).Done?
    ensures var r := Step(st, c);
            && (r.ok <==> Creates(st, c))
            && r.st.files == st.files && r.st.open == st.open
            && (Creates(st, c) ==>
                  && AllAre(st.used, Fit(st.used, 1, 0).value, 1, false)
                  && r.st.slots == st.slots[EntryOf(st, c) := Slot(Fit(st.used, 1, 0).value, c.name, true)]
                  && r.st.leaked == st.leaked + Overwritten(st, EntryOf(st, c)))
            && (!Creates(st, c) ==>
                  && r.st.slots == st.slots
                  && r.st.leaked == st.leaked + if FailsAtDirectory(st, c) then Extent(st, c) else {})
  {
    hide Mark, AllAre, FillZero, Sectors, Lookup, Target, Range, Overwritten;
    assert st.leaked + {} == st.leaked;
  }

  // ---------------------------------------------------------------- filesys_open, file_reopen

  /** `st'` has at most one struct file more than `st`, on an inode with a name or a handle. */
  ghost predicate MoreHandles(st: State, h: nat, st': State) {
    && st'.slots == st.slots && st'.disk == st.disk && st'.leaked == st.leaked
    && RemovedSet(st'.open) == RemovedSet(st.open)
    && (st'.files == st.files
        || exists s :: s in Known(st.slots, st.files) && st'.files == st.files[h := File(s, 0, false)])
  }

  /** What opening a sector and then a struct file on it does, whatever fails. */
  lemma OpenFileEffect(st: State, s: nat, h: nat, fileMem: bool)
    requires Inv(st) && s in Live(st.slots, st.open)
    ensures var st1 := st.(open := OpenSector(st.open, st.disk, s));
            && FindOpen(st1.open, s, 0).Some?
            && OpenFile(st1, s, h, fileMem)
                 == if fileMem then Done(st1.(files := st.files[h := File(s, 0, false)]), true) else Done(st, false)
  {
    OpenThenClose(st, s);
    hide Inv, Live, OpenSector, FindOpen, CloseInode;
  }

  lemma OneMoreHandle(st: State, s: nat, h: nat)
    requires Inv(st) && s in Live(st.slots, st.open)
    ensures MoreHandles(st, h, st.(open := OpenSector(st.open, st.disk, s), files := st.files[h := File(s, 0, false)]))
  {
    LiveIsKnown(st);
    OpenedRemoved(st.open, st.disk, s);
    hide Inv, Live, OpenSector, RemovedSet, Known;
  }

  lemma NoMoreHandles(st: State, h: nat)
    ensures MoreHandles(st, h, st)
  {
  }

  lemma OpenEffect(st: State, name: string, h: nat, mem: Memory)
    requires Inv(st)
    ensures var r := Open(st, name, h, mem);
            && r.Done? && MoreHandles(st, h, r.st)
            && (r.ok <==> MayHold(st, name, mem) && mem.file)
            && (r.ok ==> r.st.files == st.files[h := File(st.slots[Lookup(st.slots, name, mem.look).value].sector, 0, false)])
            && (!r.ok ==> r.st == st)
  {
    NoMoreHandles(st, h);
    var k := Lookup(st.slots, name, mem.look);
    if k.Some? {
      var s := st.slots[k.value].sector;
      FoundIsListed(st.slots, name);
      ListedLive(st, k.value);
      OpenFileEffect(st, s, h, mem.file);
      OneMoreHandle(st, s, h);
    }
    hide Inv, OpenFile, OpenSector, FindOpen, Lookup, MoreHandles;
  }

  lemma ListedLive(st: State, k: nat)
    requires k < |st.slots| && st.slots[k].inUse
    ensures st.slots[k].sector in Live(st.slots, st.open)
  {
  }

  lemma ReopenEffect(st: State, f: nat, h: nat, mem: Memory)
    requires Inv(st) && f in st.files
    ensures IsOpenFile(st, f) && Reopen(st, f, h, mem).Done? && MoreHandles(st, h, Reopen(st, f, h, mem).st)
  {
    NoMoreHandles(st, h);
    FileIsOpen(st, f);
    OpenFileEffect(st, st.files[f].sector, h, mem.file);
    OneMoreHandle(st, st.files[f].sector, h);
    hide Inv, OpenFile, OpenSector, FindOpen, MoreHandles;
  }

  // ---------------------------------------------------------------- file_close

  lemma AllowIsInv(st: State, f: nat)
    requires Inv(st) && f in st.files
    ensures IsOpenFile(st, f) && AllowWrite(st, f).Done?
    ensures var st1, s := AllowWrite(st, f).st, st.files[f].sector;
            && f in st1.files && st1.files - {f} == st.files - {f}
            && InvWith(st1.(files := st1.files - {f}), Some(s))
            && st1.slots == st.slots && st1.disk == st.disk && st1.leaked == st.leaked
            && RemovedSet(st1.open) == RemovedSet(st.open)
  {
    hide *;
    AllowGood(st, f);
    AllowShape(st, f);
    var st1 := AllowWrite(st, f).st;
    InvParts(st1, None);
    TakeBack(st1.disk, ListedSet(st1.slots), st1.open, st1.files, f);
    InvWithFrom(st1.(files := st1.files - {f}), Some(st.files[f].sector));
  }

  lemma InvWithFrom(st: State, raw: Option<nat>)
    requires Owned(st.used, st.disk, Live(st.slots, st.open), st.leaked) && SlotsOk(st.slots)
    requires CacheOk(st.disk, ListedSet(st.slots), st.open, st.files, raw)
    ensures InvWith(st, raw)
  {
  }

  lemma AllowShape(st: State, f: nat)
    requires IsOpenFile(st, f) && Good(AllowWrite(st, f))
    ensures f in st.files && AllowWrite(st, f).Done?
    ensures var st1 := AllowWrite(st, f).st;
            && InvWith(st1, None)
            && f in st1.files && st1.files - {f} == st.files - {f}
            && st1.slots == st.slots && st1.disk == st.disk && st1.leaked == st.leaked
            && RemovedSet(st1.open) == RemovedSet(st.open)
  {
    hide InvWith, RemovedSet, FindOpen;
    var st1, i := AllowWrite(st, f).st, FindOpen(st.open, st.files[f].sector, 0).value;
    SameRemoved(st.open, i, st.open[i].(denyCnt := st.open[i].denyCnt - 1));
    assert st1.files - {f} == st.files - {f};
  }

  lemma CloseEffect(st: State, f: nat)
    requires Inv(st) && f in st.files
    ensures IsOpenFile(st, f) && Close(st, f).Done?
    ensures var st', s := Close(st, f).st, st.files[f].sector;
            && st'.slots == st.slots && st'.files == st.files - {f} && st'.disk == st.disk
            && RemovedSet(st'.open) == RemovedSet(st.open) * OpenSet(st'.open)
            && st'.leaked == st.leaked
                 + if Handles(st.files - {f}, s) == {} && s !in RemovedSet(st.open) then Unnamed(st, s) else {}
  {
    AllowIsInv(st, f);
    var st1 := AllowWrite(st, f).st;
    var st2 := st1.(files := st1.files - {f});
    CloseInodeEffect(st2, st.files[f].sector);
    assert Unnamed(st2, st.files[f].sector) == Unnamed(st, st.files[f].sector);
    hide InvWith, Inv, RemovedSet, CloseInode, AllowWrite, OpenSet, Unnamed, Handles;
  }

  // ---------------------------------------------------------------- filesys_remove

  function UnlistOne(slots: seq<Slot>, k: nat): seq<Slot>
    requires k < |slots|
  {
    slots[k := slots[k].(inUse := false)]
  }

  /** Erasing an entry and closing its inode. */
  lemma UnlistEffect(st: State, k: nat)
    requires Inv(st) && k < |st.slots| && st.slots[k].inUse
    ensures var s, r := st.slots[k].sector, CloseInode(Unlisted(st, k), st.slots[k].sector);
            && r.Done? && r.ok
            && r.st.slots == UnlistOne(st.slots, k) && r.st.files == st.files && r.st.disk == st.disk
            && r.st.leaked == st.leaked
            && RemovedSet(r.st.open) == (RemovedSet(st.open) + {s}) * OpenSet(r.st.open)
  {
    var s := st.slots[k].sector;
    ListedLive(st, k);
    OpenSectorGood(st, s);
    var st1 := st.(open := OpenSector(st.open, st.disk, s));
    UnlistedInv(st1, k);
    var i := FindOpen(st1.open, s, 0).value;
    OpenedRemoved(st.open, st.disk, s);
    MarkedRemoved(st1.open, i);
    CloseInodeEffect(Unlisted(st, k), s);
    hide InvWith, Inv, RemovedSet, CloseInode, OpenSet, Unnamed, Handles, FindOpen, OpenSector;
    assert s in RemovedSet(Unlisted(st, k).open);
    assert st.leaked + {} == st.leaked;
  }

  /** filesys_remove succeeds exactly when it finds the name, can hold its inode and can
      write the entry; otherwise it changes nothing. */
  lemma RemoveDoes(st: State, name: string, mem: Memory)
    requires Inv(st)
    ensures Remove(st, name, mem).Done?
    ensures var r := Remove(st, name, mem);
            && (r.ok <==> MayHold(st, name, mem) && mem.entry)
            && (!r.ok ==> r.st == st)
            && (r.ok ==> Unlists(st, Lookup(st.slots, name, mem.look).value, r.st))
  {
    var k := Lookup(st.slots, name, mem.look);
    if k.Some? {
      FoundIsListed(st.slots, name);
      ListedLive(st, k.value);
      OpenThenClose(st, st.slots[k.value].sector);
      UnlistEffect(st, k.value);
    }
    hide Inv, RemovedSet, OpenSet, OpenSector, Unlisted, CloseInode, FindOpen, Lookup, UnlistOne;
  }

  /** `st'` lacks entry `k`, whose file is marked removed as long as it is open. */
  ghost predicate Unlists(st: State, k: nat, st': State) {
    && k < |st.slots| && st'.slots == UnlistOne(st.slots, k) && st'.files == st.files && st'.disk == st.disk
    && st'.leaked == st.leaked
    && RemovedSet(st'.open) == (RemovedSet(st.open) + {st.slots[k].sector}) * OpenSet(st'.open)
  }

  lemma RemoveEffect(st: State, c: Call)
    requires Inv(st) && c.RemoveCall?
    ensures var r := Step(st, c);
            && r.Done? && (r.ok <==> Removes(st, c))
            && (!r.ok ==> r.st == st)
            && (r.ok ==>
                  && r.st.slots == UnlistOne(st.slots, EntryOf(st, c)) && r.st.files == st.files && r.st.disk == st.disk
                  && r.st.leaked == st.leaked
                  && RemovedSet(r.st.open) == (RemovedSet(st.open) + Delisted(st, c)) * OpenSet(r.st.open))
  {
    RemoveDoes(st, c.name, c.mem);
    hide Inv, RemovedSet, OpenSet, Remove, Lookup, UnlistOne;
  }

  // ---------------------------------------------------------------- the other calls

  lemma FileEffect(st: State, c: Call)
    requires c.DenyCall? || c.AllowCall? || c.WriteCall? || c.SeekCall?
    requires Possible(st, c) && Step(st, c).Done?
    ensures var st' := Step(st, c).st;
            && st'.slots == st.slots && st'.leaked == st.leaked && RemovedSet(st'.open) == RemovedSet(st.open)
            && exists x: File :: x.sector == st.files[c.f].sector && st'.files == st.files[c.f := x]
  {
    var st' := Step(st, c).st;
    assert st'.files == st.files[c.f := st'.files[c.f]];
    if c.DenyCall? || c.AllowCall? {
      var i := FindOpen(st.open, st.files[c.f].sector, 0).value;
      var n := st.open[i];
      SameRemoved(st.open, i, n.(denyCnt := n.denyCnt + if c.DenyCall? then 1 else -1));
    }
  }
}
