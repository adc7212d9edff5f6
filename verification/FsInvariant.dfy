/** What every call of the file system keeps, and so what holds in every reachable state. */
module FsInvariant {
  import opened Bitmap
  import opened DiskModel
  import opened InodeIO
  import opened FsSpec
  import opened FsOwnership
  import opened FsCache

  /** The two system inodes, the listed files and the files still open. */
  function Live(slots: seq<Slot>, open: seq<OpenInode>): set<nat> {
    {FREE_MAP_SECTOR, ROOT_DIR_SECTOR} + ListedSet(slots) + OpenSet(open)
  }

  ghost predicate SlotsOk(slots: seq<Slot>) {
    && (forall k :: 0 <= k < |slots| && slots[k].inUse ==> slots[k].sector >= 2 && 0 < |slots[k].name| <= NAME_MAX)
    && (forall j, k :: 0 <= j < k < |slots| && slots[j].inUse && slots[k].inUse ==> slots[j].sector != slots[k].sector)
  }

  ghost predicate InvWith(st: State, raw: Option<nat>) {
    && Owned(st.used, st.disk, Live(st.slots, st.open), st.leaked)
    && SlotsOk(st.slots)
    && CacheOk(st.disk, ListedSet(st.slots), st.open, st.files, raw)
  }

  ghost predicate Inv(st: State) {
    InvWith(st, None)
  }

  /** No assertion failed and the invariant holds afterwards. */
  ghost predicate Good(r: Result) {
    r.Done? && Inv(r.st)
  }

  lemma InvIs(st: State)
    requires Inv(st)
    ensures InvWith(st, None)
  {
  }

  lemma InvSizes(st: State, raw: Option<nat>)
    requires InvWith(st, raw)
    ensures |st.used| == |st.disk|
  {
  }

  // ---------------------------------------------------------------- marking and releasing

  /** Both releases of a removed file's sectors meet their assertion. */
  lemma ReleaseOwn(used: seq<bool>, disk: seq<Sector>, live: set<nat>, leaked: set<nat>, s: nat)
    requires Owned(used, disk, live, leaked) && s in live
    ensures s < |disk| && disk[s].Header?
    ensures var d := disk[s].inode;
            && Release(used, s, 1).Some?
            && Release(Release(used, s, 1).value, d.start, Sectors(d.length)).Some?
            && Owned(Release(Release(used, s, 1).value, d.start, Sectors(d.length)).value, disk, live - {s}, leaked)
  {
    assert Placed(disk, s);
    var d := disk[s].inode;
    assert Owns(disk, s, s);
    assert AllAre(used, s, 1, true);
    var used1 := Mark(used, s, 1, false);
    forall x | d.start <= x < d.start + Sectors(d.length) ensures used1[x] {
      assert Owns(disk, s, x);
    }
    DropLive(used, disk, live, leaked, s, Mark(used1, d.start, Sectors(d.length), false));
  }

  // ---------------------------------------------------------------- inode_close

  lemma CloseGood(st: State, s: nat)
    requires InvWith(st, Some(s))
    ensures FindOpen(st.open, s, 0).Some? && Good(CloseInode(st, s))
  {
    FindIn(st.open, s);
    var i := FindOpen(st.open, s, 0).value;
    SharedOrLast(st, s, i);
    hide InvWith, Owned, SlotsOk, CacheOk, Live;
    if st.open[i].openCnt != 1 {
      SharedCloseGood(st, s, i);
    } else {
      LastCloseGood(st, s, i);
    }
  }

  lemma SharedOrLast(st: State, s: nat, i: nat)
    requires InvWith(st, Some(s)) && i < |st.open| && st.open[i].sector == s
    ensures Faithful(st.disk, ListedSet(st.slots), st.open[i], st.files, Some(s))
  {
  }

  lemma SharedCloseGood(st: State, s: nat, i: nat)
    requires InvWith(st, Some(s)) && FindOpen(st.open, s, 0) == Some(i) && st.open[i].openCnt != 1
    ensures Good(CloseInode(st, s))
  {
    hide Owned, SlotsOk, CacheOk, ListedSet;
    CloseShared(st.disk, ListedSet(st.slots), st.open, st.files, i);
  }

  lemma LastCloseGood(st: State, s: nat, i: nat)
    requires InvWith(st, Some(s)) && FindOpen(st.open, s, 0) == Some(i) && st.open[i].openCnt == 1
    requires Faithful(st.disk, ListedSet(st.slots), st.open[i], st.files, Some(s))
    ensures Good(CloseInode(st, s))
  {
    var n, rest := st.open[i], st.open[..i] + st.open[i + 1..];
    RemovedIsUnlisted(st, i, Some(s));
    hide *;
    InvParts(st, Some(s));
    FoundAtPlace(st.open, s, i);
    CloseLast(st.disk, ListedSet(st.slots), st.open, st.files, i);
    LiveWithout(st.slots, st.open, rest, s);
    if n.removed {
      ReleaseOwn(st.used, st.disk, Live(st.slots, st.open), st.leaked, s);
    } else if s >= 2 && s !in ListedSet(st.slots) {
      LoseLive(st.used, st.disk, Live(st.slots, st.open), st.leaked, s);
    } else {
      assert st.leaked + {} == st.leaked;
    }
    LastCloseIs(st, s, i);
    InvFrom(CloseInode(st, s).st);
    IsGood(CloseInode(st, s));
  }

  lemma RemovedIsUnlisted(st: State, i: nat, raw: Option<nat>)
    requires i < |st.open| && Faithful(st.disk, ListedSet(st.slots), st.open[i], st.files, raw)
    ensures var n := st.open[i];
            && (n.removed ==> n.sector >= 2 && n.sector !in ListedSet(st.slots))
            && n.sector < |st.disk| && st.disk[n.sector] == Header(n.data)
  {
  }

  lemma InvParts(st: State, raw: Option<nat>)
    requires InvWith(st, raw)
    ensures Owned(st.used, st.disk, Live(st.slots, st.open), st.leaked) && SlotsOk(st.slots)
    ensures CacheOk(st.disk, ListedSet(st.slots), st.open, st.files, raw)
  {
  }

  lemma InvFrom(st: State)
    requires Owned(st.used, st.disk, Live(st.slots, st.open), st.leaked) && SlotsOk(st.slots)
    requires CacheOk(st.disk, ListedSet(st.slots), st.open, st.files, None)
    ensures Inv(st)
  {
  }

  lemma FoundAtPlace(open: seq<OpenInode>, s: nat, i: nat)
    requires FindOpen(open, s, 0) == Some(i)
    ensures i < |open| && open[i].sector == s && s in OpenSet(open)
  {
  }

  /** inode_close by the last holder. */
  lemma LastCloseIs(st: State, s: nat, i: nat)
    requires FindOpen(st.open, s, 0) == Some(i) && st.open[i].openCnt == 1
    requires s < |st.disk| && st.disk[s] == Header(st.open[i].data)
    ensures var n, rest := st.open[i], st.open[..i] + st.open[i + 1..];
            var r, used1 := CloseInode(st, s), Release(st.used, s, 1);
            if !n.removed then
              r == Done(st.(open := rest, leaked := st.leaked +
                            if s >= 2 && s !in ListedSet(st.slots) then SectorsOf(st.disk, s) else {}), true)
            else used1.Some? && Release(used1.value, n.data.start, Sectors(n.data.length)).Some? ==>
              r == Done(st.(open := rest, used := Release(used1.value, n.data.start, Sectors(n.data.length)).value), true)
  {
    hide FindOpen, Release, ListedSet, SectorsOf, Sectors;
  }

  lemma LiveWithout(slots: seq<Slot>, open: seq<OpenInode>, rest: seq<OpenInode>, s: nat)
    requires OpenSet(rest) == OpenSet(open) - {s} && s in OpenSet(open)
    ensures s in Live(slots, open)
    ensures Live(slots, rest) == if s >= 2 && s !in ListedSet(slots) then Live(slots, open) - {s} else Live(slots, open)
  {
    hide OpenSet, ListedSet;
  }

  // ---------------------------------------------------------------- open, reopen, deny, allow, close

  lemma FoundIsListed(slots: seq<Slot>, name: string)
    ensures var k := FindSlot(slots, name, 0); k.Some? ==> slots[k.value].sector in ListedSet(slots)
  {
  }

  lemma OpenSectorGood(st: State, s: nat)
    requires Inv(st) && s in Live(st.slots, st.open)
    ensures InvWith(st.(open := OpenSector(st.open, st.disk, s)), Some(s))
  {
    assert Placed(st.disk, s);
    OpenStep(st.disk, ListedSet(st.slots), st.open, st.files, s);
    assert Live(st.slots, OpenSector(st.open, st.disk, s)) == Live(st.slots, st.open);
  }

  lemma OpenFileGood(st: State, s: nat, h: nat, fileMem: bool)
    requires InvWith(st, Some(s)) && h !in st.files
    ensures FindOpen(st.open, s, 0).Some? && Good(OpenFile(st, s, h, fileMem))
  {
    CloseGood(st, s);
    HandOver(st.disk, ListedSet(st.slots), st.open, st.files, s, h);
  }

  lemma OpenGood(st: State, name: string, h: nat, mem: Memory)
    requires Inv(st) && h !in st.files
    ensures Good(Open(st, name, h, mem))
  {
    FoundIsListed(st.slots, name);
    var k := Lookup(st.slots, name, mem.look);
    if k.Some? {
      var s := st.slots[k.value].sector;
      OpenSectorGood(st, s);
      OpenFileGood(st.(open := OpenSector(st.open, st.disk, s)), s, h, mem.file);
    }
  }

  lemma FileIsOpen(st: State, f: nat)
    requires Inv(st) && f in st.files
    ensures IsOpenFile(st, f) && st.files[f].sector in OpenSet(st.open)
  {
    FindIn(st.open, st.files[f].sector);
  }

  lemma ReopenGood(st: State, f: nat, h: nat, mem: Memory)
    requires Inv(st) && f in st.files && h !in st.files
    ensures IsOpenFile(st, f) && Good(Reopen(st, f, h, mem))
  {
    FileIsOpen(st, f);
    var s := st.files[f].sector;
    OpenSectorGood(st, s);
    OpenFileGood(st.(open := OpenSector(st.open, st.disk, s)), s, h, mem.file);
  }

  lemma DenyGood(st: State, f: nat)
    requires Inv(st) && f in st.files
    ensures IsOpenFile(st, f) && Good(DenyWrite(st, f))
  {
    hide *;
    FileIsOpen(st, f);
    DenyCounted(st, f);
  }

  lemma DenyCounted(st: State, f: nat)
    requires Inv(st) && IsOpenFile(st, f)
    ensures Good(DenyWrite(st, f))
  {
    hide Owned, SlotsOk, CacheOk, ListedSet, OpenSet, FindOpen, DenyWrite;
    var i := FindOpen(st.open, st.files[f].sector, 0).value;
    DenyBounds(st.disk, ListedSet(st.slots), st.open, st.files, i, f);
    DenyStep(st, f, i);
    if !st.files[f].deny {
      SwitchGood(st, i, f, true);
    }
  }

  lemma DenyStep(st: State, f: nat, i: nat)
    requires IsOpenFile(st, f) && FindOpen(st.open, st.files[f].sector, 0) == Some(i)
    requires !st.files[f].deny ==> st.open[i].denyCnt + 1 <= st.open[i].openCnt
    ensures DenyWrite(st, f)
         == Done(if st.files[f].deny then st
                 else st.(files := st.files[f := st.files[f].(deny := true)],
                          open := st.open[i := st.open[i].(denyCnt := st.open[i].denyCnt + 1)]), true)
  {
  }

  lemma SwitchGood(st: State, i: nat, f: nat, deny: bool)
    requires Inv(st) && i < |st.open| && f in st.files
    requires st.files[f].sector == st.open[i].sector && st.files[f].deny != deny
    ensures Inv(st.(files := st.files[f := st.files[f].(deny := deny)],
                    open := st.open[i := st.open[i].(denyCnt := st.open[i].denyCnt + if deny then 1 else -1)]))
  {
    SwitchDeny(st.disk, ListedSet(st.slots), st.open, st.files, i, f, deny);
  }

  lemma AllowGood(st: State, f: nat)
    requires Inv(st) && f in st.files
    ensures IsOpenFile(st, f) && Good(AllowWrite(st, f))
    ensures var st1 := AllowWrite(st, f).st;
            f in st1.files && !st1.files[f].deny && st1.files[f].sector == st.files[f].sector
  {
    FileIsOpen(st, f);
    var i := FindOpen(st.open, st.files[f].sector, 0).value;
    DenyBounds(st.disk, ListedSet(st.slots), st.open, st.files, i, f);
    if st.files[f].deny {
      hide Owned, SlotsOk, CacheOk, ListedSet, OpenSet, FindOpen;
      SwitchGood(st, i, f, false);
    }
  }

  lemma FileCloseGood(st: State, f: nat)
    requires Inv(st) && f in st.files
    ensures IsOpenFile(st, f) && Good(Close(st, f))
  {
    AllowGood(st, f);
    var st1 := AllowWrite(st, f).st;
    TakeBack(st1.disk, ListedSet(st1.slots), st1.open, st1.files, f);
    CloseGood(st1.(files := st1.files - {f}), st.files[f].sector);
  }

  lemma SeekGood(st: State, f: nat, pos: nat)
    requires Inv(st) && f in st.files
    ensures IsOpenFile(st, f) && Good(Seek(st, f, pos))
  {
    FileIsOpen(st, f);
    PositionGood(st, f, pos);
  }

  // ---------------------------------------------------------------- write

  lemma PatchSameShape(disk: seq<Sector>, base: int, data: seq<byte>)
    ensures SameShape(disk, Patch(disk, base, data))
  {
  }

  lemma WriteGood(st: State, f: nat, data: seq<byte>, bounceOk: bool)
    requires Inv(st) && f in st.files
    ensures IsOpenFile(st, f) && Good(WriteFile(st, f, data, bounceOk))
  {
    hide *;
    FileIsOpen(st, f);
    var base, moved, pos := WriteShape(st, f, data, bounceOk);
    var st1 := st.(disk := Patch(st.disk, base, data[..moved]));
    PatchGood(st, base, data[..moved]);
    PositionGood(st1, f, pos);
    IsGood(WriteFile(st, f, data, bounceOk));
  }

  lemma WriteShape(st: State, f: nat, data: seq<byte>, bounceOk: bool) returns (base: int, moved: nat, pos: nat)
    requires IsOpenFile(st, f)
    ensures moved <= |data| && f in st.files
    ensures WriteFile(st, f, data, bounceOk)
         == Done(st.(disk := Patch(st.disk, base, data[..moved]), files := st.files[f := st.files[f].(pos := pos)]), true)
  {
    moved := Written(st, f, data, bounceOk);
    pos := st.files[f].pos + moved;
    base := InodeOf(st, f).data.start * SECTOR_SIZE + st.files[f].pos;
  }

  lemma IsGood(r: Result)
    requires r.Done? && Inv(r.st)
    ensures Good(r)
  {
  }

  lemma PositionGood(st: State, f: nat, pos: nat)
    requires Inv(st) && f in st.files
    ensures Inv(st.(files := st.files[f := st.files[f].(pos := pos)]))
  {
    MovePosition(st.disk, ListedSet(st.slots), st.open, st.files, f, pos);
  }

  lemma PatchGood(st: State, base: int, data: seq<byte>)
    requires Inv(st)
    ensures Inv(st.(disk := Patch(st.disk, base, data)))
  {
    var disk' := Patch(st.disk, base, data);
    PatchSameShape(st.disk, base, data);
    hide Patch;
    Rewrite(st.used, st.disk, Live(st.slots, st.open), st.leaked, disk');
    forall s | s in OpenSet(st.open) && s < |st.disk| ensures disk'[s] == st.disk[s] {
      assert s in Live(st.slots, st.open);
      assert Placed(st.disk, s);
    }
    CacheFrame(st.disk, disk', ListedSet(st.slots), ListedSet(st.slots), st.open, st.files, None);
  }

  // ---------------------------------------------------------------- create

  /** A directory entry written, over a free one or over one in use. */
  lemma ListSlot(slots: seq<Slot>, k: nat, s: nat, name: string)
    requires SlotsOk(slots) && k < |slots| && s >= 2 && s !in ListedSet(slots) && 0 < |name| <= NAME_MAX
    ensures SlotsOk(slots[k := Slot(s, name, true)])
    ensures ListedSet(slots[k := Slot(s, name, true)]) == ListedSet(slots) - NamedAt(slots, k) + {s}
  {
    var r := slots[k := Slot(s, name, true)];
    forall t ensures t in ListedSet(r) <==> t in ListedSet(slots) - NamedAt(slots, k) + {s} {
      assert r[k].inUse && r[k].sector == s;
      if t in ListedSet(slots) - NamedAt(slots, k) {
        var j :| 0 <= j < |slots| && slots[j].inUse && slots[j].sector == t;
        assert r[j] == slots[j];
      }
    }
    forall j | 0 <= j < |slots| && slots[j].inUse ensures slots[j].sector != s {
      assert slots[j].sector in ListedSet(slots);
    }
  }

  /** The file that directory entry `k` names, if it is in use. */
  function NamedAt(slots: seq<Slot>, k: nat): set<nat>
    requires k < |slots|
  {
    if slots[k].inUse then {slots[k].sector} else {}
  }

  /** A sector about to be used for a new inode, and its extent. */
  lemma FreshSectors(st: State, s: nat, start: nat, size: nat)
    requires Inv(st) && AllAre(st.used, s, 1, false)
    requires AllAre(Mark(st.used, s, 1, true), start, Sectors(size), false)
    ensures Free(st.used, s, DiskInode(start, size))
    ensures s !in Live(st.slots, st.open) && s >= 2
    ensures var used2 := Mark(Mark(st.used, s, 1, true), start, Sectors(size), true);
            && Grows(st.used, used2, {s} + Range(start, Sectors(size)))
            && Grows(st.used, Mark(used2, s, 1, false), Range(start, Sectors(size)))
            && AllAre(used2, s, 1, true)
  {
    var used1 := Mark(st.used, s, 1, true);
    assert !st.used[s];
    forall x | start <= x < start + Sectors(size) ensures !st.used[x] && x != s {
      assert !used1[x];
    }
    forall t | t in Live(st.slots, st.open) ensures t != s {
      assert Placed(st.disk, t);
      assert Owns(st.disk, t, t);
    }
    assert 0 in Live(st.slots, st.open) && 1 in Live(st.slots, st.open);
  }

  lemma FitFacts(used: seq<bool>, cnt: nat, writable: bool)
    ensures var r := Allocate(used, cnt, writable); r.Some? ==> AllAre(used, r.value, cnt, false)
  {
  }

  /** Marking a sector and giving it back changes nothing. */
  lemma MarkUnmark(used: seq<bool>, s: nat)
    requires AllAre(used, s, 1, false)
    ensures AllAre(Mark(used, s, 1, true), s, 1, true) && Mark(Mark(used, s, 1, true), s, 1, false) == used
  {
    assert !used[s];
  }

  lemma FileCreated(st: State, name: string, s: nat, d: DiskInode, used2: seq<bool>, k: nat)
    requires Inv(st) && Free(st.used, s, d) && s >= 2 && s !in Live(st.slots, st.open)
    requires Grows(st.used, used2, {s} + Range(d.start, Sectors(d.length)))
    requires 0 < |name| <= NAME_MAX && k < |st.slots|
    ensures Inv(st.(used := used2, disk := Stored(st.disk, s, d), slots := st.slots[k := Slot(s, name, true)],
                    leaked := st.leaked + Overwritten(st, k)))
  {
    var live := Live(st.slots, st.open);
    var disk' := Stored(st.disk, s, d);
    AddLive(st.used, st.disk, live, st.leaked, s, d, used2, {s} + Range(d.start, Sectors(d.length)));
    ListSlot(st.slots, k, s, name);
    var slots' := st.slots[k := Slot(s, name, true)];
    OpenUnchanged(st, s, d);
    CacheFrame(st.disk, disk', ListedSet(st.slots), ListedSet(slots'), st.open, st.files, None);
    EntryLost(st, s, d, used2, k, slots');
  }

  /** Who owns what after a new inode's entry was written over entry `k`. */
  lemma EntryLost(st: State, s: nat, d: DiskInode, used2: seq<bool>, k: nat, slots': seq<Slot>)
    requires Inv(st) && Free(st.used, s, d) && s >= 2 && s !in Live(st.slots, st.open) && k < |st.slots|
    requires Owned(used2, Stored(st.disk, s, d), Live(st.slots, st.open) + {s}, st.leaked)
    requires ListedSet(slots') == ListedSet(st.slots) - NamedAt(st.slots, k) + {s}
    ensures Owned(used2, Stored(st.disk, s, d), Live(slots', st.open), st.leaked + Overwritten(st, k))
  {
    hide *;
    FreeFits(st, s, d);
    var disk', live, t := Stored(st.disk, s, d), Live(st.slots, st.open), st.slots[k].sector;
    SlotsAreOk(st);
    LiveWith(st.slots, slots', st.open, s, k);
    WhatIsLost(st, k);
    if st.slots[k].inUse && t !in OpenSet(st.open) {
      EntryIsLive(st, k);
      KeepsSectors(st, s, d, t);
      LoseLive(used2, disk', live + {s}, st.leaked, t);
    } else {
      assert live + {s} - {} == live + {s} && st.leaked + {} == st.leaked;
    }
  }

  lemma FreeFits(st: State, s: nat, d: DiskInode)
    requires Inv(st) && Free(st.used, s, d)
    ensures s < |st.disk| && d.start + Sectors(d.length) <= |st.disk|
  {
  }

  lemma SlotsAreOk(st: State)
    requires Inv(st)
    ensures SlotsOk(st.slots)
  {
  }

  lemma WhatIsLost(st: State, k: nat)
    requires k < |st.slots|
    ensures var t := st.slots[k].sector;
            Overwritten(st, k) == if st.slots[k].inUse && t !in OpenSet(st.open) then SectorsOf(st.disk, t) else {}
  {
    FindIn(st.open, st.slots[k].sector);
  }

  lemma EntryIsLive(st: State, k: nat)
    requires Inv(st) && k < |st.slots| && st.slots[k].inUse
    ensures st.slots[k].sector in Live(st.slots, st.open) && st.slots[k].sector >= 2
  {
  }

  lemma LiveWith(slots: seq<Slot>, slots': seq<Slot>, open: seq<OpenInode>, s: nat, k: nat)
    requires SlotsOk(slots) && k < |slots| && s !in Live(slots, open) && s >= 2
    requires ListedSet(slots') == ListedSet(slots) - NamedAt(slots, k) + {s}
    ensures Live(slots', open)
         == Live(slots, open) + {s} - (if slots[k].inUse && slots[k].sector !in OpenSet(open) then {slots[k].sector} else {})
  {
    if slots[k].inUse {
      assert slots[k].sector in ListedSet(slots);
    }
    hide OpenSet, ListedSet;
  }

  lemma KeepsSectors(st: State, s: nat, d: DiskInode, t: nat)
    requires Inv(st) && Free(st.used, s, d) && t in Live(st.slots, st.open)
    ensures SectorsOf(Stored(st.disk, s, d), t) == SectorsOf(st.disk, t)
  {
    StoredKeeps(st.used, st.disk, s, d);
    KeepsPlaced(st.used, st.disk, Stored(st.disk, s, d), Live(st.slots, st.open), st.leaked, t);
  }

  lemma OpenUnchanged(st: State, s: nat, d: DiskInode)
    requires Inv(st) && Free(st.used, s, d) && s !in Live(st.slots, st.open)
    ensures |Stored(st.disk, s, d)| == |st.disk|
    ensures forall t :: t in OpenSet(st.open) ==> t != s && t < |st.disk| && Stored(st.disk, s, d)[t] == st.disk[t]
  {
    StoredKeeps(st.used, st.disk, s, d);
    forall t | t in OpenSet(st.open) ensures t != s && t < |st.disk| && Stored(st.disk, s, d)[t] == st.disk[t] {
      assert t in Live(st.slots, st.open);
      KeepsPlaced(st.used, st.disk, Stored(st.disk, s, d), Live(st.slots, st.open), st.leaked, t);
    }
  }

  lemma ExtentLeaked(st: State, s: nat, d: DiskInode, used3: seq<bool>)
    requires Inv(st) && Free(st.used, s, d) && s !in Live(st.slots, st.open)
    requires Grows(st.used, used3, Range(d.start, Sectors(d.length)))
    ensures Inv(st.(used := used3, disk := Stored(st.disk, s, d), leaked := st.leaked + Range(d.start, Sectors(d.length))))
  {
    AddLeak(st.used, st.disk, Live(st.slots, st.open), st.leaked, s, d, used3, Range(d.start, Sectors(d.length)));
    OpenUnchanged(st, s, d);
    CacheFrame(st.disk, Stored(st.disk, s, d), ListedSet(st.slots), ListedSet(st.slots), st.open, st.files, None);
  }

  lemma CreateGood(st: State, name: string, size: nat, mem: Memory)
    requires Inv(st)
    ensures |st.used| == |st.disk| && Good(Create(st, name, size, mem))
  {
    InvSizes(st, None);
    var at := Allocate(st.used, 1, mem.map1);
    if mem.dir && at.Some? {
      CreateAtGood(st, name, size, at.value, mem);
    }
  }

  lemma CreateAtGood(st: State, name: string, size: nat, s: nat, mem: Memory)
    requires Inv(st) && AllAre(st.used, s, 1, false) && |st.used| == |st.disk|
    ensures Good(CreateAt(st, name, size, s, mem))
  {
    var used1 := Mark(st.used, s, 1, true);
    var fit := Allocate(used1, Sectors(size), mem.map2);
    MarkUnmark(st.used, s);
    if mem.inode && fit.Some? {
      var d := DiskInode(fit.value, size);
      FitFacts(used1, Sectors(size), mem.map2);
      FreshSectors(st, s, fit.value, size);
      var used2 := Mark(used1, fit.value, Sectors(size), true);
      if CanAdd(st.slots, name, mem) {
        FileCreated(st, name, s, d, used2, Target(st.slots, mem.scan).value);
      } else {
        ExtentLeaked(st, s, d, Mark(used2, s, 1, false));
      }
    }
  }

  // ---------------------------------------------------------------- remove

  lemma UnlistSlot(slots: seq<Slot>, k: nat)
    requires SlotsOk(slots) && k < |slots| && slots[k].inUse
    ensures SlotsOk(slots[k := slots[k].(inUse := false)])
    ensures ListedSet(slots[k := slots[k].(inUse := false)]) == ListedSet(slots) - {slots[k].sector}
  {
    var r := slots[k := slots[k].(inUse := false)];
    forall t ensures t in ListedSet(r) <==> t in ListedSet(slots) && t != slots[k].sector {
      if t in ListedSet(slots) && t != slots[k].sector {
        var j :| 0 <= j < |slots| && slots[j].inUse && slots[j].sector == t;
        assert r[j] == slots[j];
      }
    }
  }

  lemma RemoveGood(st: State, name: string, mem: Memory)
    requires Inv(st)
    ensures Good(Remove(st, name, mem))
  {
    var k := Lookup(st.slots, name, mem.look);
    if k.Some? {
      FoundIsListed(st.slots, name);
      var s := st.slots[k.value].sector;
      OpenSectorGood(st, s);
      var st1 := st.(open := OpenSector(st.open, st.disk, s));
      RemovedGood(st1, k.value);
      CloseGood(st1, s);
    }
  }

  /** The removed inode, still held by the call itself. */
  lemma UnlistedInv(st: State, k: nat)
    requires k < |st.slots| && st.slots[k].inUse && InvWith(st, Some(st.slots[k].sector))
    ensures var s := st.slots[k].sector;
            && FindOpen(st.open, s, 0).Some?
            && var i := FindOpen(st.open, s, 0).value;
               InvWith(st.(slots := st.slots[k := st.slots[k].(inUse := false)],
                           open := st.open[i := st.open[i].(removed := true)]), Some(s))
  {
    var s := st.slots[k].sector;
    FindIn(st.open, s);
    var i := FindOpen(st.open, s, 0).value;
    UnlistSlot(st.slots, k);
    Unlist(st.disk, ListedSet(st.slots), st.open, st.files, i);
    var st' := st.(slots := st.slots[k := st.slots[k].(inUse := false)],
                   open := st.open[i := st.open[i].(removed := true)]);
    assert Live(st'.slots, st'.open) == Live(st.slots, st.open);
  }

  lemma RemovedGood(st: State, k: nat)
    requires k < |st.slots| && st.slots[k].inUse && InvWith(st, Some(st.slots[k].sector))
    ensures var s := st.slots[k].sector;
            && FindOpen(st.open, s, 0).Some?
            && var i := FindOpen(st.open, s, 0).value;
               var st' := st.(slots := st.slots[k := st.slots[k].(inUse := false)],
                              open := st.open[i := st.open[i].(removed := true)]);
               FindOpen(st'.open, s, 0).Some? && Good(CloseInode(st', s))
  {
    hide *;
    UnlistedInv(st, k);
    var s := st.slots[k].sector;
    var i := FindOpen(st.open, s, 0).value;
    CloseGood(st.(slots := st.slots[k := st.slots[k].(inUse := false)],
                  open := st.open[i := st.open[i].(removed := true)]), s);
  }
}
