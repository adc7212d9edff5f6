/** What creating, opening and removing mean for the directory as a map and for the bytes
    behind a name. */
module FsNames {
  import opened Bitmap
  import opened DiskModel
  import opened FsSpec
  import opened FsOwnership
  import opened FsCache
  import opened FsInvariant
  import opened FsRuns
  import opened FsEffects
  import opened FsHistory
  import opened FsDirectory

  /** The directory can be opened, lookup gets as far as the name, and its inode can be held. */
  predicate MayOpen(st: State, name: string, mem: Memory) {
    && mem.dir && name in Entries(st.slots)
    && FindSlot(st.slots, name, 0).Some? && FindSlot(st.slots, name, 0).value < mem.look
    && (mem.inode || Entries(st.slots)[name] in OpenSet(st.open))
  }

  lemma MayHoldIs(st: State, name: string, mem: Memory)
    ensures MayHold(st, name, mem) <==> MayOpen(st, name, mem)
    ensures MayOpen(st, name, mem) ==> name in Entries(st.slots) && Lookup(st.slots, name, mem.look) == FindSlot(st.slots, name, 0)
                                       && st.slots[FindSlot(st.slots, name, 0).value].sector == Entries(st.slots)[name]
  {
    LookupIsMap(st.slots, name, mem.look);
    var k := Lookup(st.slots, name, mem.look);
    if k.Some? {
      FindIn(st.open, st.slots[k.value].sector);
    }
    hide Entries, FindSlot, FindOpen, OpenSet;
  }

  /** A free sector, and somewhere behind it free sectors in a row for `size` bytes. */
  ghost predicate RoomFor(used: seq<bool>, size: nat) {
    exists s: nat, start: nat, n: nat ::
      s < start && s < |used| && !used[s] && AllAre(used, start, n, false) && size <= n * SECTOR_SIZE
  }

  /** The directory, the inode and both writes of the free map get their memory. */
  predicate FileMemory(mem: Memory) {
    mem.dir && mem.inode && mem.map1 && mem.map2
  }

  /** The lowest free sector and the lowest run of free sectors once it is marked. */
  lemma RoomExactly(st: State, size: nat, mem: Memory)
    ensures HasRoom(st, size, mem) <==> FileMemory(mem) && RoomFor(st.used, size)
  {
    var used, n := st.used, Sectors(size);
    SectorsLeast(size, n);
    if Fit(used, 1, 0).Some? {
      var s := Fit(used, 1, 0).value;
      var used1 := Mark(used, s, 1, true);
      assert !used[s];
      if Fit(used1, n, 0).Some? {
        RunIsRoom(used, s, Fit(used1, n, 0).value, size);
      }
    }
    if s: nat, start: nat, m: nat :|
      s < start && s < |used| && !used[s] && AllAre(used, start, m, false) && size <= m * SECTOR_SIZE
    {
      SectorsLeast(size, m);
      RoomIsRun(used, s, start, m, n);
    }
  }

  lemma RunIsRoom(used: seq<bool>, s: nat, start: nat, size: nat)
    requires Fit(used, 1, 0) == Some(s) && s < |used| && AllAre(Mark(used, s, 1, true), start, Sectors(size), false)
    ensures RoomFor(used, size)
  {
    var n := Sectors(size);
    SectorsLeast(size, n);
    assert AllAre(used, s, 1, false) && !used[s];
    if n == 0 {
      assert AllAre(used, s + 1, 0, false);
    } else {
      assert !Mark(used, s, 1, true)[start];
      assert AllAre(used, start, 1, false);
      assert start > s;
      assert AllAre(used, start, n, false);
    }
  }

  lemma RoomIsRun(used: seq<bool>, s: nat, start: nat, m: nat, n: nat)
    requires s < start && s < |used| && !used[s] && AllAre(used, start, m, false) && n <= m
    ensures Fit(used, 1, 0).Some? && Fit(Mark(used, Fit(used, 1, 0).value, 1, true), n, 0).Some?
  {
    assert AllAre(used, s, 1, false);
    var first := Fit(used, 1, 0).value;
    assert first <= s;
    assert AllAre(Mark(used, first, 1, true), start, n, false);
  }

  /** filesys_create succeeds exactly with memory, a free sector for the inode and free
      sectors in a row behind it for the bytes, when the name is legal, lookup does not find
      it, and dir_add finds an entry to write.  It then adds the name for an inode that was
      not live, in place of the entry that it writes over, if any. */
  lemma CreateNames(st: State, name: string, size: nat, mem: Memory)
    requires Inv(st) && NamesOnce(st.slots)
    ensures |st.used| == |st.disk| && Create(st, name, size, mem).Done?
    ensures var r := Create(st, name, size, mem);
            && (r.ok <==> FileMemory(mem) && RoomFor(st.used, size) && MayAdd(st.slots, name, mem))
            && (r.ok ==> Fit(st.used, 1, 0).Some? && Fit(st.used, 1, 0).value !in Live(st.slots, st.open))
            && (r.ok && !AddsTwice(st.slots, name, mem) ==>
                  Target(st.slots, mem.scan).Some? && Entries(r.st.slots)
                    == (Entries(st.slots) - OldName(st.slots, Target(st.slots, mem.scan).value))[name := Fit(st.used, 1, 0).value])
            && (!r.ok ==> r.st.slots == st.slots)
            && r.st.files == st.files
  {
    hide *;
    CreateDone(st, name, size, mem);
    CreateOutcome(st, name, size, mem);
    RoomExactly(st, size, mem);
    AddSucceeds(st.slots, name, mem);
    if Create(st, name, size, mem).ok {
      var s := Fit(st.used, 1, 0).value;
      FreeIsNotLive(st, s);
      NotListed(st, s);
      SlotsAreOk(st);
      AddIsMap(st.slots, name, s, mem);
    }
  }

  lemma CreateDone(st: State, name: string, size: nat, mem: Memory)
    requires Inv(st)
    ensures |st.used| == |st.disk| && Create(st, name, size, mem).Done?
  {
    CreateGood(st, name, size, mem);
  }

  lemma NotListed(st: State, s: nat)
    requires s !in Live(st.slots, st.open)
    ensures s !in ListedSet(st.slots)
  {
  }

  lemma CreateOutcome(st: State, name: string, size: nat, mem: Memory)
    requires |st.used| == |st.disk| && Create(st, name, size, mem).Done?
    ensures var r := Create(st, name, size, mem);
            && (r.ok <==> HasRoom(st, size, mem) && CanAdd(st.slots, name, mem))
            && r.st.files == st.files
            && (!r.ok ==> r.st.slots == st.slots)
            && (r.ok ==>
                  && Fit(st.used, 1, 0).Some? && AllAre(st.used, Fit(st.used, 1, 0).value, 1, false)
                  && Target(st.slots, mem.scan).Some?
                  && r.st.slots == st.slots[Target(st.slots, mem.scan).value := Slot(Fit(st.used, 1, 0).value, name, true)])
  {
    CreateEffect(st, CreateCall(name, size, mem));
    hide Mark, AllAre, FillZero, Sectors, Lookup, Target, Range, Create;
  }

  // ---------------------------------------------------------------- unique names

  /** A create that adds a name already listed. */
  predicate NamesTwice(st: State, c: Call) {
    Creates(st, c) && AddsTwice(st.slots, c.name, c.mem)
  }

  /** A call keeps names unique exactly unless it is a create that adds a listed name. */
  lemma NamesAfter(st: State, c: Call, st': State)
    requires Inv(st) && NamesOnce(st.slots) && Follows(st, c, st')
    ensures NamesOnce(st'.slots) <==> !NamesTwice(st, c)
  {
    hide *;
    WasPossible(st, c, st');
    if c.CreateCall? {
      CreatedNames(st, c, st');
    } else {
      OtherNames(st, c, st');
    }
  }

  lemma CreatedNames(st: State, c: Call, st': State)
    requires c.CreateCall? && Inv(st) && NamesOnce(st.slots) && Follows(st, c, st')
    ensures NamesOnce(st'.slots) <==> !NamesTwice(st, c)
  {
    InvSizes(st, None);
    CreateEffect(st, c);
    if Creates(st, c) {
      var s := Fit(st.used, 1, 0).value;
      FreeIsNotLive(st, s);
      NotListed(st, s);
      SlotsAreOk(st);
      hide Inv, Step, NamesOnce, SlotsOk, ListedSet, Live, Fit, Target, FindSlot, Entries, HasRoom;
      AddIsMap(st.slots, c.name, s, c.mem);
    }
  }

  lemma OtherNames(st: State, c: Call, st': State)
    requires !c.CreateCall? && Inv(st) && NamesOnce(st.slots) && Follows(st, c, st')
    ensures NamesOnce(st'.slots) && !NamesTwice(st, c)
  {
    if c.RemoveCall? {
      RemoveEffect(st, c);
      if Removes(st, c) {
        OnceWithout(st.slots, EntryOf(st, c));
      }
      hide Inv, Step, NamesOnce, EntryOf, MayHold;
    } else {
      hide Inv, Step, NamesOnce;
      ByHandle(st, c, st');
    }
  }

  /** In a run names stay unique exactly as long as no create adds a listed name. */
  lemma {:induction false} RunNamesOnce(size: nat, calls: seq<Call>, states: seq<State>, i: nat)
    requires IsRun(size, calls, states) && i < |states|
    ensures (forall j :: 0 <= j <= i ==> NamesOnce(states[j].slots))
       <==> (forall k :: 0 <= k < i ==> !NamesTwice(states[k], calls[k]))
  {
    hide Inv, Possible, Step, Follows, Format, NamesOnce, NamesTwice;
    if i == 0 {
      StartsEmpty(size);
    } else {
      RunNamesOnce(size, calls, states, i - 1);
      ReachableIsGood(size, calls, states, i - 1, SeekCall(0, 0));
      if NamesOnce(states[i - 1].slots) {
        NamesAfter(states[i - 1], calls[i - 1], states[i]);
      }
    }
  }

  lemma StartsEmpty(size: nat)
    requires Format(size).Done?
    ensures NamesOnce(Format(size).st.slots)
  {
  }

  // ---------------------------------------------------------------- new bytes, open, remove

  /** The new file's bytes are `size` zeros. */
  lemma CreatedIsZero(st: State, name: string, size: nat, mem: Memory)
    requires Inv(st) && |st.used| == |st.disk| && Create(st, name, size, mem).Done? && Create(st, name, size, mem).ok
    ensures Fit(st.used, 1, 0).Some?
    ensures var st', s := Create(st, name, size, mem).st, Fit(st.used, 1, 0).value;
            && s in Live(st'.slots, st'.open) && Placed(st'.disk, s)
            && |FileBytes(st'.disk, s)| == size && forall i :: 0 <= i < size ==> FileBytes(st'.disk, s)[i] == 0
  {
    hide *;
    CreatedGood(st, name, size, mem);
    CreateOutcome(st, name, size, mem);
    var st', s := Create(st, name, size, mem).st, Fit(st.used, 1, 0).value;
    var k := Target(st.slots, mem.scan).value;
    ListedLive(st', k);
    LivePlaced(st', s);
    var start := NewExtent(st, name, size, mem);
    BytesAre(st'.disk, s);
    ZeroContents(st'.disk, DiskInode(start, size));
  }

  lemma CreatedGood(st: State, name: string, size: nat, mem: Memory)
    requires Inv(st)
    ensures |st.used| == |st.disk| && Create(st, name, size, mem).Done? && Inv(Create(st, name, size, mem).st)
  {
    CreateGood(st, name, size, mem);
  }

  lemma NewExtent(st: State, name: string, size: nat, mem: Memory) returns (start: nat)
    requires Inv(st) && |st.used| == |st.disk| && Create(st, name, size, mem).Done? && Create(st, name, size, mem).ok
    ensures Fit(st.used, 1, 0).Some?
    ensures var disk', s := Create(st, name, size, mem).st.disk, Fit(st.used, 1, 0).value;
            && s < |disk'| && disk'[s] == Header(DiskInode(start, size))
            && start + Sectors(size) <= |disk'|
            && forall x :: start <= x < start + Sectors(size) ==> disk'[x] == Data(Zeros())
  {
    hide *;
    CreatedDisk(st, name, size, mem);
    var s := Fit(st.used, 1, 0).value;
    var used1 := Mark(st.used, s, 1, true);
    start := Fit(used1, Sectors(size), 0).value;
    FreshSectors(st, s, start, size);
    NewlyStored(st.used, st.disk, s, DiskInode(start, size));
  }

  lemma CreatedDisk(st: State, name: string, size: nat, mem: Memory)
    requires |st.used| == |st.disk| && Create(st, name, size, mem).Done? && Create(st, name, size, mem).ok
    ensures Fit(st.used, 1, 0).Some? && AllAre(st.used, Fit(st.used, 1, 0).value, 1, false)
    ensures var s := Fit(st.used, 1, 0).value;
            var used1 := Mark(st.used, s, 1, true);
            var fit := Fit(used1, Sectors(size), 0);
            && fit.Some? && AllAre(used1, fit.value, Sectors(size), false)
            && s < |st.disk| && fit.value + Sectors(size) <= |st.disk|
            && Create(st, name, size, mem).st.disk == Stored(st.disk, s, DiskInode(fit.value, size))
  {
    hide FillZero, Sectors, Lookup, Target, Range, CanAdd, Overwritten;
  }

  lemma NewlyStored(used: seq<bool>, disk: seq<Sector>, s: nat, d: DiskInode)
    requires |used| == |disk| && Free(used, s, d)
    ensures var disk' := Stored(disk, s, d);
            && |disk'| == |disk| && disk'[s] == Header(d)
            && forall x :: d.start <= x < d.start + Sectors(d.length) ==> disk'[x] == Data(Zeros())
  {
  }

  lemma ZeroContents(disk: seq<Sector>, d: DiskInode)
    requires Readable(disk, d)
    requires forall x :: d.start <= x < d.start + Sectors(d.length) ==> disk[x] == Data(Zeros())
    ensures |Contents(disk, d)| == d.length && forall i :: 0 <= i < d.length ==> Contents(disk, d)[i] == 0
  {
    forall i | 0 <= i < d.length ensures Contents(disk, d)[i] == 0 {
      ByteOf(d, i);
      SectorsCover(d.length, i);
    }
  }

  /** filesys_open succeeds exactly for a listed name that lookup gets to, with memory at
      hand; the new handle is on the inode that the directory gives for the name, at position
      zero.  A failed open changes nothing. */
  lemma OpenNames(st: State, name: string, h: nat, mem: Memory)
    requires Inv(st) && h !in st.files
    ensures Open(st, name, h, mem).Done?
    ensures var r := Open(st, name, h, mem);
            && (r.ok <==> MayOpen(st, name, mem) && mem.file)
            && (r.ok ==> r.st.files == st.files[h := File(Entries(st.slots)[name], 0, false)])
            && (!r.ok ==> r.st == st)
            && r.st.slots == st.slots
  {
    OpenEffect(st, name, h, mem);
    MayHoldIs(st, name, mem);
    hide Inv, Entries, Open, FindSlot, OpenSet, RemovedSet, Lookup, MayHold, MayOpen;
  }

  /** filesys_remove succeeds exactly for a listed name that lookup gets to, with memory at
      hand, and takes the name out of the directory.  A failed remove changes nothing. */
  lemma RemoveNames(st: State, name: string, mem: Memory)
    requires Inv(st) && NamesOnce(st.slots)
    ensures Remove(st, name, mem).Done?
    ensures var r := Remove(st, name, mem);
            && (r.ok <==> MayOpen(st, name, mem) && mem.entry)
            && (r.ok ==> Entries(r.st.slots) == Entries(st.slots) - {name} && r.st.files == st.files && r.st.disk == st.disk)
            && (!r.ok ==> r.st == st)
  {
    hide *;
    RemoveDoes(st, name, mem);
    MayHoldIs(st, name, mem);
    if Remove(st, name, mem).ok {
      LookupIsMap(st.slots, name, 0);
      RemoveIsMap(st.slots, name);
      Unlisting(st, FindSlot(st.slots, name, 0).value, Remove(st, name, mem).st);
    }
  }

  lemma Unlisting(st: State, k: nat, st': State)
    requires Unlists(st, k, st')
    ensures k < |st.slots| && st'.slots == st.slots[k := st.slots[k].(inUse := false)]
    ensures st'.files == st.files && st'.disk == st.disk
  {
  }
}
