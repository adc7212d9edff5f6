/** Which devices can be formatted, and calls on a fresh device that lose sectors or names. */
module FsExamples {
  import opened Bitmap
  import opened DiskModel
  import opened FsSpec
  import opened FsOwnership
  import opened FsCache
  import opened FsInvariant
  import opened FsRuns
  import opened FsEffects
  import opened FsHistory
  import opened FsDirectory
  import opened FsNames

  // ---------------------------------------------------------------- formatting

  /** The first `n` sectors are marked and no others. */
  ghost predicate FirstOnly(used: seq<bool>, n: nat) {
    n <= |used| && forall x :: 0 <= x < |used| ==> used[x] == (x < n)
  }

  lemma FitBehind(used: seq<bool>, n: nat, cnt: nat)
    requires FirstOnly(used, n) && cnt > 0
    ensures Fit(used, cnt, 0) == if n + cnt <= |used| then Some(n) else None
    ensures n + cnt <= |used| ==> FirstOnly(Mark(used, n, cnt, true), n + cnt)
  {
    if n + cnt <= |used| {
      assert AllAre(used, n, cnt, false);
    }
    BeforeTaken(used, n, cnt, Fit(used, cnt, 0));
  }

  lemma BeforeTaken(used: seq<bool>, n: nat, cnt: nat, r: Option<nat>)
    requires FirstOnly(used, n) && cnt > 0 && (r.Some? ==> AllAre(used, r.value, cnt, false))
    ensures r.Some? ==> n <= r.value && r.value + cnt <= |used|
  {
    assert r.Some? ==> !used[r.value];
  }

  /** The two system inodes, the free map and the root directory. */
  function SystemSectors(size: nat): nat {
    3 + Sectors(MapBytes(size))
  }

  lemma MapSectors(size: nat)
    requires size >= 2
    ensures Sectors(MapBytes(size)) >= 1
    ensures SystemSectors(size) <= size <==> size >= 4
  {
    var q := (size + 31) / 32;
    assert MapBytes(size) == q * 4 && 32 * q <= size + 31 && q >= 1;
    var m := Sectors(MapBytes(size));
    assert 512 * m <= 4 * q + 511 && m >= 1;
  }

  /** Formatting succeeds exactly on devices of at least four sectors, and marks the first
      ones only. */
  lemma FormatSizes(size: nat)
    ensures Format(size).Done? <==> size >= 4
    ensures size >= 4 ==> SystemSectors(size) <= size && FirstOnly(Format(size).st.used, SystemSectors(size))
  {
    if size >= 2 {
      var used0, m := seq(size, i => i < 2), Sectors(MapBytes(size));
      MapSectors(size);
      FitBehind(used0, 2, m);
      if 2 + m <= size {
        FitBehind(Mark(used0, 2, m, true), 2 + m, 1);
      }
      assert Sectors(ROOT_ENTRIES * ENTRY_SIZE) == 1;
      hide Fit, Mark, FillZero, Sectors, MapBytes, FirstOnly;
    }
  }

  /** The free map has a bit for each sector, in the least number of words of four bytes. */
  lemma MapBytesLeast(size: nat, words: nat)
    ensures size <= 32 * words <==> MapBytes(size) <= 4 * words
    ensures MapBytes(size) % 4 == 0
    ensures 4 <= size <= 4096 ==> SystemSectors(size) == 4
  {
    var q := (size + 31) / 32;
    assert size + 31 == 32 * q + (size + 31) % 32 && MapBytes(size) == q * 4;
    if 4 <= size <= 4096 {
      assert 1 <= q <= 128;
      SectorsLeast(MapBytes(size), 1);
      SectorsLeast(MapBytes(size), 0);
    }
  }

  // ---------------------------------------------------------------- creates on a fresh device

  /** No allocation of a call fails. */
  const PLENTY: Memory := Memory(true, true, true, true, true, ROOT_ENTRIES, ROOT_ENTRIES, true)

  lemma RoomBehind(st: State, n: nat, c: Call)
    requires c.CreateCall? && c.size >= 0 && FileMemory(c.mem)
    requires FirstOnly(st.used, n) && n + 1 + Sectors(c.size) <= |st.used|
    ensures Fit(st.used, 1, 0) == Some(n) && HasRoom(st, c.size, c.mem)
    ensures c.size > 0 ==> Extent(st, c) == Range(n + 1, Sectors(c.size))
    ensures c.size == 0 ==> Extent(st, c) == {}
  {
    FitBehind(st.used, n, 1);
    if c.size > 0 {
      FitBehind(Mark(st.used, n, 1, true), n + 1, Sectors(c.size));
    } else {
      assert AllAre(Mark(st.used, n, 1, true), 0, 0, false);
    }
  }

  lemma RoomBehindFirst(used: seq<bool>, n: nat, length: nat)
    requires FirstOnly(used, n)
    ensures RoomFor(used, length) <==> n < |used| && length <= (|used| - n - 1) * SECTOR_SIZE
  {
    if s: nat, start: nat, m: nat :|
      s < start && s < |used| && !used[s] && AllAre(used, start, m, false) && length <= m * SECTOR_SIZE
    {
      assert n <= s && (m > 0 ==> start + m <= |used|);
      assert m <= |used| - n - 1;
    }
    if n < |used| {
      assert !used[n] && AllAre(used, n + 1, |used| - n - 1, false);
    }
  }

  /** On a fresh device a file can be created exactly if one sector for its inode and the
      bytes of all others hold it. */
  lemma FreshCreate(size: nat, length: nat)
    requires size >= 4
    ensures Format(size).Done? && |Format(size).st.used| == |Format(size).st.disk|
    ensures var r := Create(Format(size).st, "a", length, PLENTY);
            r.Done? && (r.ok <==> SystemSectors(size) < size && length <= (size - SystemSectors(size) - 1) * SECTOR_SIZE)
  {
    Fresh(size);
    var st := Format(size).st;
    CreateNames(st, "a", length, PLENTY);
    RoomBehindFirst(st.used, SystemSectors(size), length);
    EnoughMemory(st.slots, "a", PLENTY);
    AddSucceeds(st.slots, "a", PLENTY);
    PlentyIs();
    hide *;
  }

  lemma PlentyIs()
    ensures FileMemory(PLENTY) && PLENTY.look >= ROOT_ENTRIES && PLENTY.scan >= ROOT_ENTRIES && PLENTY.entry
  {
  }

  lemma Fresh(size: nat)
    requires size >= 4
    ensures Format(size).Done? && Inv(Format(size).st) && NamesOnce(Format(size).st.slots)
    ensures var st := Format(size).st;
            && |st.used| == size && FirstOnly(st.used, SystemSectors(size)) && SystemSectors(size) <= size
            && st.leaked == {} && OpenSet(st.open) == {FREE_MAP_SECTOR} && |st.slots| == ROOT_ENTRIES && forall k :: 0 <= k < ROOT_ENTRIES ==> !st.slots[k].inUse
  {
    FormatSizes(size);
    FormatGood(size);
    FormatCache(size);
    hide Inv, CacheOk, SlotsOk, ListedSet, OpenSet, Fit, Mark, FillZero, Sectors, MapBytes, FirstOnly;
  }

  lemma Does(st: State, c: Call)
    requires c.CreateCall? && c.size >= 0 && Inv(st)
    ensures Possible(st, c) && Follows(st, c, Step(st, c).st)
  {
    StepGood(st, c);
    hide Inv, Step;
  }

  /** A create of a file with data whose name is empty loses the data sectors. */
  lemma EmptyNameLeaks(size: nat, length: nat)
    requires size >= 4 && 0 < length && SystemSectors(size) + 1 + Sectors(length) <= size
    ensures Format(size).Done?
    ensures var st, c := Format(size).st, CreateCall("", length, PLENTY);
            && FailsAtDirectory(st, c) && Step(st, c).Done? && !Step(st, c).ok
            && Step(st, c).st.leaked == Range(SystemSectors(size) + 1, Sectors(length)) != {}
  {
    Fresh(size);
    var st, c := Format(size).st, CreateCall("", length, PLENTY);
    RoomBehind(st, SystemSectors(size), c);
    FailsWith(st, c);
  }

  lemma FailsWith(st: State, c: Call)
    requires c.CreateCall? && c.size > 0 && Inv(st) && HasRoom(st, c.size, c.mem) && !CanAdd(st.slots, c.name, c.mem)
    requires st.leaked == {}
    ensures FailsAtDirectory(st, c) && Step(st, c).Done? && !Step(st, c).ok
    ensures Step(st, c).st.leaked == Extent(st, c) != {}
  {
    Does(st, c);
    InvSizes(st, None);
    CreateEffect(st, c);
    ExtentIsFree(st, c);
    hide Inv, Step, HasRoom, CanAdd, Extent;
  }

  /** So does the create of a legal new name, with room in the directory, when the entry's
      write gets no bounce buffer. */
  lemma NoBufferLeaks(size: nat, length: nat)
    requires size >= 4 && 0 < length && SystemSectors(size) + 1 + Sectors(length) <= size
    ensures Format(size).Done?
    ensures var st, c := Format(size).st, CreateCall("a", length, PLENTY.(entry := false));
            && CanAdd(st.slots, "a", PLENTY) && FailsAtDirectory(st, c) && Step(st, c).Done?
            && Step(st, c).st.leaked == Range(SystemSectors(size) + 1, Sectors(length)) != {}
  {
    Fresh(size);
    var st, c := Format(size).st, CreateCall("a", length, PLENTY.(entry := false));
    RoomBehind(st, SystemSectors(size), c);
    FailsWith(st, c);
    EnoughMemory(st.slots, "a", PLENTY);
    hide Inv, Step;
  }

  /** What holds after the empty file "a" has been created on a fresh device. */
  ghost predicate WithOne(st: State, size: nat) {
    && Inv(st) && NamesOnce(st.slots) && st.leaked == {} && SystemSectors(size) !in OpenSet(st.open)
    && |st.used| == size && FirstOnly(st.used, SystemSectors(size) + 1)
    && |st.slots| == ROOT_ENTRIES && st.slots[0] == Slot(SystemSectors(size), "a", true)
    && forall k :: 0 < k < ROOT_ENTRIES ==> !st.slots[k].inUse
  }

  lemma AfterFirst(size: nat)
    requires size >= 4 && SystemSectors(size) + 2 <= size
    ensures Format(size).Done? && Step(Format(size).st, CreateCall("a", 0, PLENTY)).Done?
    ensures WithOne(Step(Format(size).st, CreateCall("a", 0, PLENTY)).st, size)
  {
    Fresh(size);
    FirstCreated(Format(size).st, size);
  }

  lemma FirstCreated(st: State, size: nat)
    requires Inv(st) && NamesOnce(st.slots) && st.leaked == {} && OpenSet(st.open) == {FREE_MAP_SECTOR}
    requires |st.used| == size && FirstOnly(st.used, SystemSectors(size)) && SystemSectors(size) + 2 <= size
    requires |st.slots| == ROOT_ENTRIES && forall k :: 0 <= k < ROOT_ENTRIES ==> !st.slots[k].inUse
    ensures Step(st, CreateCall("a", 0, PLENTY)).Done?
    ensures WithOne(Step(st, CreateCall("a", 0, PLENTY)).st, size)
  {
    var c, n := CreateCall("a", 0, PLENTY), SystemSectors(size);
    RoomBehind(st, n, c);
    FirstCreates(st, c);
    InvSizes(st, None);
    assert FREE_MAP_SECTOR < n && 0 < ROOT_ENTRIES;
    Does(st, c);
    UsedAfter(st, c, n);
    hide *;
    var st1 := Step(st, c).st;
    FollowsGood(st, c, st1);
    CreateEffect(st, c);
    NamesAfter(st, c, st1);
    assert {} + {} == st.leaked;
    IsWithOne(st, st1, size);
  }

  lemma IsWithOne(st: State, st1: State, size: nat)
    requires OpenSet(st.open) == {FREE_MAP_SECTOR}
    requires |st.slots| == ROOT_ENTRIES && forall k :: 0 <= k < ROOT_ENTRIES ==> !st.slots[k].inUse
    requires Inv(st1) && NamesOnce(st1.slots) && st1.leaked == {} && st1.open == st.open
    requires |st1.used| == size && FirstOnly(st1.used, SystemSectors(size) + 1)
    requires st1.slots == st.slots[0 := Slot(SystemSectors(size), "a", true)]
    ensures WithOne(st1, size)
  {
    assert FREE_MAP_SECTOR < SystemSectors(size);
    hide Inv, OpenSet, NamesOnce, FirstOnly, SystemSectors;
  }

  lemma FirstCreates(st: State, c: Call)
    requires c == CreateCall("a", 0, PLENTY) && HasRoom(st, 0, PLENTY)
    requires |st.slots| == ROOT_ENTRIES && forall k :: 0 <= k < ROOT_ENTRIES ==> !st.slots[k].inUse
    ensures Creates(st, c) && EntryOf(st, c) == 0 && !NamesTwice(st, c) && Overwritten(st, 0) == {}
  {
    EnoughMemory(st.slots, "a", PLENTY);
    assert FindSlot(st.slots, "a", 0) == None;
    assert FreeSlot(st.slots, 0) == Some(0);
    hide HasRoom;
  }

  lemma UsedAfter(st: State, c: Call, n: nat)
    requires c.CreateCall? && c.size == 0 && Creates(st, c) && Possible(st, c) && |st.used| == |st.disk| && Step(st, c).Done?
    requires FirstOnly(st.used, n) && n < |st.used| && Fit(st.used, 1, 0) == Some(n)
    ensures |Step(st, c).st.used| == |st.used| && FirstOnly(Step(st, c).st.used, n + 1)
  {
    assert Sectors(0) == 0;
    hide Lookup, Target, Overwritten, FillZero;
  }

  /** If no entry can be read when "a" is looked up, it is added a second time. */
  lemma AddedTwice(size: nat)
    requires size >= 4 && SystemSectors(size) + 2 <= size
    ensures Format(size).Done? && Step(Format(size).st, CreateCall("a", 0, PLENTY)).Done?
    ensures var st, c := Step(Format(size).st, CreateCall("a", 0, PLENTY)).st, CreateCall("a", 0, PLENTY.(look := 0));
            && NamesOnce(st.slots) && NamesTwice(st, c)
            && Step(st, c).Done? && Step(st, c).ok && !NamesOnce(Step(st, c).st.slots)
  {
    AfterFirst(size);
    hide *;
    SecondAdded(Step(Format(size).st, CreateCall("a", 0, PLENTY)).st, size);
  }

  lemma SecondAdded(st: State, size: nat)
    requires WithOne(st, size) && SystemSectors(size) + 2 <= size
    ensures var c := CreateCall("a", 0, PLENTY.(look := 0));
            && NamesOnce(st.slots) && NamesTwice(st, c)
            && Step(st, c).Done? && Step(st, c).ok && !NamesOnce(Step(st, c).st.slots)
  {
    var c := CreateCall("a", 0, PLENTY.(look := 0));
    RoomBehind(st, SystemSectors(size) + 1, c);
    FirstTaken(st.slots);
    Does(st, c);
    InvSizes(st, None);
    CreateEffect(st, c);
    NamesAfter(st, c, Step(st, c).st);
    hide Inv, HasRoom, Step, NamesOnce, FindSlot, FreeSlot, FirstOnly, Fit, OpenSet;
  }

  lemma FirstTaken(slots: seq<Slot>)
    requires |slots| == ROOT_ENTRIES && slots[0].inUse && slots[0].name == "a"
    requires forall k :: 0 < k < ROOT_ENTRIES ==> !slots[k].inUse
    ensures FindSlot(slots, "a", 0) == Some(0) && FindSlot(slots, "b", 0) == None && FreeSlot(slots, 0) == Some(1)
  {
  }

  /** If no entry can be read when a free one is sought, "b" is written over "a", whose inode
      sector is lost. */
  lemma WrittenOver(size: nat)
    requires size >= 4 && SystemSectors(size) + 2 <= size
    ensures Format(size).Done? && Step(Format(size).st, CreateCall("a", 0, PLENTY)).Done?
    ensures var st, c := Step(Format(size).st, CreateCall("a", 0, PLENTY)).st, CreateCall("b", 0, PLENTY.(scan := 0));
            && "a" in Entries(st.slots) && WritesOver(st, c) && st.leaked == {}
            && Step(st, c).Done? && Step(st, c).ok && "a" !in Entries(Step(st, c).st.slots)
            && SystemSectors(size) in Step(st, c).st.leaked
  {
    AfterFirst(size);
    hide *;
    SecondWritten(Step(Format(size).st, CreateCall("a", 0, PLENTY)).st, size);
  }

  lemma SecondWritten(st: State, size: nat)
    requires WithOne(st, size) && SystemSectors(size) + 2 <= size
    ensures var c := CreateCall("b", 0, PLENTY.(scan := 0));
            && "a" in Entries(st.slots) && WritesOver(st, c) && st.leaked == {}
            && Step(st, c).Done? && Step(st, c).ok && "a" !in Entries(Step(st, c).st.slots)
            && SystemSectors(size) in Step(st, c).st.leaked
  {
    var c := CreateCall("b", 0, PLENTY.(scan := 0));
    RoomBehind(st, SystemSectors(size) + 1, c);
    FirstTaken(st.slots);
    hide Inv, HasRoom, Step, NamesOnce, FindSlot, FreeSlot, FirstOnly, Fit, OpenSet, WritesOver, Entries;
    Overwrites(st, c, SystemSectors(size));
  }

  lemma Overwrites(st: State, c: Call, s: nat)
    requires Inv(st) && NamesOnce(st.slots) && |st.slots| == ROOT_ENTRIES && st.slots[0] == Slot(s, "a", true)
    requires s !in OpenSet(st.open) && FindSlot(st.slots, "b", 0) == None
    requires c.CreateCall? && c.name == "b" && c.mem.scan == 0 && c.mem.entry && c.size >= 0 && HasRoom(st, c.size, c.mem)
    requires FreeSlot(st.slots, 0) == Some(1)
    ensures WritesOver(st, c) && Step(st, c).Done? && Step(st, c).ok
    ensures "a" in Entries(st.slots) && "a" !in Entries(Step(st, c).st.slots) && s in Step(st, c).st.leaked
  {
    Does(st, c);
    InvSizes(st, None);
    CreateEffect(st, c);
    WhatIsLost(st, 0);
    EntryIsLive(st, 0);
    LiveSectors(st, s);
    FindIsFound(st.slots, 0);
    LookupIsMap(st.slots, "a", 0);
    GoneName(st.slots, 0, Step(st, c).st.slots[0]);
    hide Inv, Step, HasRoom, NamesOnce, Live, SectorsOf, Overwritten, Entries, OpenSet, FindSlot, FreeSlot;
  }
}
