/** What a call does to the files that are live: which appear, which go, whose bytes
    change, and which sectors stay marked for nothing. */
module FsHistory {
  import opened Bitmap
  import opened DiskModel
  import opened InodeIO
  import opened FsSpec
  import opened FsOwnership
  import opened FsCache
  import opened FsInvariant
  import opened FsRuns
  import opened FsEffects

  // ---------------------------------------------------------------- the sets a call changes

  lemma OpenIsHandled(st: State)
    requires Inv(st)
    ensures OpenSet(st.open) == HandleSectors(st.files)
    ensures forall s :: s in RemovedSet(st.open) ==> s in OpenSet(st.open) && s >= 2 && s !in ListedSet(st.slots)
  {
    hide Owned, SlotsOk, Handles, Deniers;
    RemovedUnlisted(st, None);
    RemovedIsOpen(st.open);
    forall i | 0 <= i < |st.open| ensures st.open[i].sector in HandleSectors(st.files) {
      assert Faithful(st.disk, ListedSet(st.slots), st.open[i], st.files, None);
      HandledOne(st.files, st.open[i].sector);
    }
  }

  lemma BornIsNew(st: State, c: Call)
    requires Inv(st)
    ensures forall s :: s in Born(st, c) ==> s !in Live(st.slots, st.open) && s >= 2
  {
    if Creates(st, c) {
      FreeIsNotLive(st, Fit(st.used, 1, 0).value);
    }
    hide Inv, Live, Creates;
  }

  /** The file that loses its name is a listed one. */
  lemma EntryListed(st: State, c: Call)
    requires SlotsOk(st.slots)
    ensures Delisted(st, c) <= ListedSet(st.slots) && forall s :: s in Delisted(st, c) ==> s >= 2
  {
    if Creates(st, c) || Removes(st, c) {
      var k := EntryOf(st, c);
      hide EntryOf, Creates, Removes;
    }
  }

  /** A create that writes over a directory entry in use. */
  predicate WritesOver(st: State, c: Call) {
    Creates(st, c) && st.slots[EntryOf(st, c)].inUse
  }

  lemma GoneByEntry(st: State, c: Call)
    requires (c.RemoveCall? || c.CreateCall?) && Possible(st, c)
    ensures Gone(st, c) == Delisted(st, c) - HandleSectors(st.files)
    ensures Removes(st, c) ==> !WritesOver(st, c)
    ensures c.RemoveCall? ==> Born(st, c) == {} && !Creates(st, c)
    ensures c.CreateCall? ==> !Removes(st, c)
    ensures !Removes(st, c) && !WritesOver(st, c) ==> Delisted(st, c) == {}
  {
    hide HandleSectors, HasRoom, CanAdd, MayHold;
  }

  lemma CreateAfter(st: State, c: Call, st': State)
    requires c.CreateCall? && Inv(st) && Follows(st, c, st')
    ensures st'.files == st.files && st'.open == st.open
    ensures ListedSet(st'.slots) == ListedSet(st.slots) - Delisted(st, c) + Born(st, c)
  {
    InvSizes(st, None);
    SlotsAreOk(st);
    CreateEffect(st, c);
    if Creates(st, c) {
      var s := Fit(st.used, 1, 0).value;
      FreeIsNotLive(st, s);
      assert 0 < |c.name| <= NAME_MAX;
      hide Inv, Step, SlotsOk, RemovedSet, ListedSet, OpenSet, Creates, EntryOf;
      ListSlot(st.slots, EntryOf(st, c), s, c.name);
    }
  }

  lemma RemoveAfter(st: State, c: Call, st': State)
    requires c.RemoveCall? && Inv(st) && Follows(st, c, st')
    ensures st'.files == st.files && st'.disk == st.disk && st'.leaked == st.leaked
    ensures ListedSet(st'.slots) == ListedSet(st.slots) - Delisted(st, c)
    ensures RemovedSet(st'.open)
         == if Removes(st, c) then (RemovedSet(st.open) + Delisted(st, c)) * OpenSet(st'.open) else RemovedSet(st.open)
  {
    SlotsAreOk(st);
    RemoveEffect(st, c);
    hide Inv, Step, SlotsOk, RemovedSet, ListedSet, OpenSet, Removes, EntryOf;
    if Removes(st, c) {
      UnlistSlot(st.slots, EntryOf(st, c));
    }
  }

  /** What a call that writes a directory entry does to the listed, removed and open files. */
  lemma ByEntry(st: State, c: Call, st': State)
    requires (c.CreateCall? || c.RemoveCall?) && Inv(st) && Follows(st, c, st')
    ensures st'.files == st.files && Inv(st') && Possible(st, c)
    ensures ListedSet(st'.slots) == ListedSet(st.slots) - Delisted(st, c) + Born(st, c)
    ensures RemovedSet(st'.open)
         == (RemovedSet(st.open) + if Removes(st, c) then Delisted(st, c) else {}) * OpenSet(st'.open)
  {
    hide *;
    WasPossible(st, c, st');
    FollowsGood(st, c, st');
    OpenIsHandled(st);
    OpenIsHandled(st');
    GoneByEntry(st, c);
    if c.CreateCall? {
      CreateAfter(st, c, st');
    } else {
      RemoveAfter(st, c, st');
    }
    assert RemovedSet(st.open) + {} == RemovedSet(st.open);
  }

  lemma WasPossible(st: State, c: Call, st': State)
    requires Follows(st, c, st')
    ensures Possible(st, c)
  {
  }

  lemma MoreAfter(st: State, c: Call, st': State)
    requires c.OpenCall? || c.ReopenCall?
    requires Inv(st) && Follows(st, c, st')
    ensures MoreHandles(st, c.h, st')
  {
    hide Inv, Open, Reopen, MoreHandles;
    if c.OpenCall? {
      OpenEffect(st, c.name, c.h, c.mem);
    } else {
      ReopenEffect(st, c.f, c.h, c.mem);
    }
  }

  lemma MoreHandled(st: State, h: nat, st': State)
    requires h !in st.files && MoreHandles(st, h, st')
    ensures HandleSectors(st.files) <= HandleSectors(st'.files)
    ensures HandleSectors(st'.files) - HandleSectors(st.files) <= ListedSet(st.slots) + {FREE_MAP_SECTOR, ROOT_DIR_SECTOR}
  {
    hide ListedSet, HandleSectors, RemovedSet;
    if st'.files != st.files {
      var s :| s in Known(st.slots, st.files) && st'.files == st.files[h := File(s, 0, false)];
      NewHandle(st.files, h, File(s, 0, false));
    }
  }

  lemma FileClosed(st: State, c: Call, st': State)
    requires c.CloseCall? && Inv(st) && Follows(st, c, st')
    ensures c.f in st.files && st'.slots == st.slots && st'.files == st.files - {c.f} && st'.disk == st.disk
    ensures RemovedSet(st'.open) == RemovedSet(st.open) * OpenSet(st'.open)
    ensures var s := st.files[c.f].sector;
            st'.leaked == st.leaked
              + if Handles(st.files - {c.f}, s) == {} && s !in RemovedSet(st.open) then Unnamed(st, s) else {}
  {
    hide *;
    CloseStep(st, c, st');
    CloseEffect(st, c.f);
  }

  lemma CloseStep(st: State, c: Call, st': State)
    requires c.CloseCall? && Follows(st, c, st')
    ensures c.f in st.files && IsOpenFile(st, c.f) && Close(st, c.f).Done? && st' == Close(st, c.f).st
  {
    hide Close, FindOpen;
  }

  lemma GoneByClose(st: State, c: Call)
    requires c.CloseCall? && Possible(st, c)
    ensures c.f in st.files && Born(st, c) == {} && !FailsAtDirectory(st, c)
    ensures var s := st.files[c.f].sector;
            Gone(st, c) == if s >= 2 && s !in ListedSet(st.slots) && Handles(st.files, s) == {c.f} then {s} else {}
  {
    hide ListedSet, Handles;
  }

  lemma WritesNoEntry(st: State, c: Call)
    requires !c.CreateCall? && !c.RemoveCall? && Possible(st, c)
    ensures Delisted(st, c) == {} && Born(st, c) == {} && !WritesOver(st, c)
    ensures !c.CloseCall? ==> Gone(st, c) == {}
  {
    hide HandleSectors, Handles, ListedSet;
  }

  lemma FileChanged(st: State, c: Call, st': State)
    requires c.DenyCall? || c.AllowCall? || c.WriteCall? || c.SeekCall?
    requires Follows(st, c, st')
    ensures st'.slots == st.slots && RemovedSet(st'.open) == RemovedSet(st.open) && st'.leaked == st.leaked
    ensures HandleSectors(st'.files) == HandleSectors(st.files)
  {
    FileEffect(st, c);
    hide Step, HandleSectors, RemovedSet;
    var x: File :| x.sector == st.files[c.f].sector && st'.files == st.files[c.f := x];
    SameSector(st.files, c.f, x);
  }

  lemma CloseHandled(st: State, c: Call, st': State)
    requires c.CloseCall? && Inv(st) && Follows(st, c, st')
    ensures HandleSectors(st'.files) <= HandleSectors(st.files) && Possible(st, c)
    ensures Gone(st, c)
         == HandleSectors(st.files) - HandleSectors(st'.files) - ListedSet(st.slots) - {FREE_MAP_SECTOR, ROOT_DIR_SECTOR}
  {
    assert FREE_MAP_SECTOR == 0 && ROOT_DIR_SECTOR == 1;
    hide *;
    WasPossible(st, c, st');
    FileClosed(st, c, st');
    GoneByClose(st, c);
    LostHandle(st.files, c.f);
    HandledIff(st.files, st.files[c.f].sector);
    LastGone(HandleSectors(st.files), st.files[c.f].sector, ListedSet(st.slots));
  }

  lemma LastGone(handled: set<nat>, s: nat, listed: set<nat>)
    requires s in handled
    ensures handled - (handled - {s}) - listed - {0, 1} == if s >= 2 && s !in listed then {s} else {}
    ensures handled - handled - listed - {0, 1} == {}
  {
  }

  lemma NewHandleOf(st: State, c: Call)
    requires (c.OpenCall? || c.ReopenCall?) && Possible(st, c)
    ensures c.h !in st.files
  {
  }

  /** What a call that writes no directory entry does to them. */
  lemma ByHandle(st: State, c: Call, st': State)
    requires !c.CreateCall? && !c.RemoveCall? && Inv(st) && Follows(st, c, st')
    ensures Inv(st') && Possible(st, c)
    ensures st'.slots == st.slots && RemovedSet(st'.open) == RemovedSet(st.open) * OpenSet(st'.open)
    ensures OpenSet(st'.open) - OpenSet(st.open) <= ListedSet(st.slots) + {FREE_MAP_SECTOR, ROOT_DIR_SECTOR}
    ensures Gone(st, c) == OpenSet(st.open) - OpenSet(st'.open) - ListedSet(st.slots) - {FREE_MAP_SECTOR, ROOT_DIR_SECTOR}
    ensures Born(st, c) == {} && !WritesOver(st, c)
  {
    hide *;
    WasPossible(st, c, st');
    FollowsGood(st, c, st');
    OpenIsHandled(st);
    OpenIsHandled(st');
    WritesNoEntry(st, c);
    if c.CloseCall? {
      CloseHandled(st, c, st');
      FileClosed(st, c, st');
    } else if c.OpenCall? || c.ReopenCall? {
      NewHandleOf(st, c);
      MoreAfter(st, c, st');
      MoreHandled(st, c.h, st');
      MoreIs(st, c.h, st');
    } else {
      FileChanged(st, c, st');
    }
  }

  lemma MoreIs(st: State, h: nat, st': State)
    requires MoreHandles(st, h, st')
    ensures st'.slots == st.slots && st'.leaked == st.leaked && st'.disk == st.disk
    ensures RemovedSet(st'.open) == RemovedSet(st.open)
  {
  }

  // ---------------------------------------------------------------- which inodes are live

  lemma LiveIs(st: State)
    ensures Live(st.slots, st.open) == {FREE_MAP_SECTOR, ROOT_DIR_SECTOR} + ListedSet(st.slots) + OpenSet(st.open)
  {
  }

  lemma LiveByEntry(system: set<nat>, listed: set<nat>, lost: set<nat>, born: set<nat>, open: set<nat>,
                    listed': set<nat>, gone: set<nat>)
    requires lost <= listed && lost !! system && listed' == listed - lost + born && gone == lost - open
    ensures system + listed' + open == system + listed + open - gone + born
  {
  }

  lemma LiveByHandle(system: set<nat>, listed: set<nat>, open: set<nat>, open': set<nat>, gone: set<nat>)
    requires open' - open <= listed + system && gone == open - open' - listed - system
    ensures system + listed + open' == system + listed + open - gone + {}
  {
    var l, r := system + listed + open', system + listed + open - gone + {};
    forall x ensures x in l <==> x in r {
      if x in open' && x !in open {
        assert x in open' - open;
      }
    }
  }

  /** A file lives on until it has neither name nor handle: the live inodes after a call
      are those before it, without the file that lost its last and with the one created. */
  lemma LiveAfter(st: State, c: Call, st': State)
    requires Inv(st) && Follows(st, c, st')
    ensures Live(st'.slots, st'.open) == Live(st.slots, st.open) - Gone(st, c) + Born(st, c)
  {
    assert FREE_MAP_SECTOR < 2 && ROOT_DIR_SECTOR < 2;
    hide *;
    var system := {FREE_MAP_SECTOR, ROOT_DIR_SECTOR};
    LiveIs(st);
    LiveIs(st');
    if c.CreateCall? || c.RemoveCall? {
      ByEntry(st, c, st');
      SlotsAreOk(st);
      EntryListed(st, c);
      GoneByEntry(st, c);
      OpenIsHandled(st);
      OpenIsHandled(st');
      LiveByEntry(system, ListedSet(st.slots), Delisted(st, c), Born(st, c), OpenSet(st.open), ListedSet(st'.slots), Gone(st, c));
    } else {
      ByHandle(st, c, st');
      LiveByHandle(system, ListedSet(st.slots), OpenSet(st.open), OpenSet(st'.open), Gone(st, c));
    }
  }

  // ---------------------------------------------------------------- orphans

  /** The open files that have neither a directory entry nor the removed mark. */
  function Orphans(st: State): set<nat> {
    OpenSet(st.open) - RemovedSet(st.open) - ListedSet(st.slots) - {FREE_MAP_SECTOR, ROOT_DIR_SECTOR}
  }

  lemma OrphansAre(st: State)
    ensures Orphans(st)
         == OpenSet(st.open) - RemovedSet(st.open) - ListedSet(st.slots) - {FREE_MAP_SECTOR, ROOT_DIR_SECTOR}
  {
  }

  lemma EntryOrphans(open: set<nat>, removed: set<nat>, listed: set<nat>, system: set<nat>, lost: set<nat>, born: set<nat>,
                     unlist: bool, over: bool, removed': set<nat>, listed': set<nat>, gone: set<nat>)
    requires removed <= open && removed !! listed && lost <= listed && lost !! system && born !! open
    requires unlist ==> !over && born == {}
    requires !unlist && !over ==> lost == {}
    requires removed' == (removed + if unlist then lost else {}) * open
    requires listed' == listed - lost + born && gone == lost - open
    ensures open - removed' - listed' - system
         == open - removed - listed - system - gone + if over then lost * open else {}
  {
  }

  lemma HandleOrphans(open: set<nat>, open': set<nat>, removed: set<nat>, listed: set<nat>, system: set<nat>, gone: set<nat>)
    requires removed <= open && open' - open <= listed + system && gone == open - open' - listed - system
    ensures open' - removed * open' - listed - system == open - removed - listed - system - gone + {}
  {
    var l, r := open' - removed * open' - listed - system, open - removed - listed - system - gone + {};
    forall x ensures x in l <==> x in r {
      if x in open' && x !in open {
        assert x in open' - open;
      }
    }
  }

  /** An open file becomes an orphan when its directory entry is written over, and stays
      one until its last close. */
  lemma OrphansAfter(st: State, c: Call, st': State)
    requires Inv(st) && Follows(st, c, st')
    ensures Orphans(st')
         == Orphans(st) - Gone(st, c) + if WritesOver(st, c) then Delisted(st, c) * HandleSectors(st.files) else {}
  {
    hide *;
    if c.CreateCall? || c.RemoveCall? {
      OrphansByEntry(st, c, st');
    } else {
      ByHandle(st, c, st');
      OrphansAre(st);
      OrphansAre(st');
      OpenIsHandled(st);
      HandleOrphans(OpenSet(st.open), OpenSet(st'.open), RemovedSet(st.open), ListedSet(st.slots),
                    {FREE_MAP_SECTOR, ROOT_DIR_SECTOR}, Gone(st, c));
    }
  }

  lemma OrphansByEntry(st: State, c: Call, st': State)
    requires (c.CreateCall? || c.RemoveCall?) && Inv(st) && Follows(st, c, st')
    ensures Orphans(st')
         == Orphans(st) - Gone(st, c) + if WritesOver(st, c) then Delisted(st, c) * HandleSectors(st.files) else {}
  {
    assert FREE_MAP_SECTOR < 2 && ROOT_DIR_SECTOR < 2;
    hide *;
    ByEntry(st, c, st');
    OrphansAre(st);
    OrphansAre(st');
    OpenIsHandled(st);
    OpenIsHandled(st');
    SlotsAreOk(st);
    EntryListed(st, c);
    GoneByEntry(st, c);
    BornIsNew(st, c);
    LiveIs(st);
    EntryOrphans(OpenSet(st.open), RemovedSet(st.open), ListedSet(st.slots), {FREE_MAP_SECTOR, ROOT_DIR_SECTOR},
                 Delisted(st, c), Born(st, c), Removes(st, c), WritesOver(st, c), RemovedSet(st'.open), ListedSet(st'.slots),
                 Gone(st, c));
  }

  // ---------------------------------------------------------------- sectors given back and leaked

  /** The sectors of the inodes in `ss`. */
  function AllSectors(disk: seq<Sector>, ss: set<nat>): set<nat> {
    set s, x | s in ss && x in SectorsOf(disk, s) :: x
  }

  /** The sectors that a call leaves marked without an owner. */
  function Lost(st: State, c: Call): set<nat>
    requires Possible(st, c)
  {
    if FailsAtDirectory(st, c) then Extent(st, c) else AllSectors(st.disk, Forgotten(st, c))
  }

  /** The calls that lose sectors. */
  predicate LosesSectors(st: State, c: Call)
    requires Possible(st, c)
  {
    (FailsAtDirectory(st, c) && c.size > 0) || Forgotten(st, c) != {}
  }

  lemma AllOfOne(disk: seq<Sector>, s: nat)
    ensures AllSectors(disk, {s}) == SectorsOf(disk, s) && AllSectors(disk, {}) == {}
  {
  }

  lemma LostByCreate(st: State, c: Call, st': State)
    requires c.CreateCall? && Inv(st) && Follows(st, c, st')
    ensures st'.leaked == st.leaked + Lost(st, c)
  {
    InvSizes(st, None);
    CreateEffect(st, c);
    if Creates(st, c) {
      OverwrittenIsLost(st, c);
    } else {
      ForgottenByCreate(st, c);
      AllOfOne(st.disk, 0);
    }
    hide Inv, Step, Creates, EntryOf, Overwritten, Extent, AllSectors, Forgotten;
  }

  lemma ForgottenByCreate(st: State, c: Call)
    requires c.CreateCall? && Possible(st, c)
    ensures Creates(st, c) ==> !FailsAtDirectory(st, c)
    ensures Creates(st, c) ==> Forgotten(st, c) == NamedAt(st.slots, EntryOf(st, c)) - HandleSectors(st.files) - RemovedSet(st.open)
    ensures !Creates(st, c) ==> Forgotten(st, c) == {}
  {
    hide HasRoom, CanAdd, HandleSectors, RemovedSet, NamedAt, EntryOf;
  }

  lemma OverwrittenIsLost(st: State, c: Call)
    requires c.CreateCall? && Inv(st) && Possible(st, c) && Creates(st, c)
    ensures Overwritten(st, EntryOf(st, c)) == Lost(st, c)
  {
    var k := EntryOf(st, c);
    ForgottenByCreate(st, c);
    OpenIsHandled(st);
    WhatIsLost(st, k);
    AllOfOne(st.disk, st.slots[k].sector);
    if st.slots[k].inUse {
      EntryIsLive(st, k);
      assert st.slots[k].sector in ListedSet(st.slots);
    }
    hide Inv, Creates, EntryOf, Overwritten, AllSectors, SectorsOf, ListedSet, OpenSet, RemovedSet, HandleSectors, Forgotten, FailsAtDirectory, Live;
  }

  lemma LostByClose(st: State, c: Call, st': State)
    requires c.CloseCall? && Inv(st) && Follows(st, c, st')
    ensures st'.leaked == st.leaked + Lost(st, c)
  {
    var s := st.files[c.f].sector;
    FileClosed(st, c, st');
    GoneByClose(st, c);
    AllOfOne(st.disk, s);
    LastHandle(st.files, c.f);
    hide Inv, Follows, Possible, Handles, AllSectors, SectorsOf, ListedSet, RemovedSet, Gone, FailsAtDirectory;
  }

  lemma LastHandle(files: map<nat, File>, f: nat)
    requires f in files
    ensures Handles(files - {f}, files[f].sector) == {} <==> Handles(files, files[f].sector) == {f}
  {
    assert f in Handles(files, files[f].sector);
    assert Handles(files - {f}, files[f].sector) == Handles(files, files[f].sector) - {f};
  }

  lemma LostOtherwise(st: State, c: Call, st': State)
    requires !c.CreateCall? && !c.CloseCall? && Inv(st) && Follows(st, c, st')
    ensures st'.leaked == st.leaked && Lost(st, c) == {}
  {
    NothingLost(st, c);
    hide *;
    match c
    case RemoveCall(_, _) => RemoveAfter(st, c, st');
    case OpenCall(_, _, _) => MoreAfter(st, c, st'); MoreIs(st, c.h, st');
    case ReopenCall(_, _, _) => MoreAfter(st, c, st'); MoreIs(st, c.h, st');
    case _ => FileChanged(st, c, st');
  }

  lemma NothingLost(st: State, c: Call)
    requires !c.CreateCall? && !c.CloseCall? && Possible(st, c)
    ensures Lost(st, c) == {} && Forgotten(st, c) == {}
  {
    AllOfOne(st.disk, 0);
    hide AllSectors, RemovedSet, HandleSectors, MayHold;
  }

  /** The forgotten file was live. */
  lemma ForgottenLive(st: State, c: Call)
    requires Inv(st) && Possible(st, c)
    ensures Gone(st, c) <= Live(st.slots, st.open)
  {
    LiveIsKnown(st);
    SlotsAreOk(st);
    EntryListed(st, c);
    hide Inv, Live, ListedSet, Delisted, Handles, SlotsOk;
    if c.CloseCall? {
      HandledIff(st.files, st.files[c.f].sector);
    }
  }

  /** Sectors are lost by exactly three kinds of calls: a create that fails at the directory
      with a size above zero, a create that writes over the entry of a file that nobody has
      open, and the last close of a file whose entry was written over.  What is lost is the
      new extent, or the sectors of that file, and none of it was lost before. */
  lemma LeaksExactly(st: State, c: Call, st': State)
    requires Inv(st) && Follows(st, c, st')
    ensures st'.leaked == st.leaked + Lost(st, c) && st.leaked !! Lost(st, c)
    ensures st'.leaked != st.leaked <==> LosesSectors(st, c)
  {
    if c.CreateCall? {
      LostByCreate(st, c, st');
    } else if c.CloseCall? {
      LostByClose(st, c, st');
    } else {
      LostOtherwise(st, c, st');
    }
    LostIsNew(st, c);
    hide *;
    if Lost(st, c) != {} {
      var x :| x in Lost(st, c);
      assert x in st'.leaked && x !in st.leaked;
    } else {
      assert st.leaked + {} == st.leaked;
    }
  }

  lemma LostIsNew(st: State, c: Call)
    requires Inv(st) && Possible(st, c)
    ensures st.leaked !! Lost(st, c)
    ensures Lost(st, c) != {} <==> LosesSectors(st, c)
  {
    LeakedAreUsed(st);
    if FailsAtDirectory(st, c) {
      ExtentIsFree(st, c);
      NothingForgotten(st, c);
    } else {
      ForgottenLive(st, c);
      forall s | s in Forgotten(st, c) ensures SectorsOf(st.disk, s) !! st.leaked && s in SectorsOf(st.disk, s) {
        LiveSectors(st, s);
      }
      hide Inv, Live, SectorsOf, Forgotten, FailsAtDirectory;
      if Forgotten(st, c) != {} {
        var s :| s in Forgotten(st, c);
        assert s in Lost(st, c);
      }
    }
  }

  lemma NothingForgotten(st: State, c: Call)
    requires FailsAtDirectory(st, c) && Possible(st, c)
    ensures Forgotten(st, c) == {}
  {
    hide HasRoom, CanAdd;
  }

  lemma LiveSectors(st: State, s: nat)
    requires Inv(st) && s in Live(st.slots, st.open)
    ensures SectorsOf(st.disk, s) !! st.leaked && s in SectorsOf(st.disk, s)
  {
    assert Placed(st.disk, s);
    assert forall x: nat :: x in SectorsOf(st.disk, s) ==> Owns(st.disk, s, x);
  }

  lemma ExtentIsFree(st: State, c: Call)
    requires Inv(st) && FailsAtDirectory(st, c)
    ensures forall x :: x in Extent(st, c) ==> x < |st.used| && !st.used[x]
    ensures Extent(st, c) != {} <==> c.size > 0
  {
    var s := Fit(st.used, 1, 0).value;
    var used1 := Mark(st.used, s, 1, true);
    var start := Fit(used1, Sectors(c.size), 0).value;
    if c.size > 0 {
      assert start in Extent(st, c);
    }
    forall x | x in Extent(st, c) ensures x < |st.used| && !st.used[x] {
      assert !used1[x];
    }
  }

  lemma LeakedAreUsed(st: State)
    requires Inv(st)
    ensures forall x :: x in st.leaked ==> x < |st.used| && st.used[x]
  {
  }

  lemma DiskEffect(st: State, c: Call, st': State)
    requires Inv(st) && Follows(st, c, st')
    ensures !c.WriteCall? ==> Keeps(st.used, st.disk, st'.disk)
    ensures !c.WriteCall? && !c.CreateCall? ==> st'.disk == st.disk
  {
    InvSizes(st, None);
    hide Inv, Open, Reopen, Close, Remove;
    match c
    case CreateCall(_, _, _) => CreateKeeps(st, c);
    case OpenCall(_, _, _) => OpenEffect(st, c.name, c.h, c.mem);
    case ReopenCall(_, _, _) => ReopenEffect(st, c.f, c.h, c.mem);
    case CloseCall(_) => CloseEffect(st, c.f);
    case RemoveCall(_, _) => RemoveEffect(st, c);
    case _ =>
  }

  /** A create writes to free sectors only. */
  lemma CreateKeeps(st: State, c: Call)
    requires c.CreateCall? && Possible(st, c) && Step(st, c).Done? && |st.used| == |st.disk|
    ensures Keeps(st.used, st.disk, Step(st, c).st.disk)
  {
    var at := Allocate(st.used, 1, c.mem.map1);
    if at.Some? && c.mem.dir {
      var s := at.value;
      assert !st.used[s];
      var used1 := Mark(st.used, s, 1, true);
      var fit := Allocate(used1, Sectors(c.size), c.mem.map2);
      if fit.Some? && c.mem.inode {
        forall x | fit.value <= x < fit.value + Sectors(c.size) ensures !st.used[x] {
          assert !used1[x];
        }
        assert Step(st, c).st.disk == Stored(st.disk, s, DiskInode(fit.value, c.size));
      }
    }
  }

  lemma LivePlaced(st: State, s: nat)
    requires Inv(st) && s in Live(st.slots, st.open)
    ensures |st.used| == |st.disk| && Placed(st.disk, s) && Owns(st.disk, s, s)
    ensures forall x: nat :: Owns(st.disk, s, x) ==> x < |st.used| && st.used[x]
  {
    assert Placed(st.disk, s);
  }

  lemma PatchPlaced(disk: seq<Sector>, base: int, data: seq<byte>, s: nat)
    requires Placed(disk, s)
    ensures s < |disk| == |Patch(disk, base, data)|
    ensures Placed(Patch(disk, base, data), s) && Patch(disk, base, data)[s] == disk[s]
  {
  }

  lemma OwnersKept(st: State, c: Call, st': State, s: nat)
    requires Inv(st) && Follows(st, c, st') && s in Live(st.slots, st.open)
    ensures |st'.disk| == |st.disk| == |st.used|
    ensures Placed(st.disk, s) && Placed(st'.disk, s) && st'.disk[s] == st.disk[s]
  {
    LivePlaced(st, s);
    DiskEffect(st, c, st');
    if c.WriteCall? {
      var base, moved, pos := WriteShape(st, c.f, c.data, c.bounceOk);
      hide WriteFile, Inv, Live, Placed, IsOpenFile;
      PatchPlaced(st.disk, base, c.data[..moved], s);
    } else {
      hide Follows, Live;
      KeepsPlaced(st.used, st.disk, st'.disk, Live(st.slots, st.open), st.leaked, s);
    }
  }

  /** The sectors of a file stay marked as long as it has a name or a handle, and are free
      after the call that takes the last of them, unless the file was never removed and
      lost its name to another file's entry. */
  lemma FreedExactly(st: State, c: Call, st': State, s: nat, x: nat)
    requires Inv(st) && Follows(st, c, st')
    requires s in Live(st.slots, st.open) && Owns(st.disk, s, x)
    ensures x < |st'.used| && (st'.used[x] <==> s !in Gone(st, c) - Forgotten(st, c))
  {
    hide *;
    WasPossible(st, c, st');
    FollowsGood(st, c, st');
    LiveAfter(st, c, st');
    LivePlaced(st, s);
    OwnersKept(st, c, st', s);
    InvIs(st');
    InvSizes(st', None);
    LeaksExactly(st, c, st');
    if s !in Gone(st, c) {
      LivePlaced(st', s);
      SameOwned(st.disk, st'.disk, s, x);
    } else if s in Forgotten(st, c) {
      LostWithFile(st, c, s, x);
      LeakedAreUsed(st');
    } else {
      OnlyFreed(st, c, s);
      DiskEffect(st, c, st');
      assert Live(st.slots, st.open) - {s} + {} == Live(st.slots, st.open) - {s} && st.leaked + {} == st.leaked;
      NoLongerUsed(st, st', s, x);
    }
  }

  lemma SameOwned(disk: seq<Sector>, disk': seq<Sector>, s: nat, x: nat)
    requires Owns(disk, s, x) && s < |disk'| && disk'[s] == disk[s]
    ensures Owns(disk', s, x)
  {
  }

  lemma LostWithFile(st: State, c: Call, s: nat, x: nat)
    requires Possible(st, c) && s in Forgotten(st, c) && Owns(st.disk, s, x)
    ensures x in Lost(st, c)
  {
    if FailsAtDirectory(st, c) {
      NothingForgotten(st, c);
    }
    assert x in SectorsOf(st.disk, s);
    hide Forgotten, FailsAtDirectory, SectorsOf;
  }

  /** A file that is freed is the only one that goes, and nothing is lost or made. */
  lemma OnlyFreed(st: State, c: Call, s: nat)
    requires Inv(st) && Possible(st, c) && s in Gone(st, c) && s !in Forgotten(st, c)
    ensures Gone(st, c) == {s} && Lost(st, c) == {} && Born(st, c) == {} && !c.CreateCall? && !c.WriteCall?
  {
    AllOfOne(st.disk, 0);
    if c.CreateCall? {
      CreateForgets(st, c);
      assert false;
    } else if c.CloseCall? {
      ClosedFreed(st, c, s);
    } else {
      NothingLost(st, c);
      OneGone(st, c, s);
    }
  }

  lemma ClosedFreed(st: State, c: Call, s: nat)
    requires c.CloseCall? && Possible(st, c) && s in Gone(st, c) && s !in Forgotten(st, c)
    ensures Gone(st, c) == {s} && Lost(st, c) == {} && Born(st, c) == {}
  {
    AllOfOne(st.disk, 0);
    GoneByClose(st, c);
    hide AllSectors, ListedSet, RemovedSet, Handles, Gone, FailsAtDirectory;
  }

  lemma CreateForgets(st: State, c: Call)
    requires c.CreateCall? && Inv(st) && Possible(st, c)
    ensures Gone(st, c) <= Forgotten(st, c)
  {
    ForgottenByCreate(st, c);
    GoneByEntry(st, c);
    OpenIsHandled(st);
    hide Inv, Creates, EntryOf, ListedSet, OpenSet, RemovedSet, HandleSectors, Forgotten, Gone;
  }

  lemma OneGone(st: State, c: Call, s: nat)
    requires !c.CreateCall? && !c.CloseCall? && Possible(st, c) && s in Gone(st, c)
    ensures Gone(st, c) == {s} && Born(st, c) == {} && c.RemoveCall?
  {
    hide MayHold, HandleSectors;
  }

  lemma NoLongerUsed(st: State, st': State, s: nat, x: nat)
    requires Inv(st) && Inv(st') && st'.disk == st.disk && st'.leaked == st.leaked
    requires s in Live(st.slots, st.open) && Owns(st.disk, s, x)
    requires Live(st'.slots, st'.open) == Live(st.slots, st.open) - {s}
    ensures x < |st'.used| && !st'.used[x]
  {
    assert x !in st.leaked;
    forall t | t in Live(st'.slots, st'.open) ensures !Owns(st'.disk, t, x) {
      assert Disjoint(st.disk, s, t);
    }
    assert !HasOwner(st'.disk, Live(st'.slots, st'.open), x);
  }

  // ---------------------------------------------------------------- contents

  /** The bytes of the file whose inode is in sector `s`. */
  function FileBytes(disk: seq<Sector>, s: nat): seq<byte>
    requires Placed(disk, s)
  {
    Contents(disk, disk[s].inode)
  }

  /** The write that a call carries out: what file_write moved, at the file's position. */
  function Effective(st: State, f: nat, data: seq<byte>, bounceOk: bool): Write
    requires IsOpenFile(st, f)
  {
    Write(st.files[f].pos, data[..Written(st, f, data, bounceOk)])
  }

  lemma OpenData(st: State, f: nat)
    requires Inv(st) && f in st.files
    ensures IsOpenFile(st, f) && st.files[f].sector in Live(st.slots, st.open)
    ensures Placed(st.disk, st.files[f].sector) && st.disk[st.files[f].sector] == Header(InodeOf(st, f).data)
  {
    FileIsOpen(st, f);
    var i := FindOpen(st.open, st.files[f].sector, 0).value;
    assert Faithful(st.disk, ListedSet(st.slots), st.open[i], st.files, None);
    LivePlaced(st, st.files[f].sector);
  }

  lemma ApplyPatch(disk: seq<Sector>, d: DiskInode, pos: nat, data: seq<byte>)
    requires Readable(disk, d) && (|data| > 0 ==> pos + |data| <= d.length)
    ensures var after := Patch(disk, d.start * SECTOR_SIZE + pos, data);
            Readable(after, d) && Contents(after, d) == Apply(Contents(disk, d), Write(pos, data))
  {
    if |data| > 0 {
      PatchOwn(disk, d, pos, data);
    } else {
      PatchNothing(disk, d.start * SECTOR_SIZE + pos);
    }
  }

  /** The piece of the device that file_write stores into. */
  lemma WriteDisk(st: State, f: nat, data: seq<byte>, bounceOk: bool) returns (d: DiskInode, pos: nat, moved: nat)
    requires IsOpenFile(st, f)
    ensures d == InodeOf(st, f).data && moved <= |data| && (moved > 0 ==> pos + moved <= d.length)
    ensures Effective(st, f, data, bounceOk) == Write(pos, data[..moved])
    ensures WriteFile(st, f, data, bounceOk).Done?
    ensures WriteFile(st, f, data, bounceOk).st.disk == Patch(st.disk, d.start * SECTOR_SIZE + pos, data[..moved])
  {
    d, pos, moved := InodeOf(st, f).data, st.files[f].pos, Written(st, f, data, bounceOk);
  }

  lemma OwnWrite(st: State, f: nat, data: seq<byte>, bounceOk: bool)
    requires Inv(st) && f in st.files
    ensures IsOpenFile(st, f) && WriteFile(st, f, data, bounceOk).Done?
    ensures var s, disk' := st.files[f].sector, WriteFile(st, f, data, bounceOk).st.disk;
            && Placed(st.disk, s) && Placed(disk', s)
            && FileBytes(disk', s) == Apply(FileBytes(st.disk, s), Effective(st, f, data, bounceOk))
  {
    hide *;
    OpenData(st, f);
    var d, pos, moved := WriteDisk(st, f, data, bounceOk);
    PatchPlaced(st.disk, d.start * SECTOR_SIZE + pos, data[..moved], st.files[f].sector);
    ApplyPatch(st.disk, d, pos, data[..moved]);
    BytesAre(st.disk, st.files[f].sector);
    BytesAre(Patch(st.disk, d.start * SECTOR_SIZE + pos, data[..moved]), st.files[f].sector);
  }

  lemma BytesAre(disk: seq<Sector>, s: nat)
    requires Placed(disk, s)
    ensures s < |disk| && disk[s].Header? && Readable(disk, disk[s].inode)
    ensures FileBytes(disk, s) == Contents(disk, disk[s].inode)
  {
  }

  lemma OtherWrite(st: State, f: nat, data: seq<byte>, bounceOk: bool, t: nat)
    requires Inv(st) && f in st.files && t in Live(st.slots, st.open) && t != st.files[f].sector
    ensures IsOpenFile(st, f) && WriteFile(st, f, data, bounceOk).Done?
    ensures var disk' := WriteFile(st, f, data, bounceOk).st.disk;
            Placed(st.disk, t) && Placed(disk', t) && FileBytes(disk', t) == FileBytes(st.disk, t)
  {
    hide *;
    OpenData(st, f);
    LivePlaced(st, t);
    var d, pos, moved := WriteDisk(st, f, data, bounceOk);
    BytesAre(st.disk, st.files[f].sector);
    LiveApart(st, st.files[f].sector, t);
    OtherPatch(st.disk, st.files[f].sector, t, pos, data[..moved]);
  }

  lemma LiveApart(st: State, s: nat, t: nat)
    requires Inv(st) && s in Live(st.slots, st.open) && t in Live(st.slots, st.open) && s != t
    ensures Disjoint(st.disk, s, t)
  {
  }

  lemma OtherPatch(disk: seq<Sector>, s: nat, t: nat, pos: nat, data: seq<byte>)
    requires Placed(disk, s) && Placed(disk, t) && Disjoint(disk, s, t)
    requires |data| > 0 ==> pos + |data| <= disk[s].inode.length
    ensures var disk' := Patch(disk, disk[s].inode.start * SECTOR_SIZE + pos, data);
            Placed(disk', t) && FileBytes(disk', t) == FileBytes(disk, t)
  {
    var d, e := disk[s].inode, disk[t].inode;
    var base := d.start * SECTOR_SIZE + pos;
    PatchPlaced(disk, base, data, t);
    if |data| == 0 {
      PatchNothing(disk, base);
    } else if e.length > 0 {
      ExtentsApart(disk, s, t);
      hide Patch, Contents;
      PatchOther(disk, d, pos, data, e);
    }
  }

  lemma ExtentsApart(disk: seq<Sector>, s: nat, t: nat)
    requires s < |disk| && t < |disk| && disk[s].Header? && disk[t].Header? && Disjoint(disk, s, t)
    requires disk[s].inode.length > 0 && disk[t].inode.length > 0
    ensures Apart(disk[s].inode, disk[t].inode)
  {
    var d, e := disk[s].inode, disk[t].inode;
    assert !(Owns(disk, s, e.start) && Owns(disk, t, e.start));
    assert !(Owns(disk, s, d.start) && Owns(disk, t, d.start));
  }

  lemma SameBytes(disk: seq<Sector>, disk': seq<Sector>, s: nat)
    requires Placed(disk, s) && |disk'| == |disk| && disk'[s] == disk[s]
    requires forall x: nat :: InExtent(disk[s].inode, x) ==> disk'[x] == disk[x]
    ensures Placed(disk', s) && FileBytes(disk', s) == FileBytes(disk, s)
  {
    var d := disk[s].inode;
    forall i | 0 <= i < d.length ensures Contents(disk', d)[i] == Contents(disk, d)[i] {
      ByteOf(d, i);
      SectorsCover(d.length, i);
    }
  }

  lemma NoWrite(st: State, c: Call, st': State, s: nat)
    requires Inv(st) && Follows(st, c, st') && s in Live(st.slots, st.open) && !c.WriteCall?
    ensures Placed(st.disk, s) && Placed(st'.disk, s) && FileBytes(st'.disk, s) == FileBytes(st.disk, s)
  {
    LivePlaced(st, s);
    DiskEffect(st, c, st');
    hide Inv, Follows;
    forall x: nat | InExtent(st.disk[s].inode, x) ensures st'.disk[x] == st.disk[x] {
      assert Owns(st.disk, s, x);
    }
    assert st'.disk[s] == st.disk[s];
    SameBytes(st.disk, st'.disk, s);
  }

  /** A call changes the bytes of no file but the one it writes to, and those by exactly
      the bytes it moved: removing a file, closing it, or creating others leaves an open
      file's bytes alone. */
  lemma ContentsAfter(st: State, c: Call, st': State, s: nat)
    requires Inv(st) && Follows(st, c, st') && s in Live(st.slots, st.open)
    ensures Placed(st.disk, s) && Placed(st'.disk, s)
    ensures FileBytes(st'.disk, s)
         == if c.WriteCall? && st.files[c.f].sector == s
            then Apply(FileBytes(st.disk, s), Effective(st, c.f, c.data, c.bounceOk)) else FileBytes(st.disk, s)
  {
    if !c.WriteCall? {
      NoWrite(st, c, st', s);
    } else if st.files[c.f].sector == s {
      OwnWrite(st, c.f, c.data, c.bounceOk);
    } else {
      OtherWrite(st, c.f, c.data, c.bounceOk, s);
    }
  }

  // ---------------------------------------------------------------- whole runs

  /** The writes that `calls[i..j]` carry out on the file in sector `s`. */
  function WritesTo(calls: seq<Call>, states: seq<State>, s: nat, i: nat, j: nat): seq<Write>
    requires i <= j <= |calls| <= |states|
  {
    if i == j then []
    else WritesTo(calls, states, s, i, j - 1) + WriteOf(states[j - 1], calls[j - 1], s)
  }

  function WriteOf(st: State, c: Call, s: nat): seq<Write> {
    if c.WriteCall? && IsOpenFile(st, c.f) && st.files[c.f].sector == s
    then [Effective(st, c.f, c.data, c.bounceOk)] else []
  }

  lemma OneMore(c: seq<byte>, ws: seq<Write>, w: seq<Write>)
    requires |w| <= 1
    ensures ApplyAll(c, ws + w) == if w == [] then ApplyAll(c, ws) else Apply(ApplyAll(c, ws), w[0])
  {
    if w == [] {
      assert ws + w == ws;
    } else {
      assert (ws + w)[..|ws|] == ws && (ws + w)[|ws|] == w[0];
    }
  }

  ghost predicate LivesThrough(states: seq<State>, s: nat, i: nat, j: nat)
    requires j <= |states|
  {
    forall k :: i <= k < j ==> s in Live(states[k].slots, states[k].open)
  }

  lemma StepBytes(st: State, c: Call, st': State, s: nat, was: seq<byte>, ws: seq<Write>)
    requires Inv(st) && Follows(st, c, st') && s in Live(st.slots, st.open)
    requires Placed(st.disk, s) && FileBytes(st.disk, s) == ApplyAll(was, ws)
    ensures Placed(st'.disk, s) && FileBytes(st'.disk, s) == ApplyAll(was, ws + WriteOf(st, c, s))
  {
    ContentsAfter(st, c, st', s);
    OneMore(was, ws, WriteOf(st, c, s));
    if c.WriteCall? {
      OpenData(st, c.f);
    }
  }

  /** While a file has a name or a handle its bytes are those it started with, under the
      writes made through its handles in their order, whatever else happened. */
  lemma {:induction false} RunContents(size: nat, calls: seq<Call>, states: seq<State>, s: nat, i: nat, j: nat)
    requires IsRun(size, calls, states) && i <= j < |states| && LivesThrough(states, s, i, j)
    requires s in Live(states[i].slots, states[i].open)
    ensures Placed(states[i].disk, s) && Placed(states[j].disk, s)
    ensures FileBytes(states[j].disk, s)
         == ApplyAll(FileBytes(states[i].disk, s), WritesTo(calls, states, s, i, j))
    decreases j
  {
    hide Inv, Live, Placed, Possible, Step, Follows, Format, FileBytes, WriteOf, ApplyAll;
    if i == j {
      ReachableIsGood(size, calls, states, i, SeekCall(0, 0));
      LivePlaced(states[i], s);
      assert ApplyAll(FileBytes(states[i].disk, s), []) == FileBytes(states[i].disk, s) by { NoWrites(FileBytes(states[i].disk, s)); }
    } else {
      RunContents(size, calls, states, s, i, j - 1);
      ReachableIsGood(size, calls, states, j - 1, SeekCall(0, 0));
      StepBytes(states[j - 1], calls[j - 1], states[j], s, FileBytes(states[i].disk, s),
                WritesTo(calls, states, s, i, j - 1));
    }
  }

  lemma NoWrites(c: seq<byte>)
    ensures ApplyAll(c, []) == c
  {
  }

  /** Every byte of a file is the one stored by the latest write that covers it. */
  lemma RunReadsLatestWrite(size: nat, calls: seq<Call>, states: seq<State>, s: nat, i: nat, j: nat, k: nat)
    requires IsRun(size, calls, states) && i <= j < |states| && LivesThrough(states, s, i, j)
    requires s in Live(states[i].slots, states[i].open)
    ensures Placed(states[i].disk, s) && Placed(states[j].disk, s)
    ensures |FileBytes(states[j].disk, s)| == |FileBytes(states[i].disk, s)|
    ensures k < |FileBytes(states[i].disk, s)| ==>
      Latest(FileBytes(states[i].disk, s)[k], WritesTo(calls, states, s, i, j), k, FileBytes(states[j].disk, s)[k])
  {
    assert |states| == |calls| + 1;
    hide *;
    RunContents(size, calls, states, s, i, j);
    if k < |FileBytes(states[i].disk, s)| {
      LatestWrite(FileBytes(states[i].disk, s), WritesTo(calls, states, s, i, j), k);
    }
  }

  /** A run loses no sectors exactly if none of its calls is of the losing kinds; the
      marked sectors are then those of the listed and the open files. */
  lemma {:induction false} RunLosesNothing(size: nat, calls: seq<Call>, states: seq<State>, i: nat)
    requires IsRun(size, calls, states) && i < |states|
    ensures forall k :: 0 <= k < i ==> Possible(states[k], calls[k])
    ensures states[i].leaked == {} <==> forall k :: 0 <= k < i ==> !LosesSectors(states[k], calls[k])
  {
    hide *;
    RunPossible(size, calls, states, i);
    if i == 0 {
      StartsClean(size);
    } else {
      RunLosesNothing(size, calls, states, i - 1);
      ReachableIsGood(size, calls, states, i - 1, SeekCall(0, 0));
      LeaksExactly(states[i - 1], calls[i - 1], states[i]);
    }
  }

  lemma RunPossible(size: nat, calls: seq<Call>, states: seq<State>, i: nat)
    requires IsRun(size, calls, states) && i < |states|
    ensures |states| == |calls| + 1 && Format(size).Done? && states[0] == Format(size).st
    ensures forall k :: 0 <= k < i ==> Possible(states[k], calls[k])
    ensures i > 0 ==> Follows(states[i - 1], calls[i - 1], states[i])
  {
    forall k | 0 <= k < i ensures Possible(states[k], calls[k]) {
      assert Follows(states[k], calls[k], states[k + 1]);
    }
  }

  /** While no create writes over an entry in use, the open inodes marked removed are
      exactly those without a directory entry. */
  lemma RunRemovedExactly(size: nat, calls: seq<Call>, states: seq<State>, i: nat, n: nat)
    requires IsRun(size, calls, states) && i < |states| && n < |states[i].open|
    requires forall k :: 0 <= k < i ==> !WritesOver(states[k], calls[k])
    ensures var e := states[i].open[n];
            e.removed <==> e.sector >= 2 && e.sector !in ListedSet(states[i].slots)
  {
    var st := states[i];
    ReachableIsGood(size, calls, states, i, SeekCall(0, 0));
    NoOrphans(size, calls, states, i);
    assert Faithful(st.disk, ListedSet(st.slots), st.open[n], st.files, None);
    RemovedIff(st.open, n);
    assert st.open[n].sector in OpenSet(st.open);
    hide Inv, ListedSet, OpenSet, RemovedSet;
    assert st.open[n].sector !in Orphans(st);
  }

  lemma {:induction false} NoOrphans(size: nat, calls: seq<Call>, states: seq<State>, i: nat)
    requires IsRun(size, calls, states) && i < |states|
    requires forall k :: 0 <= k < i ==> !WritesOver(states[k], calls[k])
    ensures Orphans(states[i]) == {}
  {
    hide Inv, Possible, Step, Follows, Format, Orphans, WritesOver;
    if i == 0 {
      StartsKnown(size);
    } else {
      NoOrphans(size, calls, states, i - 1);
      ReachableIsGood(size, calls, states, i - 1, SeekCall(0, 0));
      OrphansAfter(states[i - 1], calls[i - 1], states[i]);
    }
  }

  lemma StartsKnown(size: nat)
    requires Format(size).Done?
    ensures Orphans(Format(size).st) == {}
  {
  }

  lemma StartsClean(size: nat)
    requires Format(size).Done?
    ensures Format(size).st.leaked == {}
  {
  }

  /** The sectors marked used, when nothing was lost. */
  lemma UsedIsOwned(st: State, x: nat)
    requires Inv(st) && st.leaked == {} && x < |st.used|
    ensures st.used[x] <==> HasOwner(st.disk, Live(st.slots, st.open), x)
  {
    if HasOwner(st.disk, Live(st.slots, st.open), x) {
      var s :| s in Live(st.slots, st.open) && Owns(st.disk, s, x);
    }
  }
}
