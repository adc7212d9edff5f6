/** Who owns which sector of the device. */
module FsOwnership {
  import opened Bitmap
  import opened DiskModel
  import opened FsSpec

  predicate InExtent(d: DiskInode, x: nat) {
    d.start <= x < d.start + Sectors(d.length)
  }

  /** Inode sector `s` owns itself and its data extent. */
  predicate Owns(disk: seq<Sector>, s: nat, x: nat) {
    s < |disk| && disk[s].Header? && (x == s || InExtent(disk[s].inode, x))
  }

  /** The inode in sector `s` and its extent lie inside the device, with data in the extent. */
  predicate Placed(disk: seq<Sector>, s: nat) {
    && s < |disk| && disk[s].Header?
    && !InExtent(disk[s].inode, s)
    && Readable(disk, disk[s].inode)
  }

  ghost predicate Disjoint(disk: seq<Sector>, s: nat, t: nat) {
    forall x: nat :: !(Owns(disk, s, x) && Owns(disk, t, x))
  }

  ghost predicate AllApart(disk: seq<Sector>, live: set<nat>) {
    && (forall s :: s in live ==> Placed(disk, s))
    && (forall s, t :: s in live && t in live && s != t ==> Disjoint(disk, s, t))
  }

  ghost predicate HasOwner(disk: seq<Sector>, live: set<nat>, x: nat) {
    exists s :: s in live && Owns(disk, s, x)
  }

  ghost predicate Accounted(used: seq<bool>, disk: seq<Sector>, live: set<nat>, leaked: set<nat>) {
    && |used| == |disk|
    && (forall s, x: nat :: s in live && Owns(disk, s, x) ==> x < |used| && used[x] && x !in leaked)
    && (forall x :: x in leaked ==> x < |used| && used[x])
    && (forall x: nat :: x < |used| && used[x] && x !in leaked ==> HasOwner(disk, live, x))
  }

  /** The sectors of the live inodes are apart, inside the device and marked used, and
      every used sector belongs to a live inode or was leaked. */
  ghost predicate Owned(used: seq<bool>, disk: seq<Sector>, live: set<nat>, leaked: set<nat>) {
    AllApart(disk, live) && Accounted(used, disk, live, leaked)
  }

  /** Sectors in use are as before. */
  ghost predicate Keeps(used: seq<bool>, disk: seq<Sector>, disk': seq<Sector>) {
    |disk'| == |disk| == |used| && forall x :: 0 <= x < |used| && used[x] ==> disk'[x] == disk[x]
  }

  lemma KeepsPlaced(used: seq<bool>, disk: seq<Sector>, disk': seq<Sector>, live: set<nat>, leaked: set<nat>, s: nat)
    requires Owned(used, disk, live, leaked) && Keeps(used, disk, disk') && s in live
    ensures Placed(disk', s) && disk'[s] == disk[s]
    ensures forall x: nat :: Owns(disk', s, x) <==> Owns(disk, s, x)
  {
    assert Owns(disk, s, s);
    var d := disk[s].inode;
    forall x | d.start <= x < d.start + Sectors(d.length) ensures IsData(disk'[x]) {
      assert Owns(disk, s, x);
    }
  }

  /** The device after inode_create has stored an inode in `s` with the extent of `d`. */
  function Stored(disk: seq<Sector>, s: nat, d: DiskInode): seq<Sector>
    requires s < |disk| && d.start + Sectors(d.length) <= |disk|
  {
    FillZero(disk[s := Header(d)], d.start, Sectors(d.length))
  }

  ghost predicate Free(used: seq<bool>, s: nat, d: DiskInode) {
    && s < |used| && !used[s]
    && d.start + Sectors(d.length) <= |used|
    && !InExtent(d, s)
    && forall x :: d.start <= x < d.start + Sectors(d.length) ==> !used[x]
  }

  lemma StoredKeeps(used: seq<bool>, disk: seq<Sector>, s: nat, d: DiskInode)
    requires |used| == |disk| && Free(used, s, d)
    ensures Keeps(used, disk, Stored(disk, s, d))
    ensures Placed(Stored(disk, s, d), s) && Stored(disk, s, d)[s] == Header(d)
  {
  }

  /** Marking used. */
  ghost predicate Grows(used: seq<bool>, used': seq<bool>, more: set<nat>) {
    && |used'| == |used|
    && (forall x :: 0 <= x < |used| ==> (used'[x] <==> used[x] || x in more))
    && (forall x :: x in more ==> x < |used| && !used[x])
  }

  /** Every live inode is placed as before and owns the same sectors. */
  ghost predicate SameOwners(disk: seq<Sector>, disk': seq<Sector>, live: set<nat>) {
    forall t :: t in live ==> Placed(disk', t) && forall x: nat :: Owns(disk', t, x) <==> Owns(disk, t, x)
  }

  lemma KeepsOwners(used: seq<bool>, disk: seq<Sector>, disk': seq<Sector>, live: set<nat>, leaked: set<nat>)
    requires Owned(used, disk, live, leaked) && Keeps(used, disk, disk')
    ensures SameOwners(disk, disk', live)
  {
    forall t | t in live ensures Placed(disk', t) && forall x: nat :: Owns(disk', t, x) <==> Owns(disk, t, x) {
      KeepsPlaced(used, disk, disk', live, leaked, t);
    }
  }

  lemma ApartWithNew(used: seq<bool>, disk: seq<Sector>, disk': seq<Sector>, live: set<nat>, leaked: set<nat>, s: nat)
    requires Owned(used, disk, live, leaked) && SameOwners(disk, disk', live) && Placed(disk', s)
    requires forall x: nat :: Owns(disk', s, x) ==> x < |used| && !used[x]
    ensures AllApart(disk', live + {s})
  {
    forall t | t in live ensures Disjoint(disk', s, t) && Disjoint(disk', t, s) {
    }
    forall t, u | t in live && u in live && t != u ensures Disjoint(disk', t, u) {
      assert Disjoint(disk, t, u);
    }
  }

  lemma AccountedWithNew(used: seq<bool>, disk: seq<Sector>, disk': seq<Sector>, live: set<nat>, leaked: set<nat>,
                         s: nat, used': seq<bool>, more: set<nat>)
    requires Accounted(used, disk, live, leaked) && SameOwners(disk, disk', live) && |disk'| == |disk|
    requires Grows(used, used', more) && forall x: nat :: Owns(disk', s, x) <==> x in more
    ensures Accounted(used', disk', live + {s}, leaked)
  {
    forall x: nat | x < |used'| && used'[x] && x !in leaked ensures HasOwner(disk', live + {s}, x) {
      if x in more {
        assert Owns(disk', s, x);
      } else {
        var t :| t in live && Owns(disk, t, x);
        assert Owns(disk', t, x);
      }
    }
  }

  lemma AccountedWithLeak(used: seq<bool>, disk: seq<Sector>, disk': seq<Sector>, live: set<nat>, leaked: set<nat>,
                          used': seq<bool>, more: set<nat>)
    requires Accounted(used, disk, live, leaked) && SameOwners(disk, disk', live) && |disk'| == |disk|
    requires Grows(used, used', more)
    ensures Accounted(used', disk', live, leaked + more)
  {
    forall x: nat | x < |used'| && used'[x] && x !in leaked + more ensures HasOwner(disk', live, x) {
      var t :| t in live && Owns(disk, t, x);
      assert Owns(disk', t, x);
    }
  }

  lemma ApartAsBefore(disk: seq<Sector>, disk': seq<Sector>, live: set<nat>)
    requires AllApart(disk, live) && SameOwners(disk, disk', live)
    ensures AllApart(disk', live)
  {
    forall t, u | t in live && u in live && t != u ensures Disjoint(disk', t, u) {
      assert Disjoint(disk, t, u);
    }
  }

  /** A new inode and its extent, taken from free sectors, join the live ones. */
  lemma AddLive(used: seq<bool>, disk: seq<Sector>, live: set<nat>, leaked: set<nat>,
                s: nat, d: DiskInode, used': seq<bool>, more: set<nat>)
    requires Owned(used, disk, live, leaked) && Free(used, s, d)
    requires Grows(used, used', more) && forall x: nat :: x in more <==> x == s || InExtent(d, x)
    ensures Owned(used', Stored(disk, s, d), live + {s}, leaked)
  {
    var disk' := Stored(disk, s, d);
    StoredKeeps(used, disk, s, d);
    KeepsOwners(used, disk, disk', live, leaked);
    assert forall x: nat :: Owns(disk', s, x) <==> x in more;
    ApartWithNew(used, disk, disk', live, leaked, s);
    AccountedWithNew(used, disk, disk', live, leaked, s, used', more);
  }

  /** The extent of a create that failed at the directory stays marked without an owner. */
  lemma AddLeak(used: seq<bool>, disk: seq<Sector>, live: set<nat>, leaked: set<nat>,
                s: nat, d: DiskInode, used': seq<bool>, more: set<nat>)
    requires Owned(used, disk, live, leaked) && Free(used, s, d)
    requires Grows(used, used', more)
    ensures Owned(used', Stored(disk, s, d), live, leaked + more)
  {
    var disk' := Stored(disk, s, d);
    StoredKeeps(used, disk, s, d);
    KeepsOwners(used, disk, disk', live, leaked);
    ApartAsBefore(disk, disk', live);
    AccountedWithLeak(used, disk, disk', live, leaked, used', more);
  }

  /** Giving back the sectors of one live inode. */
  lemma DropLive(used: seq<bool>, disk: seq<Sector>, live: set<nat>, leaked: set<nat>, s: nat, used': seq<bool>)
    requires Owned(used, disk, live, leaked) && s in live && |used'| == |used|
    requires forall x: nat :: x < |used| ==> (used'[x] <==> used[x] && !Owns(disk, s, x))
    ensures Owned(used', disk, live - {s}, leaked)
  {
    forall x: nat | x < |used'| && used'[x] && x !in leaked ensures HasOwner(disk, live - {s}, x) {
      assert HasOwner(disk, live, x);
      var t :| t in live && Owns(disk, t, x);
      assert t in live - {s};
    }
    forall t, x: nat | t in live - {s} && Owns(disk, t, x) ensures x < |used'| && used'[x] && x !in leaked {
      assert Disjoint(disk, t, s);
    }
  }

  /** A live inode is given up with its sectors still marked. */
  lemma LoseLive(used: seq<bool>, disk: seq<Sector>, live: set<nat>, leaked: set<nat>, s: nat)
    requires Owned(used, disk, live, leaked) && s in live
    ensures Owned(used, disk, live - {s}, leaked + SectorsOf(disk, s))
  {
    assert Placed(disk, s);
    assert forall x: nat :: x in SectorsOf(disk, s) <==> Owns(disk, s, x);
    forall x: nat | x < |used| && used[x] && x !in leaked + SectorsOf(disk, s) ensures HasOwner(disk, live - {s}, x) {
      var t :| t in live && Owns(disk, t, x);
      assert t in live - {s};
    }
    forall t, x: nat | t in live - {s} && Owns(disk, t, x) ensures x < |used| && used[x] && x !in leaked + SectorsOf(disk, s) {
      assert Disjoint(disk, t, s);
    }
  }

  /** A device that differs only in the bytes of data sectors. */
  ghost predicate SameShape(disk: seq<Sector>, disk': seq<Sector>) {
    && |disk'| == |disk|
    && forall x :: 0 <= x < |disk| ==>
         if disk[x].Header? then disk'[x] == disk[x]
         else disk'[x].Data? && |disk'[x].bytes| == |disk[x].bytes|
  }

  lemma Rewrite(used: seq<bool>, disk: seq<Sector>, live: set<nat>, leaked: set<nat>, disk': seq<Sector>)
    requires Owned(used, disk, live, leaked) && SameShape(disk, disk')
    ensures Owned(used, disk', live, leaked)
  {
    forall s | s in live ensures Placed(disk', s) && forall x: nat :: Owns(disk', s, x) <==> Owns(disk, s, x) {
      assert Placed(disk, s);
    }
    ApartAsBefore(disk, disk', live);
    AccountedWithLeak(used, disk, disk', live, leaked, used, {});
    assert leaked + {} == leaked;
  }
}
