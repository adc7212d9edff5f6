/** The list of open inodes as a cache: what it says about the disk, the directory and
    the outstanding handles. */
module FsCache {
  import opened Bitmap
  import opened DiskModel
  import opened FsSpec

  function OpenSet(open: seq<OpenInode>): set<nat> {
    set i | 0 <= i < |open| :: open[i].sector
  }

  ghost predicate DistinctSectors(open: seq<OpenInode>) {
    forall i, j :: 0 <= i < j < |open| ==> open[i].sector != open[j].sector
  }

  /** The struct files on an inode, and those of them that deny writes. */
  function Handles(files: map<nat, File>, s: nat): set<nat> {
    set f | f in files && files[f].sector == s
  }

  function Deniers(files: map<nat, File>, s: nat): set<nat> {
    set f | f in files && files[f].sector == s && files[f].deny
  }

  function One(raw: Option<nat>, s: nat): nat {
    if raw == Some(s) then 1 else 0
  }

  /** The open inodes marked removed. */
  function RemovedSet(open: seq<OpenInode>): set<nat> {
    set i | 0 <= i < |open| && open[i].removed :: open[i].sector
  }

  /** One in-memory inode agrees with the disk, the directory and its handles; a removed
      one has no directory entry.  `raw` is a sector with one reference that is not a
      struct file. */
  ghost predicate Faithful(disk: seq<Sector>, listed: set<nat>, n: OpenInode, files: map<nat, File>, raw: Option<nat>) {
    && n.sector < |disk| && disk[n.sector] == Header(n.data)
    && n.openCnt == |Handles(files, n.sector)| + One(raw, n.sector)
    && n.openCnt >= 1
    && n.denyCnt == |Deniers(files, n.sector)|
    && (n.removed ==> n.sector >= 2 && n.sector !in listed)
  }

  ghost predicate CacheOk(disk: seq<Sector>, listed: set<nat>, open: seq<OpenInode>, files: map<nat, File>, raw: Option<nat>) {
    && DistinctSectors(open)
    && (forall i :: 0 <= i < |open| ==> Faithful(disk, listed, open[i], files, raw))
    && (forall f :: f in files ==> files[f].sector in OpenSet(open))
    && (raw.Some? ==> raw.value in OpenSet(open))
  }

  lemma FindIs(open: seq<OpenInode>, i: nat)
    requires DistinctSectors(open) && i < |open|
    ensures FindOpen(open, open[i].sector, 0) == Some(i)
  {
  }

  lemma FindIn(open: seq<OpenInode>, s: nat)
    ensures FindOpen(open, s, 0).Some? <==> s in OpenSet(open)
  {
  }

  lemma OneElement(s: set<nat>, x: nat)
    requires x in s
    ensures |s| >= 1
  {
    assert s == (s - {x}) + {x};
  }

  lemma SubsetSize(s: set<nat>, t: set<nat>)
    requires s <= t
    ensures |s| <= |t|
  {
    assert t == s + (t - s);
  }

  /** Changing one entry without moving its sector. */
  lemma UpdateEntry(open: seq<OpenInode>, i: nat, n: OpenInode)
    requires DistinctSectors(open) && i < |open| && n.sector == open[i].sector
    ensures DistinctSectors(open[i := n]) && OpenSet(open[i := n]) == OpenSet(open)
  {
    forall s ensures s in OpenSet(open[i := n]) <==> s in OpenSet(open) {
      if s in OpenSet(open) {
        var j :| 0 <= j < |open| && open[j].sector == s;
        assert open[i := n][j].sector == s;
      }
    }
  }

  lemma DropEntry(open: seq<OpenInode>, i: nat)
    requires DistinctSectors(open) && i < |open|
    ensures var rest := open[..i] + open[i + 1..];
            && DistinctSectors(rest) && OpenSet(rest) == OpenSet(open) - {open[i].sector}
            && forall j :: 0 <= j < |rest| ==> rest[j] == open[if j < i then j else j + 1]
  {
    var rest := open[..i] + open[i + 1..];
    forall s ensures s in OpenSet(rest) <==> s in OpenSet(open) && s != open[i].sector {
      if s in OpenSet(open) && s != open[i].sector {
        var j :| 0 <= j < |open| && open[j].sector == s;
        assert rest[if j < i then j else j - 1].sector == s;
      }
    }
  }

  lemma AddEntry(open: seq<OpenInode>, n: OpenInode)
    requires DistinctSectors(open) && n.sector !in OpenSet(open)
    ensures DistinctSectors([n] + open) && OpenSet([n] + open) == OpenSet(open) + {n.sector}
  {
    var r := [n] + open;
    forall j | 0 < j < |r| ensures r[j].sector != n.sector {
      assert r[j] == open[j - 1];
    }
    forall s ensures s in OpenSet(r) <==> s in OpenSet(open) || s == n.sector {
      assert r[0].sector == n.sector;
      if s in OpenSet(open) {
        var j :| 0 <= j < |open| && open[j].sector == s;
        assert r[j + 1].sector == s;
      }
    }
  }

  /** inode_open: one more reference, and a faithful entry if there was none. */
  lemma OpenStep(disk: seq<Sector>, listed: set<nat>, open: seq<OpenInode>, files: map<nat, File>, s: nat)
    requires CacheOk(disk, listed, open, files, None)
    requires s < |disk| && disk[s].Header?
    ensures CacheOk(disk, listed, OpenSector(open, disk, s), files, Some(s))
    ensures OpenSet(OpenSector(open, disk, s)) == OpenSet(open) + {s}
  {
    FindIn(open, s);
    hide CacheOk, OpenSet, DistinctSectors, InodeAt;
    match FindOpen(open, s, 0)
    case Some(i) => OpenAgain(disk, listed, open, files, s, i);
    case None => OpenFirst(disk, listed, open, files, s);
  }

  lemma OpenAgain(disk: seq<Sector>, listed: set<nat>, open: seq<OpenInode>, files: map<nat, File>, s: nat, i: nat)
    requires CacheOk(disk, listed, open, files, None) && i < |open| && open[i].sector == s
    ensures var r := open[i := open[i].(openCnt := open[i].openCnt + 1)];
            CacheOk(disk, listed, r, files, Some(s)) && OpenSet(r) == OpenSet(open) + {s}
  {
    hide Handles, Deniers;
    var n := open[i].(openCnt := open[i].openCnt + 1);
    var r := open[i := n];
    UpdateEntry(open, i, n);
    assert open[i].sector in OpenSet(open);
    hide OpenSet;
    forall j | 0 <= j < |r| ensures Faithful(disk, listed, r[j], files, Some(s)) {
      assert Faithful(disk, listed, open[j], files, None);
      assert j != i ==> open[j].sector != open[i].sector;
    }
  }

  lemma OpenFirst(disk: seq<Sector>, listed: set<nat>, open: seq<OpenInode>, files: map<nat, File>, s: nat)
    requires CacheOk(disk, listed, open, files, None) && s !in OpenSet(open)
    requires s < |disk| && disk[s].Header?
    ensures var r := [OpenInode(s, 1, false, 0, InodeAt(disk, s))] + open;
            CacheOk(disk, listed, r, files, Some(s)) && OpenSet(r) == OpenSet(open) + {s}
  {
    var n := OpenInode(s, 1, false, 0, InodeAt(disk, s));
    var r := [n] + open;
    AddEntry(open, n);
    assert Handles(files, s) == {} && Deniers(files, s) == {};
    hide Handles, Deniers;
    forall j | 0 <= j < |r| ensures Faithful(disk, listed, r[j], files, Some(s)) {
      if j > 0 {
        assert r[j] == open[j - 1] && Faithful(disk, listed, open[j - 1], files, None);
        assert open[j - 1].sector in OpenSet(open);
      }
    }
  }

  lemma CountNew(files: map<nat, File>, h: nat, s: nat, t: nat)
    requires h !in files
    ensures |Handles(files[h := File(s, 0, false)], t)| == |Handles(files, t)| + One(Some(s), t)
    ensures |Deniers(files[h := File(s, 0, false)], t)| == |Deniers(files, t)|
  {
    var files' := files[h := File(s, 0, false)];
    assert Deniers(files', t) == Deniers(files, t);
    assert Handles(files', t) == if t == s then Handles(files, t) + {h} else Handles(files, t);
  }

  lemma CountGone(files: map<nat, File>, f: nat, t: nat)
    requires f in files && !files[f].deny
    ensures |Handles(files, t)| == |Handles(files - {f}, t)| + One(Some(files[f].sector), t)
    ensures |Deniers(files - {f}, t)| == |Deniers(files, t)|
  {
    var files' := files - {f};
    assert Deniers(files', t) == Deniers(files, t);
    assert Handles(files, t) == if t == files[f].sector then Handles(files', t) + {f} else Handles(files', t);
  }

  lemma CountSwitch(files: map<nat, File>, f: nat, deny: bool, t: nat)
    requires f in files && files[f].deny != deny
    ensures |Handles(files[f := files[f].(deny := deny)], t)| == |Handles(files, t)|
    ensures |Deniers(files[f := files[f].(deny := deny)], t)|
         == |Deniers(files, t)| + if t != files[f].sector then 0 else if deny then 1 else -1
  {
    var files' := files[f := files[f].(deny := deny)];
    assert Handles(files', t) == Handles(files, t);
    if t != files[f].sector {
      assert Deniers(files', t) == Deniers(files, t);
    } else if deny {
      assert Deniers(files', t) == Deniers(files, t) + {f};
    } else {
      assert Deniers(files, t) == Deniers(files', t) + {f};
    }
  }

  lemma CountMoved(files: map<nat, File>, f: nat, pos: nat, t: nat)
    requires f in files
    ensures |Handles(files[f := files[f].(pos := pos)], t)| == |Handles(files, t)|
    ensures |Deniers(files[f := files[f].(pos := pos)], t)| == |Deniers(files, t)|
  {
    var files' := files[f := files[f].(pos := pos)];
    assert Handles(files', t) == Handles(files, t) && Deniers(files', t) == Deniers(files, t);
  }

  /** The reference becomes a struct file. */
  lemma HandOver(disk: seq<Sector>, listed: set<nat>, open: seq<OpenInode>, files: map<nat, File>, s: nat, h: nat)
    requires CacheOk(disk, listed, open, files, Some(s)) && h !in files
    ensures CacheOk(disk, listed, open, files[h := File(s, 0, false)], None)
  {
    hide Handles, Deniers, OpenSet;
    forall i | 0 <= i < |open| ensures Faithful(disk, listed, open[i], files[h := File(s, 0, false)], None) {
      CountNew(files, h, s, open[i].sector);
    }
  }

  /** A struct file is given up; its reference stays for a moment. */
  lemma TakeBack(disk: seq<Sector>, listed: set<nat>, open: seq<OpenInode>, files: map<nat, File>, f: nat)
    requires CacheOk(disk, listed, open, files, None) && f in files && !files[f].deny
    ensures CacheOk(disk, listed, open, files - {f}, Some(files[f].sector))
  {
    hide Handles, Deniers, OpenSet;
    forall i | 0 <= i < |open| ensures Faithful(disk, listed, open[i], files - {f}, Some(files[f].sector)) {
      CountGone(files, f, open[i].sector);
    }
  }

  /** inode_close while others still hold the inode. */
  lemma CloseShared(disk: seq<Sector>, listed: set<nat>, open: seq<OpenInode>, files: map<nat, File>, i: nat)
    requires i < |open| && CacheOk(disk, listed, open, files, Some(open[i].sector)) && open[i].openCnt != 1
    ensures var open' := open[i := open[i].(openCnt := open[i].openCnt - 1)];
            CacheOk(disk, listed, open', files, None) && OpenSet(open') == OpenSet(open)
  {
    var n := open[i].(openCnt := open[i].openCnt - 1);
    var open' := open[i := n];
    UpdateEntry(open, i, n);
    forall j | 0 <= j < |open'| ensures Faithful(disk, listed, open'[j], files, None) {
      assert Faithful(disk, listed, open[j], files, Some(open[i].sector));
      assert j != i ==> open[j].sector != open[i].sector;
    }
  }

  /** inode_close by the last holder. */
  lemma CloseLast(disk: seq<Sector>, listed: set<nat>, open: seq<OpenInode>, files: map<nat, File>, i: nat)
    requires i < |open| && CacheOk(disk, listed, open, files, Some(open[i].sector)) && open[i].openCnt == 1
    ensures var open' := open[..i] + open[i + 1..];
            CacheOk(disk, listed, open', files, None) && OpenSet(open') == OpenSet(open) - {open[i].sector}
  {
    var s, open' := open[i].sector, open[..i] + open[i + 1..];
    DropEntry(open, i);
    assert Faithful(disk, listed, open[i], files, Some(s));
    assert |Handles(files, s)| == 0;
    forall f | f in files ensures files[f].sector in OpenSet(open') {
      if files[f].sector == s {
        OneElement(Handles(files, s), f);
      }
    }
    forall j | 0 <= j < |open'| ensures Faithful(disk, listed, open'[j], files, None) {
      var k := if j < i then j else j + 1;
      assert Faithful(disk, listed, open[k], files, Some(s));
      assert open[k].sector != s;
    }
  }

  /** Deniers are handles, so the assertions on deny_write_cnt hold. */
  lemma DenyBounds(disk: seq<Sector>, listed: set<nat>, open: seq<OpenInode>, files: map<nat, File>, i: nat, f: nat)
    requires CacheOk(disk, listed, open, files, None) && i < |open| && f in files && files[f].sector == open[i].sector
    ensures files[f].deny ==> 0 < open[i].denyCnt <= open[i].openCnt
    ensures !files[f].deny ==> open[i].denyCnt + 1 <= open[i].openCnt
  {
    var s := open[i].sector;
    assert Faithful(disk, listed, open[i], files, None);
    var h, d := Handles(files, s), Deniers(files, s);
    if files[f].deny {
      OneElement(d, f);
      SubsetSize(d, h);
    } else {
      SubsetSize(d + {f}, h);
    }
  }

  /** Switching the deny flag of one file with the counter of its inode. */
  lemma SwitchDeny(disk: seq<Sector>, listed: set<nat>, open: seq<OpenInode>, files: map<nat, File>, i: nat, f: nat, deny: bool)
    requires CacheOk(disk, listed, open, files, None) && i < |open|
    requires f in files && files[f].sector == open[i].sector && files[f].deny != deny
    ensures var n := open[i].(denyCnt := open[i].denyCnt + if deny then 1 else -1);
            && CacheOk(disk, listed, open[i := n], files[f := files[f].(deny := deny)], None)
            && OpenSet(open[i := n]) == OpenSet(open)
  {
    hide Handles, Deniers, OpenSet;
    var n := open[i].(denyCnt := open[i].denyCnt + if deny then 1 else -1);
    var open', files' := open[i := n], files[f := files[f].(deny := deny)];
    UpdateEntry(open, i, n);
    forall j | 0 <= j < |open'| ensures Faithful(disk, listed, open'[j], files', None) {
      assert Faithful(disk, listed, open[j], files, None);
      assert j != i ==> open[j].sector != open[i].sector;
      CountSwitch(files, f, deny, open[j].sector);
    }
  }

  /** Changes that leave the open inodes' own sectors alone and list none of them anew. */
  lemma CacheFrame(disk: seq<Sector>, disk': seq<Sector>, listed: set<nat>, listed': set<nat>,
                   open: seq<OpenInode>, files: map<nat, File>, raw: Option<nat>)
    requires CacheOk(disk, listed, open, files, raw) && |disk'| == |disk|
    requires forall s :: s in OpenSet(open) && s < |disk| ==> disk'[s] == disk[s] && (s in listed' ==> s in listed)
    ensures CacheOk(disk', listed', open, files, raw)
  {
    forall i | 0 <= i < |open| ensures Faithful(disk', listed', open[i], files, raw) {
      assert Faithful(disk, listed, open[i], files, raw);
      assert open[i].sector in OpenSet(open);
    }
  }

  /** The directory entry goes and the open inode is marked removed. */
  lemma Unlist(disk: seq<Sector>, listed: set<nat>, open: seq<OpenInode>, files: map<nat, File>, i: nat)
    requires i < |open| && open[i].sector >= 2
    requires CacheOk(disk, listed, open, files, Some(open[i].sector))
    ensures var s, open' := open[i].sector, open[i := open[i].(removed := true)];
            CacheOk(disk, listed - {s}, open', files, Some(s)) && OpenSet(open') == OpenSet(open)
  {
    var s := open[i].sector;
    var n := open[i].(removed := true);
    var open' := open[i := n];
    UpdateEntry(open, i, n);
    forall j | 0 <= j < |open'| ensures Faithful(disk, listed - {s}, open'[j], files, Some(s)) {
      assert Faithful(disk, listed, open[j], files, Some(s));
      assert j != i ==> open[j].sector != s;
    }
  }

  /** Changing a file's position changes no count. */
  lemma MovePosition(disk: seq<Sector>, listed: set<nat>, open: seq<OpenInode>, files: map<nat, File>, f: nat, pos: nat)
    requires CacheOk(disk, listed, open, files, None) && f in files
    ensures CacheOk(disk, listed, open, files[f := files[f].(pos := pos)], None)
  {
    hide Handles, Deniers, OpenSet;
    forall i | 0 <= i < |open| ensures Faithful(disk, listed, open[i], files[f := files[f].(pos := pos)], None) {
      CountMoved(files, f, pos, open[i].sector);
    }
  }
}
