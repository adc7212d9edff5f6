/** What struct files mean: positions, writing one piece after another, several handles on
    one inode, and denied writes. */
module FsHandles {
  import opened Bitmap
  import opened DiskModel
  import opened InodeIO
  import opened FsSpec
  import opened FsOwnership
  import opened FsCache
  import opened FsInvariant
  import opened FsRuns
  import opened FsEffects
  import opened FsHistory

  // ---------------------------------------------------------------- one write after another

  lemma PatchJoin(disk: seq<Sector>, base: int, a: seq<byte>, b: seq<byte>)
    ensures Patch(Patch(disk, base, a), base + |a|, b) == Patch(disk, base, a + b)
  {
    forall s | 0 <= s < |disk|
      ensures Patch(Patch(disk, base, a), base + |a|, b)[s] == Patch(disk, base, a + b)[s]
    {
      var first := s * SECTOR_SIZE;
      assert PatchSector(PatchSector(disk[s], first, base, a), first, base + |a|, b) == PatchSector(disk[s], first, base, a + b);
    }
  }

  /** How far two transfers in a row get. */
  lemma TransfersAdd(length: nat, a: seq<byte>, b: seq<byte>, pos: nat)
    ensures var m := Transferred(length, |a|, pos, true);
            var n := Transferred(length, |b|, pos + m, true);
            && Transferred(length, |a + b|, pos, true) == m + n
            && (a + b)[..m + n] == a[..m] + b[..n]
  {
    var m := Transferred(length, |a|, pos, true);
    var n := Transferred(length, |b|, pos + m, true);
    assert m < |a| ==> n == 0;
  }

  /** file_write of one piece and then of another stores what file_write of both together
      does: the second goes where the first ended, and the end of the file cuts off the same
      bytes. */
  lemma TwoWrites(st: State, f: nat, a: seq<byte>, b: seq<byte>)
    requires IsOpenFile(st, f)
    ensures WriteFile(st, f, a, true).Done? && IsOpenFile(WriteFile(st, f, a, true).st, f)
    ensures WriteFile(WriteFile(st, f, a, true).st, f, b, true) == WriteFile(st, f, a + b, true)
  {
    var n, pos := InodeOf(st, f), st.files[f].pos;
    var st1 := WriteFile(st, f, a, true).st;
    TransfersAdd(n.data.length, a, b, pos);
    var m, m' := Written(st, f, a, true), Written(st1, f, b, true);
    assert InodeOf(st1, f) == n;
    PatchJoin(st.disk, n.data.start * SECTOR_SIZE + pos, a[..m], b[..m']);
    assert Written(st, f, a + b, true) == m + m' && (a + b)[..m + m'] == a[..m] + b[..m'];
    hide Patch, Written, InodeOf;
    assert st1.files[f := st1.files[f].(pos := pos + m + m')] == st.files[f := st.files[f].(pos := pos + m + m')];
  }

  /** The data stand in the bytes at a position. */
  predicate StandsAt(bytes: seq<byte>, pos: nat, data: seq<byte>) {
    pos + |data| <= |bytes| && bytes[pos..pos + |data|] == data
  }

  /** What file_write moved stands in the file where the handle was, and the handle behind it. */
  lemma WriteReadsBack(st: State, f: nat, data: seq<byte>, bounceOk: bool)
    requires Inv(st) && f in st.files
    ensures IsOpenFile(st, f) && WriteFile(st, f, data, bounceOk).Done?
    ensures var st', pos, moved := WriteFile(st, f, data, bounceOk).st, st.files[f].pos, Written(st, f, data, bounceOk);
            && f in st'.files && st'.files[f] == st.files[f].(pos := pos + moved)
            && (moved > 0 ==> StandsAt(FileBytes(st'.disk, st.files[f].sector), pos, data[..moved]))
  {
    hide *;
    OwnWrite(st, f, data, bounceOk);
    OpenData(st, f);
    BytesAre(st.disk, st.files[f].sector);
    WriteMoves(st, f, data, bounceOk);
    AppliedBack(FileBytes(st.disk, st.files[f].sector), st.files[f].pos, data[..Written(st, f, data, bounceOk)]);
  }

  lemma AppliedBack(c: seq<byte>, pos: nat, data: seq<byte>)
    requires data == [] || pos + |data| <= |c|
    ensures data != [] ==> StandsAt(Apply(c, Write(pos, data)), pos, data)
  {
  }

  lemma WriteMoves(st: State, f: nat, data: seq<byte>, bounceOk: bool)
    requires IsOpenFile(st, f)
    ensures var pos, moved := st.files[f].pos, Written(st, f, data, bounceOk);
            && f in st.files && (moved > 0 ==> pos + moved <= InodeOf(st, f).data.length)
            && Effective(st, f, data, bounceOk) == Write(pos, data[..moved])
            && WriteFile(st, f, data, bounceOk).Done?
            && WriteFile(st, f, data, bounceOk).st.files == st.files[f := st.files[f].(pos := pos + moved)]
  {
    hide FindOpen, Patch;
  }

  /** After file_seek what is written stands where it pointed, whatever the handle did before. */
  lemma SeekThenWrite(st: State, f: nat, pos: nat, st1: State, data: seq<byte>, bounceOk: bool)
    requires Inv(st) && IsOpenFile(st, f) && Seek(st, f, pos) == Done(st1, true)
    ensures IsOpenFile(st1, f) && st1.disk == st.disk && WriteFile(st1, f, data, bounceOk).Done?
    ensures Written(st1, f, data, bounceOk) > 0
        ==> StandsAt(FileBytes(WriteFile(st1, f, data, bounceOk).st.disk, st.files[f].sector), pos, data[..Written(st1, f, data, bounceOk)])
  {
    hide *;
    SeekMoves(st, f, pos);
    SeekGood(st, f, pos);
    GoodKeeps(Seek(st, f, pos));
    WriteReadsBack(st1, f, data, bounceOk);
  }

  lemma GoodKeeps(r: Result)
    requires Good(r)
    ensures r.Done? && Inv(r.st)
  {
  }

  lemma SeekMoves(st: State, f: nat, pos: nat)
    requires IsOpenFile(st, f)
    ensures f in st.files && Seek(st, f, pos).Done?
    ensures var st1 := Seek(st, f, pos).st;
            && st1.disk == st.disk && st1.files == st.files[f := File(st.files[f].sector, pos, st.files[f].deny)]
            && IsOpenFile(st1, f)
  {
  }

  // ---------------------------------------------------------------- reopening

  /** file_reopen succeeds exactly if it gets its struct file, which is on the same inode, at
      position zero and not denying writes; closing it again leaves everything as it was. */
  lemma ReopenMeans(st: State, f: nat, h: nat, mem: Memory)
    requires Inv(st) && f in st.files && h !in st.files
    ensures IsOpenFile(st, f) && Reopen(st, f, h, mem).Done?
    ensures var r := Reopen(st, f, h, mem);
            && (r.ok <==> mem.file)
            && (!r.ok ==> r.st == st)
            && (r.ok ==>
                  && r.st.files == st.files[h := File(st.files[f].sector, 0, false)]
                  && r.st.disk == st.disk && r.st.slots == st.slots && r.st.used == st.used
                  && IsOpenFile(r.st, h) && Close(r.st, h) == Done(st, true))
  {
    hide *;
    FileIsOpen(st, f);
    var s := st.files[f].sector;
    FileIsLive(st, f);
    OpenFileEffect(st, s, h, mem.file);
    OpenThenClose(st, s);
    ReopenDoes(st, f, h, mem);
    if mem.file {
      CloseAgain(st, s, h);
    }
  }

  lemma ReopenDoes(st: State, f: nat, h: nat, mem: Memory)
    requires IsOpenFile(st, f)
    ensures f in st.files && FindOpen(OpenSector(st.open, st.disk, st.files[f].sector), st.files[f].sector, 0).Some?
    ensures Reopen(st, f, h, mem)
         == OpenFile(st.(open := OpenSector(st.open, st.disk, st.files[f].sector)), st.files[f].sector, h, mem.file)
  {
    hide FindOpen, OpenSector, OpenFile;
  }

  lemma CloseAgain(st: State, s: nat, h: nat)
    requires h !in st.files && FindOpen(OpenSector(st.open, st.disk, s), s, 0).Some?
    ensures var st1 := st.(open := OpenSector(st.open, st.disk, s), files := st.files[h := File(s, 0, false)]);
            IsOpenFile(st1, h) && Close(st1, h) == CloseInode(st.(open := OpenSector(st.open, st.disk, s)), s)
  {
    hide FindOpen, OpenSector, CloseInode;
    var st1 := st.(open := OpenSector(st.open, st.disk, s), files := st.files[h := File(s, 0, false)]);
    assert st1.(files := st1.files - {h}) == st.(open := OpenSector(st.open, st.disk, s));
  }

  lemma FileIsLive(st: State, f: nat)
    requires Inv(st) && f in st.files
    ensures st.files[f].sector in Live(st.slots, st.open)
  {
    FileIsOpen(st, f);
    hide Inv, ListedSet;
  }

  // ---------------------------------------------------------------- denied writes

  /** Some handle on the same inode denies writes. */
  predicate Denied(st: State, f: nat) {
    f in st.files && exists g :: g in st.files && st.files[g].sector == st.files[f].sector && st.files[g].deny
  }

  /** A write is denied exactly while some handle on the inode, its own or another, denies
      writes; it then moves nothing and changes nothing, and else what the transfer gives. */
  lemma DeniedExactly(st: State, f: nat, data: seq<byte>, bounceOk: bool)
    requires Inv(st) && f in st.files
    ensures IsOpenFile(st, f) && st.files[f].sector < |st.disk| && st.disk[st.files[f].sector].Header?
    ensures Written(st, f, data, bounceOk)
         == if Denied(st, f) then 0 else Transferred(st.disk[st.files[f].sector].inode.length, |data|, st.files[f].pos, bounceOk)
    ensures Denied(st, f) ==> WriteFile(st, f, data, bounceOk) == Done(st, true)
  {
    hide *;
    FileIsOpen(st, f);
    OpenData(st, f);
    PlacedIs(st.disk, st.files[f].sector);
    var i := Place(st, f);
    CountIsDeniers(st, i);
    DeniersSome(st.files, f);
    DeniedIs(st, f);
    WrittenIs(st, f, i, data, bounceOk);
    if Denied(st, f) {
      NothingWritten(st, f, data, bounceOk);
    }
  }

  lemma PlacedIs(disk: seq<Sector>, s: nat)
    requires Placed(disk, s)
    ensures s < |disk| && disk[s].Header?
  {
  }

  lemma DeniedIs(st: State, f: nat)
    requires f in st.files
    ensures Denied(st, f) <==> exists g :: g in st.files && st.files[g].sector == st.files[f].sector && st.files[g].deny
  {
  }

  lemma WrittenIs(st: State, f: nat, i: nat, data: seq<byte>, bounceOk: bool)
    requires IsOpenFile(st, f) && FindOpen(st.open, st.files[f].sector, 0) == Some(i) && i < |st.open|
    ensures f in st.files && InodeOf(st, f) == st.open[i]
    ensures Written(st, f, data, bounceOk)
         == if st.open[i].denyCnt != 0 then 0 else Transferred(st.open[i].data.length, |data|, st.files[f].pos, bounceOk)
  {
    hide FindOpen, Transferred;
  }

  lemma NothingWritten(st: State, f: nat, data: seq<byte>, bounceOk: bool)
    requires IsOpenFile(st, f) && Written(st, f, data, bounceOk) == 0
    ensures WriteFile(st, f, data, bounceOk) == Done(st, true)
  {
    hide FindOpen, Patch, Written, InodeOf;
    NothingStored(st.disk, InodeOf(st, f).data.start * SECTOR_SIZE + st.files[f].pos);
    assert data[..0] == [];
    assert st.files[f := st.files[f]] == st.files;
  }

  lemma CountIsDeniers(st: State, i: nat)
    requires Inv(st) && i < |st.open|
    ensures st.open[i].denyCnt == |Deniers(st.files, st.open[i].sector)|
  {
    hide Deniers;
    assert Faithful(st.disk, ListedSet(st.slots), st.open[i], st.files, None);
  }

  lemma DeniersSome(files: map<nat, File>, f: nat)
    requires f in files
    ensures |Deniers(files, files[f].sector)| != 0
       <==> exists g :: g in files && files[g].sector == files[f].sector && files[g].deny
  {
    var d := Deniers(files, files[f].sector);
    if d != {} {
      var g :| g in d;
      assert files[g].sector == files[f].sector;
    }
    if g :| g in files && files[g].sector == files[f].sector && files[g].deny {
      assert g in d;
    }
  }

  lemma NothingStored(disk: seq<Sector>, base: int)
    ensures Patch(disk, base, []) == disk
  {
    forall s | 0 <= s < |disk| ensures Patch(disk, base, [])[s] == disk[s] {
      if disk[s].Data? {
        assert PatchSector(disk[s], s * SECTOR_SIZE, base, []).bytes == disk[s].bytes;
      }
    }
  }

  lemma FoundAgain(st: State, i: nat, n: OpenInode)
    requires Inv(st) && i < |st.open| && n.sector == st.open[i].sector
    ensures FindOpen(st.open[i := n], n.sector, 0) == Some(i)
  {
    UpdateEntry(st.open, i, n);
    FindIs(st.open[i := n], i);
  }

  /** file_allow_write undoes file_deny_write. */
  lemma DenyThenAllow(st: State, f: nat)
    requires Inv(st) && f in st.files && !st.files[f].deny
    ensures IsOpenFile(st, f) && DenyWrite(st, f).Done? && IsOpenFile(DenyWrite(st, f).st, f)
    ensures DenyWrite(st, f).st != st && AllowWrite(DenyWrite(st, f).st, f) == Done(st, true)
  {
    hide *;
    FileIsOpen(st, f);
    DenyGood(st, f);
    GoodIsDone(DenyWrite(st, f));
    var i := Place(st, f);
    var n := st.open[i];
    CountIsDeniers(st, i);
    FoundAgain(st, i, n.(denyCnt := n.denyCnt + 1));
    Denies(st, f, i);
    AllowBack(st, DenyWrite(st, f).st, f, i);
  }

  /** Where the handle's inode is in the list. */
  lemma Place(st: State, f: nat) returns (i: nat)
    requires IsOpenFile(st, f)
    ensures FindOpen(st.open, st.files[f].sector, 0) == Some(i) && i < |st.open| && st.open[i].sector == st.files[f].sector
  {
    i := FindOpen(st.open, st.files[f].sector, 0).value;
  }

  lemma Denies(st: State, f: nat, i: nat)
    requires IsOpenFile(st, f) && FindOpen(st.open, st.files[f].sector, 0) == Some(i) && i < |st.open|
    requires !st.files[f].deny && DenyWrite(st, f).Done?
    ensures f in st.files && st.open[i].denyCnt < st.open[i].openCnt && DenyWrite(st, f).st != st
    ensures DenyWrite(st, f).st
         == st.(files := st.files[f := st.files[f].(deny := true)], open := st.open[i := st.open[i].(denyCnt := st.open[i].denyCnt + 1)])
  {
    hide FindOpen;
    var open' := st.open[i := st.open[i].(denyCnt := st.open[i].denyCnt + 1)];
    assert open'[i] != st.open[i];
  }

  lemma AllowBack(st: State, st1: State, f: nat, i: nat)
    requires f in st.files && !st.files[f].deny && i < |st.open| && 0 <= st.open[i].denyCnt < st.open[i].openCnt
    requires FindOpen(st1.open, st.files[f].sector, 0) == Some(i)
    requires st1 == st.(files := st.files[f := st.files[f].(deny := true)], open := st.open[i := st.open[i].(denyCnt := st.open[i].denyCnt + 1)])
    ensures IsOpenFile(st1, f) && AllowWrite(st1, f) == Done(st, true)
  {
    hide FindOpen;
    assert st1.files[f := st1.files[f].(deny := false)] == st.files;
    assert st1.open[i := st1.open[i].(denyCnt := st1.open[i].denyCnt - 1)] == st.open;
  }

  // ---------------------------------------------------------------- handles over runs

  /** What a call leaves of a handle that it does not close. */
  function HandleAfter(st: State, c: Call, f: nat): File
    requires f in st.files && (c.WriteCall? && c.f == f ==> IsOpenFile(st, f))
  {
    var x := st.files[f];
    match c
    case WriteCall(g, data, bounceOk) => if g == f then x.(pos := x.pos + Written(st, f, data, bounceOk)) else x
    case SeekCall(g, pos) => if g == f && pos >= 0 then x.(pos := pos) else x
    case DenyCall(g) => if g == f then x.(deny := true) else x
    case AllowCall(g) => if g == f then x.(deny := false) else x
    case _ => x
  }

  /** Other calls, and calls on other handles, leave a handle alone. */
  lemma HandleKept(st: State, c: Call, st': State, f: nat)
    requires Inv(st) && Follows(st, c, st') && f in st.files && c != CloseCall(f)
    ensures c.WriteCall? && c.f == f ==> IsOpenFile(st, f)
    ensures f in st'.files && st'.files[f] == HandleAfter(st, c, f)
  {
    hide *;
    FollowsIs(st, c, st');
    OnItsHandle(c, f);
    if !OnHandle(c, f) {
      SameHandle(st, c, f);
    }
    if c.CreateCall? || c.RemoveCall? {
      HandlesSame(st, c);
    } else if c.OpenCall? || c.ReopenCall? {
      HandleAdded(st, c);
    } else if c.CloseCall? {
      HandleGone(st, c);
    } else {
      HandleChanged(st, c);
    }
  }

  lemma OnItsHandle(c: Call, f: nat)
    ensures OnHandle(c, f) <==> (c.WriteCall? || c.SeekCall? || c.DenyCall? || c.AllowCall?) && c.f == f
    ensures c.CloseCall? && c != CloseCall(f) ==> c.f != f
  {
  }

  lemma FollowsIs(st: State, c: Call, st': State)
    requires Follows(st, c, st')
    ensures Possible(st, c) && Step(st, c).Done? && st' == Step(st, c).st
  {
  }

  predicate OnHandle(c: Call, f: nat) {
    (c.WriteCall? || c.SeekCall? || c.DenyCall? || c.AllowCall?) && c.f == f
  }

  lemma SameHandle(st: State, c: Call, f: nat)
    requires f in st.files && !OnHandle(c, f)
    ensures HandleAfter(st, c, f) == st.files[f]
  {
  }

  lemma HandlesSame(st: State, c: Call)
    requires Inv(st) && Possible(st, c) && (c.CreateCall? || c.RemoveCall?) && Step(st, c).Done?
    ensures Step(st, c).st.files == st.files
  {
    hide *;
    InvIs(st);
    InvSizes(st, None);
    if c.CreateCall? {
      CreateEffect(st, c);
    } else {
      RemoveEffect(st, c);
    }
  }

  lemma HandleAdded(st: State, c: Call)
    requires Inv(st) && Possible(st, c) && (c.OpenCall? || c.ReopenCall?) && Step(st, c).Done?
    ensures c.h !in st.files && st.files.Keys <= Step(st, c).st.files.Keys
    ensures forall f :: f in st.files ==> Step(st, c).st.files[f] == st.files[f]
  {
    hide Inv, Open, Reopen, FindOpen, MayHold, Lookup, Close;
    if c.OpenCall? {
      OpenEffect(st, c.name, c.h, c.mem);
    } else {
      ReopenMeans(st, c.f, c.h, c.mem);
    }
  }

  lemma HandleGone(st: State, c: Call)
    requires Inv(st) && Possible(st, c) && c.CloseCall? && Step(st, c).Done?
    ensures Step(st, c).st.files == st.files - {c.f}
  {
    hide Inv, Close, FindOpen;
    CloseEffect(st, c.f);
  }

  lemma HandleChanged(st: State, c: Call)
    requires c.WriteCall? || c.SeekCall? || c.DenyCall? || c.AllowCall?
    requires Possible(st, c) && Step(st, c).Done?
    ensures IsOpenFile(st, c.f) && c.f in st.files
    ensures Step(st, c).st.files == st.files[c.f := HandleAfter(st, c, c.f)]
  {
    hide FindOpen, Patch;
    assert st.files[c.f := st.files[c.f]] == st.files;
  }


  /** The handle is not closed by the calls from `i` to `j`. */
  predicate StaysOpen(calls: seq<Call>, f: nat, i: nat, j: nat) {
    j <= |calls| && forall k :: i <= k < j ==> calls[k] != CloseCall(f)
  }

  /** The last of the calls `i` to `j` that denies or allows writes through the handle, if
      any, denies them; `was` is how it was before. */
  predicate LastDenies(calls: seq<Call>, f: nat, i: nat, j: nat, was: bool)
    requires i <= j <= |calls|
  {
    || (was && forall k :: i <= k < j ==> calls[k] != AllowCall(f))
    || exists k :: i <= k < j && calls[k] == DenyCall(f) && forall m :: k < m < j ==> calls[m] != AllowCall(f)
  }

  /** The bytes that the calls `i` to `j` write through the handle. */
  function BytesMoved(calls: seq<Call>, states: seq<State>, f: nat, i: nat, j: nat): nat
    requires i <= j <= |calls| <= |states|
  {
    if i == j then 0
    else BytesMoved(calls, states, f, i, j - 1) + Moved(states[j - 1], calls[j - 1], f)
  }

  function Moved(st: State, c: Call, f: nat): nat {
    if c.WriteCall? && c.f == f && IsOpenFile(st, f) then Written(st, f, c.data, c.bounceOk) else 0
  }

  lemma HandleStep(st: State, c: Call, st': State, f: nat)
    requires Inv(st) && Follows(st, c, st') && f in st.files && c != CloseCall(f)
    ensures f in st'.files && st'.files[f].sector == st.files[f].sector
    ensures st'.files[f].deny <==> c == DenyCall(f) || (c != AllowCall(f) && st.files[f].deny)
    ensures (c.SeekCall? ==> c.f != f) ==> st'.files[f].pos == st.files[f].pos + Moved(st, c, f)
  {
    HandleKept(st, c, st', f);
    hide Inv, Step, Possible, IsOpenFile, Written;
  }

  /** Over a run, until it is closed, a handle stays on its inode; it denies writes exactly
      if the last call on it that says so does; and without a seek it stands as far behind
      its place as bytes were written through it. */
  lemma {:induction false} RunHandle(size: nat, calls: seq<Call>, states: seq<State>, f: nat, i: nat, j: nat)
    requires IsRun(size, calls, states) && i <= j < |states| && f in states[i].files && StaysOpen(calls, f, i, j)
    ensures f in states[j].files && states[j].files[f].sector == states[i].files[f].sector
    ensures states[j].files[f].deny <==> LastDenies(calls, f, i, j, states[i].files[f].deny)
    ensures (forall k, pos :: i <= k < j ==> calls[k] != SeekCall(f, pos))
        ==> states[j].files[f].pos == states[i].files[f].pos + BytesMoved(calls, states, f, i, j)
    decreases j
  {
    hide Inv, Possible, Step, Follows, Format, Moved, LastDenies;
    if i == j {
      NoCalls(calls, f, i, states[i].files[f].deny);
    } else {
      RunHandle(size, calls, states, f, i, j - 1);
      ReachableIsGood(size, calls, states, j - 1, SeekCall(0, 0));
      assert Follows(states[j - 1], calls[j - 1], states[j]);
      HandleStep(states[j - 1], calls[j - 1], states[j], f);
      OneMoreCall(calls, f, i, j, states[i].files[f].deny);
    }
  }

  lemma NoCalls(calls: seq<Call>, f: nat, i: nat, was: bool)
    requires i <= |calls|
    ensures LastDenies(calls, f, i, i, was) <==> was
  {
  }

  lemma OneMoreCall(calls: seq<Call>, f: nat, i: nat, j: nat, was: bool)
    requires i < j <= |calls|
    ensures LastDenies(calls, f, i, j, was)
       <==> calls[j - 1] == DenyCall(f) || (calls[j - 1] != AllowCall(f) && LastDenies(calls, f, i, j - 1, was))
  {
  }

  lemma IsDenied(st: State, f: nat, g: nat)
    requires f in st.files && g in st.files && st.files[g].sector == st.files[f].sector && st.files[g].deny
    ensures Denied(st, f)
  {
  }

  lemma WriteIs(st: State, c: Call, st': State)
    requires Follows(st, c, st') && c.WriteCall? && IsOpenFile(st, c.f)
    ensures WriteFile(st, c.f, c.data, c.bounceOk) == Step(st, c) && st' == Step(st, c).st
  {
  }

  /** From a file_deny_write on, until the same handle allows writes again or is closed, a
      write through any handle on the inode changes nothing at all. */
  lemma RunDenied(size: nat, calls: seq<Call>, states: seq<State>, f: nat, i: nat, j: nat)
    requires IsRun(size, calls, states) && i < j < |calls| && calls[i] == DenyCall(f)
    requires forall k :: i < k < j ==> calls[k] != AllowCall(f) && calls[k] != CloseCall(f)
    requires calls[j].WriteCall? && f in states[j].files && calls[j].f in states[j].files
    requires states[j].files[calls[j].f].sector == states[j].files[f].sector
    ensures states[j + 1] == states[j]
  {
    assert Follows(states[i], calls[i], states[i + 1]) && Follows(states[j], calls[j], states[j + 1]);
    assert f in states[i].files;
    RunHandle(size, calls, states, f, i, j);
    assert LastDenies(calls, f, i, j, states[i].files[f].deny);
    ReachableIsGood(size, calls, states, j, SeekCall(0, 0));
    hide *;
    DeniedExactly(states[j], calls[j].f, calls[j].data, calls[j].bounceOk);
    IsDenied(states[j], calls[j].f, f);
    WriteIs(states[j], calls[j], states[j + 1]);
  }
}
