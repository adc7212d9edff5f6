/** Whole runs of the file system, from formatting on. */
module FsRuns {
  import opened Bitmap
  import opened DiskModel
  import opened InodeIO
  import opened FsSpec
  import opened FsOwnership
  import opened FsCache
  import opened FsInvariant

  datatype Call =
    | CreateCall(name: string, size: int, mem: Memory)
    | OpenCall(name: string, h: nat, mem: Memory)
    | ReopenCall(f: nat, h: nat, mem: Memory)
    | DenyCall(f: nat)
    | AllowCall(f: nat)
    | CloseCall(f: nat)
    | RemoveCall(name: string, mem: Memory)
    | WriteCall(f: nat, data: seq<byte>, bounceOk: bool)
    | SeekCall(f: nat, pos: int)

  /** Handle 0 is the free map's own struct file, which no caller holds. */
  const FREE_MAP_HANDLE: nat := 0

  predicate Holds(st: State, f: nat) {
    f in st.files && f != FREE_MAP_HANDLE
  }

  /** What the calls demand of their caller: an open file, a handle not in use for a new
      one, and sizes and positions that are not negative. */
  predicate Possible(st: State, c: Call) {
    match c
    case CreateCall(_, size, _) => size >= 0
    case OpenCall(_, h, _) => h !in st.files
    case ReopenCall(f, h, _) => Holds(st, f) && h !in st.files
    case RemoveCall(_, _) => true
    case SeekCall(f, pos) => Holds(st, f) && pos >= 0
    case _ => Holds(st, c.f)
  }

  /** A call on a struct file whose inode is not open counts as a failed assertion. */
  function Step(st: State, c: Call): Result {
    match c
    case CreateCall(name, size, mem) => if |st.used| != |st.disk| then Panic else Create(st, name, size, mem)
    case OpenCall(name, h, mem) => Open(st, name, h, mem)
    case RemoveCall(name, mem) => Remove(st, name, mem)
    case _ => if IsOpenFile(st, c.f) then FileStep(st, c) else Panic
  }

  function FileStep(st: State, c: Call): Result
    requires !c.CreateCall? && !c.OpenCall? && !c.RemoveCall? && IsOpenFile(st, c.f)
  {
    match c
    case ReopenCall(f, h, mem) => Reopen(st, f, h, mem)
    case DenyCall(f) => DenyWrite(st, f)
    case AllowCall(f) => AllowWrite(st, f)
    case CloseCall(f) => Close(st, f)
    case WriteCall(f, data, bounceOk) => WriteFile(st, f, data, bounceOk)
    case SeekCall(f, pos) => Seek(st, f, pos)
  }

  /** Every possible call meets all assertions and keeps the invariant. */
  lemma StepGood(st: State, c: Call)
    requires Inv(st) && Possible(st, c)
    ensures Good(Step(st, c))
  {
    hide Inv, Good, Create, Open, Reopen, DenyWrite, AllowWrite, Close, Remove, WriteFile, Seek, IsOpenFile;
    match c
    case CreateCall(name, size, mem) => CreateGood(st, name, size, mem);
    case OpenCall(name, h, mem) => OpenGood(st, name, h, mem);
    case ReopenCall(f, h, mem) => ReopenGood(st, f, h, mem);
    case DenyCall(f) => DenyGood(st, f);
    case AllowCall(f) => AllowGood(st, f);
    case CloseCall(f) => FileCloseGood(st, f);
    case RemoveCall(name, mem) => RemoveGood(st, name, mem);
    case WriteCall(f, data, bounceOk) => WriteGood(st, f, data, bounceOk);
    case SeekCall(f, pos) => SeekGood(st, f, pos);
  }

  // ---------------------------------------------------------------- formatting

  lemma BlankOwned(size: nat)
    ensures Owned(seq(size, i => false), seq(size, i => Data(Zeros())), {}, {})
  {
  }

  /** The map after formatting's first inode, before sector 1 counts as used. */
  function Without1(used: seq<bool>): (r: seq<bool>)
    ensures |r| == |used| && forall i :: 0 <= i < |r| ==> r[i] == (used[i] && i != 1)
  {
    seq(|used|, i requires 0 <= i < |used| => used[i] && i != 1)
  }

  ghost predicate TakesFor(used: seq<bool>, s: nat, d: DiskInode, used': seq<bool>) {
    Free(used, s, d) && Grows(used, used', {s} + Range(d.start, Sectors(d.length)))
  }

  lemma FreeMapGrows(size: nat, used0: seq<bool>, d: DiskInode)
    requires size >= 2 && used0 == seq(size, i => i < 2) && AllAre(used0, d.start, Sectors(d.length), false)
    ensures var blank: seq<bool> := seq(size, i => false);
            var used1 := Mark(used0, d.start, Sectors(d.length), true);
            TakesFor(blank, 0, d, Without1(used1))
  {
    forall x: nat | InExtent(d, x) ensures x >= 2 {
      assert !used0[x];
    }
    var used1 := Mark(used0, d.start, Sectors(d.length), true);
    forall x: nat | x < size ensures Without1(used1)[x] <==> x in {0} + Range(d.start, Sectors(d.length)) {
      assert used1[x] == (InExtent(d, x) || x < 2);
    }
  }

  lemma RootGrows(used1: seq<bool>, d: DiskInode)
    requires |used1| >= 2 && used1[0] && used1[1] && AllAre(used1, d.start, Sectors(d.length), false)
    ensures var used2 := Mark(used1, d.start, Sectors(d.length), true);
            TakesFor(Without1(used1), 1, d, used2)
  {
    forall x: nat | InExtent(d, x) ensures x >= 2 {
      assert !used1[x];
    }
  }

  lemma AddOne(used: seq<bool>, disk: seq<Sector>, live: set<nat>, s: nat, d: DiskInode, used': seq<bool>)
    requires Owned(used, disk, live, {}) && TakesFor(used, s, d, used')
    ensures s < |disk| && d.start + Sectors(d.length) <= |disk| && Owned(used', Stored(disk, s, d), live + {s}, {})
  {
    AddLive(used, disk, live, {}, s, d, used', {s} + Range(d.start, Sectors(d.length)));
  }

  lemma FormatOwned(size: nat, used0: seq<bool>, d0: DiskInode, d1: DiskInode)
    requires size >= 2 && used0 == seq(size, i => i < 2)
    requires AllAre(used0, d0.start, Sectors(d0.length), false)
    requires AllAre(Mark(used0, d0.start, Sectors(d0.length), true), d1.start, Sectors(d1.length), false)
    ensures var used2 := Mark(Mark(used0, d0.start, Sectors(d0.length), true), d1.start, Sectors(d1.length), true);
            var disk0: seq<Sector> := seq(size, i => Data(Zeros()));
            Owned(used2, Stored(Stored(disk0, 0, d0), 1, d1), {0, 1}, {})
  {
    var blank: seq<bool> := seq(size, i => false);
    var disk0: seq<Sector> := seq(size, i => Data(Zeros()));
    var used1 := Mark(used0, d0.start, Sectors(d0.length), true);
    var used2 := Mark(used1, d1.start, Sectors(d1.length), true);
    BlankOwned(size);
    FreeMapGrows(size, used0, d0);
    assert used0[0] && used0[1];
    RootGrows(used1, d1);
    hide *;
    AddOne(blank, disk0, {}, 0, d0, Without1(used1));
    AddOne(Without1(used1), Stored(disk0, 0, d0), {} + {0}, 1, d1, used2);
    assert {} + {0} + {1} == {0, 1};
  }

  lemma FormatCache(size: nat)
    requires Format(size).Done?
    ensures var st := Format(size).st;
            && SlotsOk(st.slots) && ListedSet(st.slots) == {} && OpenSet(st.open) == {0}
            && CacheOk(st.disk, {}, st.open, st.files, None)
  {
    var st := Format(size).st;
    assert Handles(st.files, 0) == {0} && Deniers(st.files, 0) == {};
    assert st.open[0].sector == 0;
    assert OpenSet(st.open) == {0};
    var d0, d1 := FormatShape(size);
    assert Faithful(st.disk, {}, st.open[0], st.files, None);
  }

  /** What formatting has built: two inodes in free sectors, one after the other. */
  lemma FormatShape(size: nat) returns (d0: DiskInode, d1: DiskInode)
    requires Format(size).Done?
    ensures size >= 2
    ensures var used0: seq<bool> := seq(size, i => i < 2);
            var disk0: seq<Sector> := seq(size, i => Data(Zeros()));
            var st := Format(size).st;
            && AllAre(used0, d0.start, Sectors(d0.length), false)
            && var used1 := Mark(used0, d0.start, Sectors(d0.length), true);
            && AllAre(used1, d1.start, Sectors(d1.length), false)
            && st.used == Mark(used1, d1.start, Sectors(d1.length), true)
            && st.disk == Stored(Stored(disk0, 0, d0), 1, d1)
            && st.leaked == {} && |st.open| == 1 && st.open[0].data == d0 && st.disk[0] == Header(d0)
  {
    var used0: seq<bool> := seq(size, i => i < 2);
    d0 := DiskInode(Fit(used0, Sectors(MapBytes(size)), 0).value, MapBytes(size));
    var used1 := Mark(used0, d0.start, Sectors(d0.length), true);
    d1 := DiskInode(Fit(used1, Sectors(ROOT_ENTRIES * ENTRY_SIZE), 0).value, ROOT_ENTRIES * ENTRY_SIZE);
    assert used0[0] && used1[0];
  }

  lemma SystemOnly(slots: seq<Slot>, open: seq<OpenInode>)
    requires ListedSet(slots) == {} && OpenSet(open) == {0}
    ensures Live(slots, open) == {0, 1}
  {
    hide ListedSet, OpenSet;
  }

  lemma FormatGood(size: nat)
    requires Format(size).Done?
    ensures Inv(Format(size).st)
  {
    hide *;
    var st := Format(size).st;
    var d0, d1 := FormatShape(size);
    FormatOwned(size, seq(size, i => i < 2), d0, d1);
    FormatCache(size);
    SystemOnly(st.slots, st.open);
    InvFrom(st);
  }

  // ---------------------------------------------------------------- runs

  /** The call was possible and met its assertions, and `st'` is what it left. */
  predicate Follows(st: State, c: Call, st': State) {
    Possible(st, c) && Step(st, c).Done? && st' == Step(st, c).st
  }

  /** `states` is a run over `calls` from a freshly formatted device. */
  ghost predicate IsRun(size: nat, calls: seq<Call>, states: seq<State>) {
    && Format(size).Done? && |states| == |calls| + 1
    && states[0] == Format(size).st
    && forall i :: 0 <= i < |calls| ==> Follows(states[i], calls[i], states[i + 1])
  }

  lemma FollowsGood(st: State, c: Call, st': State)
    requires Inv(st) && Follows(st, c, st')
    ensures Inv(st')
  {
    hide Inv, Step;
    StepGood(st, c);
  }

  /** In every reachable state the sectors of all listed or open files are apart, inside
      the device and marked, the open inodes are a faithful cache, and no possible call
      fails an assertion. */
  lemma {:induction false} ReachableIsGood(size: nat, calls: seq<Call>, states: seq<State>, i: nat, c: Call)
    requires IsRun(size, calls, states) && i < |states|
    ensures Inv(states[i])
    ensures Possible(states[i], c) ==> Step(states[i], c).Done?
  {
    hide Inv, Possible, Step, Follows, Format;
    if i == 0 {
      FormatGood(size);
    } else {
      ReachableIsGood(size, calls, states, i - 1, c);
      FollowsGood(states[i - 1], calls[i - 1], states[i]);
    }
    if Possible(states[i], c) {
      StepGood(states[i], c);
      GoodIsDone(Step(states[i], c));
    }
  }

  lemma GoodIsDone(r: Result)
    requires Good(r)
    ensures r.Done?
  {
  }
}
