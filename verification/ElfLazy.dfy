/** Faulting pages in, in any order, builds the memory that loading at once builds. */
module ElfLazy {
  import opened Sequences
  import opened Bitmap
  import opened DiskModel
  import opened ElfSegments
  import opened ElfLoad

  predicate OnPages(s: Segment, p: nat) {
    FirstPage(s) <= p < FirstPage(s) + PageCount(s)
  }

  predicate Good(file: seq<byte>, s: Segment) {
    Words(s) && Validate(s, |file|) && FileCovers(file, s)
  }

  /** Valid segments that the file covers, on disjoint pages. */
  ghost predicate Loadable(file: seq<byte>, segs: seq<Segment>) {
    && (forall i :: 0 <= i < |segs| ==> Good(file, segs[i]))
    && (forall i, j, p: nat :: 0 <= i < j < |segs| && OnPages(segs[i], p) ==> !OnPages(segs[j], p))
  }

  lemma GoodReads(file: seq<byte>, s: Segment)
    requires Good(file, s)
    ensures FileStart(s) + ReadBytes(s) <= |file|
  {
    FileCoversMeans(file, s);
  }

  /** The pages after loading the segments at once. */
  ghost function Eager(file: seq<byte>, segs: seq<Segment>): map<nat, Mapped>
    requires Loadable(file, segs)
  {
    if segs == [] then map[]
    else
      var s := segs[|segs| - 1];
      GoodReads(file, s);
      FewerLoadable(file, segs);
      WithPages(Eager(file, segs[..|segs| - 1]), file, FileStart(s), ReadBytes(s), s.writable, FirstPage(s), PageCount(s))
  }

  lemma FewerLoadable(file: seq<byte>, segs: seq<Segment>)
    requires Loadable(file, segs) && segs != []
    ensures Loadable(file, segs[..|segs| - 1]) && Good(file, segs[|segs| - 1])
    ensures forall i, p: nat :: 0 <= i < |segs| - 1 && OnPages(segs[i], p) ==> !OnPages(segs[|segs| - 1], p)
  {
  }

  /** The supplementary page table after loading them lazily. */
  function Table(segs: seq<Segment>): seq<SupPage> {
    if segs == [] then []
    else
      var s := segs[|segs| - 1];
      Table(segs[..|segs| - 1]) + Entries(FileStart(s), ReadBytes(s), s.writable, FirstPage(s), PageCount(s))
  }

  /** What faulting an entry in maps. */
  function MappedBy(file: seq<byte>, e: SupPage): Mapped
    requires FullRead(file, e.offset, e.readBytes) && e.readBytes <= PAGE
  {
    Mapped(Filled(file, if e.readBytes == 0 then 0 else e.offset, e.readBytes), e.writable)
  }

  ghost predicate EntryOk(file: seq<byte>, e: SupPage, memory: map<nat, Mapped>) {
    && e.onDisk && e.readBytes <= PAGE && FullRead(file, e.offset, e.readBytes)
    && e.page in memory && memory[e.page] == MappedBy(file, e)
  }

  /** The table describes `memory`: one entry for each page, with its bytes and permission. */
  ghost predicate Describes(file: seq<byte>, table: seq<SupPage>, memory: map<nat, Mapped>) {
    && (forall i :: 0 <= i < |table| ==> EntryOk(file, table[i], memory))
    && (forall i, j :: 0 <= i < j < |table| ==> table[i].page != table[j].page)
    && (forall p :: p in memory ==> HasEntry(table, p))
  }

  ghost predicate HasEntry(table: seq<SupPage>, p: nat) {
    exists i :: 0 <= i < |table| && table[i].page == p
  }

  lemma OneEntry(file: seq<byte>, ofs: nat, readBytes: nat, writable: bool, first: nat, k: nat)
    requires ofs + readBytes <= |file|
    ensures var e := SupPage(first + k, writable, true, ReadAtOffset(ofs, readBytes, k), FromFile(readBytes, k));
            FullRead(file, e.offset, e.readBytes) && MappedBy(file, e) == PageAt(file, ofs, readBytes, writable, k)
  {
    PageInFile(ofs, readBytes, k, |file|);
    var at := ReadAtOffset(ofs, readBytes, k);
    if FromFile(readBytes, k) == 0 {
      assert file[at..at] == file[0..0];
    }
  }

  lemma AddPage(file: seq<byte>, table: seq<SupPage>, memory: map<nat, Mapped>, e: SupPage, m: Mapped)
    requires Describes(file, table, memory) && e.page !in memory
    requires e.onDisk && e.readBytes <= PAGE && FullRead(file, e.offset, e.readBytes) && m == MappedBy(file, e)
    ensures Describes(file, table + [e], memory[e.page := m])
  {
    var table', memory' := table + [e], memory[e.page := m];
    forall i | 0 <= i < |table'| ensures EntryOk(file, table'[i], memory') {
      if i < |table| {
        assert EntryOk(file, table[i], memory);
      }
    }
    forall i | 0 <= i < |table| ensures table[i].page != e.page {
      assert EntryOk(file, table[i], memory);
    }
    forall p | p in memory' ensures HasEntry(table', p) {
      if p == e.page {
        assert table'[|table|].page == p;
      } else {
        var i :| 0 <= i < |table| && table[i].page == p;
        assert table'[i].page == p;
      }
    }
  }

  lemma {:induction false} AddPages(file: seq<byte>, table: seq<SupPage>, memory: map<nat, Mapped>,
                                    ofs: nat, readBytes: nat, writable: bool, first: nat, k: nat)
    requires Describes(file, table, memory) && ofs + readBytes <= |file|
    requires forall p :: first <= p < first + k ==> p !in memory
    ensures Describes(file, table + Entries(ofs, readBytes, writable, first, k),
                      WithPages(memory, file, ofs, readBytes, writable, first, k))
    ensures forall p: nat :: p in WithPages(memory, file, ofs, readBytes, writable, first, k) <==> p in memory || first <= p < first + k
  {
    hide Describes, PageAt;
    if k > 0 {
      AddPages(file, table, memory, ofs, readBytes, writable, first, k - 1);
      var t, m := table + Entries(ofs, readBytes, writable, first, k - 1), WithPages(memory, file, ofs, readBytes, writable, first, k - 1);
      var e := SupPage(first + k - 1, writable, true, ReadAtOffset(ofs, readBytes, k - 1), FromFile(readBytes, k - 1));
      OneEntry(file, ofs, readBytes, writable, first, k - 1);
      AddPage(file, t, m, e, PageAt(file, ofs, readBytes, writable, k - 1));
      assert t + [e] == table + Entries(ofs, readBytes, writable, first, k);
    } else {
      assert table + [] == table;
    }
  }

  /** The lazy table describes the eager memory. */
  lemma {:induction false} TableDescribes(file: seq<byte>, segs: seq<Segment>)
    requires Loadable(file, segs)
    ensures Describes(file, Table(segs), Eager(file, segs))
    ensures forall p: nat :: p in Eager(file, segs) <==> OnSome(segs, p)
  {
    if segs == [] {
      assert Eager(file, segs) == map[] && Table(segs) == [];
    } else {
      hide *;
      var before, s := segs[..|segs| - 1], segs[|segs| - 1];
      LastSegment(file, segs);
      TableDescribes(file, before);
      forall p: nat ensures OnSome(segs, p) <==> OnSome(before, p) || FirstPage(s) <= p < FirstPage(s) + PageCount(s) {
        OnOneMore(segs, p);
      }
      forall p: nat | FirstPage(s) <= p < FirstPage(s) + PageCount(s) ensures p !in Eager(file, before) {
        LastApart(file, segs, p);
      }
      AddPages(file, Table(before), Eager(file, before), FileStart(s), ReadBytes(s), s.writable, FirstPage(s), PageCount(s));
    }
  }

  lemma LastSegment(file: seq<byte>, segs: seq<Segment>)
    requires Loadable(file, segs) && segs != []
    ensures Loadable(file, segs[..|segs| - 1])
    ensures var before, s := segs[..|segs| - 1], segs[|segs| - 1];
            && FileStart(s) + ReadBytes(s) <= |file|
            && Table(segs) == Table(before) + Entries(FileStart(s), ReadBytes(s), s.writable, FirstPage(s), PageCount(s))
            && Eager(file, segs)
               == WithPages(Eager(file, before), file, FileStart(s), ReadBytes(s), s.writable, FirstPage(s), PageCount(s))
  {
    FewerLoadable(file, segs);
    GoodReads(file, segs[|segs| - 1]);
    hide Loadable, Good, WithPages, Entries, FirstPage, PageCount, FileStart, ReadBytes;
  }

  lemma LastApart(file: seq<byte>, segs: seq<Segment>, p: nat)
    requires Loadable(file, segs) && segs != []
    requires FirstPage(segs[|segs| - 1]) <= p < FirstPage(segs[|segs| - 1]) + PageCount(segs[|segs| - 1])
    ensures !OnSome(segs[..|segs| - 1], p)
  {
    FewerLoadable(file, segs);
    assert OnPages(segs[|segs| - 1], p);
    hide Loadable, OnPages;
  }

  /** One of the segments has a part of page `p`. */
  ghost predicate OnSome(segs: seq<Segment>, p: nat) {
    exists i :: 0 <= i < |segs| && OnPages(segs[i], p)
  }

  lemma OnOneMore(segs: seq<Segment>, p: nat)
    requires segs != []
    ensures OnSome(segs, p) <==> OnSome(segs[..|segs| - 1], p) || OnPages(segs[|segs| - 1], p)
    ensures var s := segs[|segs| - 1]; OnPages(s, p) <==> FirstPage(s) <= p < FirstPage(s) + PageCount(s)
  {
    var before := segs[..|segs| - 1];
    if OnSome(before, p) {
      var i :| 0 <= i < |before| && OnPages(before[i], p);
      assert OnPages(segs[i], p);
    }
    if i :| 0 <= i < |segs| && OnPages(segs[i], p) {
      assert i < |before| ==> OnPages(before[i], p);
    }
  }

  lemma {:induction false} PageWithin(memory: map<nat, Mapped>, file: seq<byte>, ofs: nat, readBytes: nat, writable: bool,
                                      first: nat, k: nat, j: nat)
    requires ofs + readBytes <= |file| && j < k
    ensures first + j in WithPages(memory, file, ofs, readBytes, writable, first, k)
    ensures WithPages(memory, file, ofs, readBytes, writable, first, k)[first + j] == PageAt(file, ofs, readBytes, writable, j)
  {
    hide PageAt;
    if j < k - 1 {
      PageWithin(memory, file, ofs, readBytes, writable, first, k - 1, j);
    }
  }

  lemma {:induction false} PageElsewhere(memory: map<nat, Mapped>, file: seq<byte>, ofs: nat, readBytes: nat, writable: bool,
                                         first: nat, k: nat, p: nat)
    requires ofs + readBytes <= |file| && !(first <= p < first + k) && p in memory
    ensures p in WithPages(memory, file, ofs, readBytes, writable, first, k)
    ensures WithPages(memory, file, ofs, readBytes, writable, first, k)[p] == memory[p]
  {
    hide PageAt;
    if k > 0 {
      PageElsewhere(memory, file, ofs, readBytes, writable, first, k - 1, p);
    }
  }

  /** Each page of each segment is in the memory as that segment wants it. */
  lemma {:induction false} EagerPage(file: seq<byte>, segs: seq<Segment>, i: nat, p: nat)
    requires Loadable(file, segs) && i < |segs| && OnPages(segs[i], p)
    ensures FileStart(segs[i]) + ReadBytes(segs[i]) <= |file|
    ensures p in Eager(file, segs) && Eager(file, segs)[p] == PageOf(file, segs[i], p - FirstPage(segs[i]))
  {
    var before, s := segs[..|segs| - 1], segs[|segs| - 1];
    FewerLoadable(file, segs);
    GoodReads(file, s);
    assert Good(file, segs[i]);
    GoodReads(file, segs[i]);
    if i == |segs| - 1 {
      hide Loadable, PageAt;
      PageWithin(Eager(file, before), file, FileStart(s), ReadBytes(s), s.writable, FirstPage(s), PageCount(s), p - FirstPage(s));
    } else {
      assert before[i] == segs[i];
      EagerPage(file, before, i, p);
      assert !OnPages(s, p);
      hide Loadable, PageAt;
      PageElsewhere(Eager(file, before), file, FileStart(s), ReadBytes(s), s.writable, FirstPage(s), PageCount(s), p);
    }
  }

  /** The memory of a loaded program, byte by byte: the segment's file bytes, then zeros, with
      the segment's permission. */
  lemma LoadedMeaning(file: seq<byte>, segs: seq<Segment>, i: nat, a: nat)
    requires Loadable(file, segs) && i < |segs| && segs[i].vaddr <= a < segs[i].vaddr + segs[i].memsz
    ensures a / PAGE in Eager(file, segs)
    ensures var s, page := segs[i], Eager(file, segs)[a / PAGE];
            && page.writable == s.writable && |page.bytes| == PAGE
            && (a - s.vaddr < s.filesz ==> s.offset + (a - s.vaddr) < |file|)
            && page.bytes[a % PAGE] == if a - s.vaddr < s.filesz then file[s.offset + (a - s.vaddr)] else 0
  {
    assert PAGE == 4096;
    hide *;
    GoodOne(file, segs, i);
    SegmentMeaning(file, segs[i], a);
    IsOnPages(segs[i], a / PAGE);
    EagerPage(file, segs, i, a / PAGE);
  }

  lemma GoodOne(file: seq<byte>, segs: seq<Segment>, i: nat)
    requires Loadable(file, segs) && i < |segs|
    ensures Words(segs[i]) && Validate(segs[i], |file|) && FileCovers(file, segs[i])
  {
    assert Good(file, segs[i]);
  }

  lemma IsOnPages(s: Segment, p: nat)
    requires FirstPage(s) <= p < FirstPage(s) + PageCount(s)
    ensures OnPages(s, p)
  {
  }

  // ---------------------------------------------------------------- faults

  /** Faults on the pages of `order`, one after the other, with memory at hand; None if one
      is not loaded. */
  function Faults(vm: Vm, file: seq<byte>, order: seq<nat>): Option<Vm> {
    if order == [] then Some(vm)
    else
      match Faults(vm, file, order[..|order| - 1])
      case None => None
      case Some(vm1) =>
        var (vm2, r) := Fault(vm1, file, order[|order| - 1], ENOUGH);
        if r == Loaded then Some(vm2) else None
  }

  /** The pages of `done` have been faulted in, and no others. */
  ghost predicate PartLoaded(vm: Vm, table: seq<SupPage>, memory: map<nat, Mapped>, done: set<nat>) {
    && |vm.sup| == |table|
    && (forall i :: 0 <= i < |table| ==>
          vm.sup[i] == if table[i].page in done then table[i].(onDisk := false) else table[i])
    && vm.pages.Keys == done
    && (forall p :: p in done ==> p in memory && vm.pages[p] == memory[p])
  }

  lemma FindOnly(file: seq<byte>, table: seq<SupPage>, memory: map<nat, Mapped>, vm: Vm, done: set<nat>, p: nat) returns (i: nat)
    requires Describes(file, table, memory) && PartLoaded(vm, table, memory, done) && p in memory
    ensures i < |table| && table[i].page == p && FindSup(vm.sup, p, 0) == Some(i)
  {
    hide EntryOk, FindSup;
    assert HasEntry(table, p);
    i :| 0 <= i < |table| && table[i].page == p;
    forall j | 0 <= j < |vm.sup| ensures vm.sup[j].page == table[j].page {
    }
  }

  /** A fault on a page of the table that is not yet loaded loads it. */
  lemma FaultLoads(file: seq<byte>, table: seq<SupPage>, memory: map<nat, Mapped>, vm: Vm, done: set<nat>, p: nat)
    requires Describes(file, table, memory) && PartLoaded(vm, table, memory, done)
    requires p in memory && p !in done && vm.frames > 0
    ensures var (vm', r) := Fault(vm, file, p, ENOUGH);
            r == Loaded && PartLoaded(vm', table, memory, done + {p}) && vm'.frames == vm.frames - 1
  {
    hide *;
    var i := FindOnly(file, table, memory, vm, done, p);
    EntryFaults(file, table, memory, vm, done, i);
    FaultIs(vm, file, p, i);
    OneMoreLoaded(file, table, memory, vm, done, i);
  }

  lemma EntryFaults(file: seq<byte>, table: seq<SupPage>, memory: map<nat, Mapped>, vm: Vm, done: set<nat>, i: nat)
    requires Describes(file, table, memory) && PartLoaded(vm, table, memory, done)
    requires i < |table| && table[i].page !in done
    ensures i < |vm.sup| && vm.sup[i] == table[i] && table[i].page !in vm.pages && EntryOk(file, table[i], memory)
  {
    hide EntryOk;
  }

  lemma FaultIs(vm: Vm, file: seq<byte>, p: nat, i: nat)
    requires i < |vm.sup| && FindSup(vm.sup, p, 0) == Some(i) && vm.frames > 0 && p !in vm.pages
    requires exists memory :: EntryOk(file, vm.sup[i], memory)
    ensures Fault(vm, file, p, ENOUGH)
         == (Vm(vm.pages[p := MappedBy(file, vm.sup[i])], vm.sup[i := vm.sup[i].(onDisk := false)], vm.frames - 1), Loaded)
  {
    hide FindSup;
  }

  lemma OneMoreLoaded(file: seq<byte>, table: seq<SupPage>, memory: map<nat, Mapped>, vm: Vm, done: set<nat>, i: nat)
    requires Describes(file, table, memory) && PartLoaded(vm, table, memory, done)
    requires i < |table| && table[i].page !in done && vm.frames > 0
    ensures var p := table[i].page;
            |vm.sup| == |table|
            && PartLoaded(Vm(vm.pages[p := MappedBy(file, vm.sup[i])], vm.sup[i := vm.sup[i].(onDisk := false)], vm.frames - 1),
                          table, memory, done + {p})
  {
    hide MappedBy;
    assert EntryOk(file, table[i], memory);
  }

  function Elements(order: seq<nat>): (r: set<nat>)
    ensures forall p :: p in r <==> p in order
  {
    set p | p in order
  }

  lemma {:induction false} FaultsLoad(file: seq<byte>, table: seq<SupPage>, memory: map<nat, Mapped>, frames: nat, order: seq<nat>)
    requires Describes(file, table, memory) && Distinct(order) && (forall p :: p in order ==> p in memory)
    requires frames >= |order|
    ensures var r := Faults(Vm(map[], table, frames), file, order);
            r.Some? && PartLoaded(r.value, table, memory, Elements(order)) && r.value.frames == frames - |order|
  {
    hide Describes, Fault;
    if order == [] {
      NothingLoaded(file, table, memory, frames);
    } else {
      var before, p := order[..|order| - 1], order[|order| - 1];
      FaultsLoad(file, table, memory, frames, before);
      assert p in order;
      assert forall q :: q in order <==> q in before || q == p by { assert order == before + [p]; }
      assert Elements(order) == Elements(before) + {p};
      hide PartLoaded;
      FaultLoads(file, table, memory, Faults(Vm(map[], table, frames), file, before).value, Elements(before), p);
    }
  }

  lemma NothingLoaded(file: seq<byte>, table: seq<SupPage>, memory: map<nat, Mapped>, frames: nat)
    requires Describes(file, table, memory)
    ensures PartLoaded(Vm(map[], table, frames), table, memory, Elements([]))
  {
    forall i | 0 <= i < |table| ensures table[i].page !in Elements([]) {
    }
  }

  /** Faulting pages in any order, without repeating one, gives each the bytes and the
      permission that loading at once gives it, for one frame each, and leaves the others on
      disk; after all pages the memories are equal. */
  lemma LazyIsEager(file: seq<byte>, segs: seq<Segment>, frames: nat, order: seq<nat>)
    requires Loadable(file, segs) && Distinct(order) && frames >= |order|
    requires forall p :: p in order ==> p in Eager(file, segs)
    ensures var r := Faults(Vm(map[], Table(segs), frames), file, order);
            && r.Some?
            && (forall p :: p in r.value.pages <==> p in order)
            && (forall p :: p in order ==> r.value.pages[p] == Eager(file, segs)[p])
            && r.value.frames + |order| == frames
            && (forall i :: 0 <= i < |r.value.sup| ==> (r.value.sup[i].onDisk <==> r.value.sup[i].page !in order))
            && ((forall p :: p in Eager(file, segs) ==> p in order) ==> r.value.pages == Eager(file, segs))
  {
    TableDescribes(file, segs);
    AllOnDisk(file, Table(segs), Eager(file, segs));
    hide Describes, Loadable, Eager, Table, Faults;
    FaultsLoad(file, Table(segs), Eager(file, segs), frames, order);
  }

  lemma AllOnDisk(file: seq<byte>, table: seq<SupPage>, memory: map<nat, Mapped>)
    requires Describes(file, table, memory)
    ensures forall i :: 0 <= i < |table| ==> table[i].onDisk
  {
    forall i | 0 <= i < |table| ensures table[i].onDisk {
      assert EntryOk(file, table[i], memory);
    }
  }

  // ---------------------------------------------------------------- files that are too short

  /** The reads of a segment's pages. */
  predicate ReadsFully(file: seq<byte>, s: Segment, k: nat) {
    FullRead(file, ReadAtOffset(FileStart(s), ReadBytes(s), k), FromFile(ReadBytes(s), k))
  }

  /** What the first touch of the segment's `k`-th page does, after it was loaded lazily. */
  function Touched(file: seq<byte>, s: Segment, frames: nat, k: nat, mem: PageMemory): FaultResult {
    Fault(Vm(map[], Table([s]), frames), file, FirstPage(s) + k, mem).1
  }

  lemma ReadsIffCovered(file: seq<byte>, s: Segment)
    requires Words(s) && Validate(s, |file|)
    ensures FileCovers(file, s) ==> forall k: nat :: k < PageCount(s) ==> ReadsFully(file, s, k)
    ensures !FileCovers(file, s) ==>
      var k := (ReadBytes(s) - 1) / PAGE; 0 <= k < PageCount(s) && !ReadsFully(file, s, k)
  {
    FileCoversMeans(file, s);
    LoaderAsserts(s, |file|);
    var rb, n := ReadBytes(s), PageCount(s);
    if FileCovers(file, s) {
      forall k: nat | k < n ensures ReadsFully(file, s, k) {
        PageInFile(FileStart(s), rb, k, |file|);
      }
    } else {
      LastRead(rb, n);
    }
  }

  /** The page that holds the last byte read. */
  lemma LastRead(readBytes: nat, n: nat)
    requires 0 < readBytes <= n * PAGE
    ensures var k := (readBytes - 1) / PAGE;
            k < n && k * PAGE < readBytes <= (k + 1) * PAGE
  {
  }

  /** The entry that lazy loading makes for the `k`-th page, and no other, is the page's. */
  lemma {:induction false} EntryFound(ofs: nat, readBytes: nat, writable: bool, first: nat, n: nat, k: nat)
    requires k < n
    ensures var t := Entries(ofs, readBytes, writable, first, n);
            t[k] == SupPage(first + k, writable, true, ReadAtOffset(ofs, readBytes, k), FromFile(readBytes, k))
            && forall j :: 0 <= j < n ==> t[j].page == first + j
  {
    if n > 1 {
      if k < n - 1 {
        EntryFound(ofs, readBytes, writable, first, n - 1, k);
      } else {
        EntryFound(ofs, readBytes, writable, first, n - 1, 0);
      }
    }
  }

  /** With a frame and memory at hand, the touch loads the page if the file has all of its
      bytes, and panics the kernel otherwise. */
  lemma TouchLoads(file: seq<byte>, s: Segment, frames: nat, k: nat, mem: PageMemory)
    requires k < PageCount(s) && frames > 0 && mem.table && mem.bounce
    ensures Touched(file, s, frames, k, mem) == if ReadsFully(file, s, k) then Loaded else Panic
  {
    hide *;
    var t := Table([s]);
    OneTable(s);
    EntryFound(FileStart(s), ReadBytes(s), s.writable, FirstPage(s), PageCount(s), k);
    FoundInOrder(t, FirstPage(s), k);
    FaultOnEntry(Vm(map[], t, frames), file, FirstPage(s) + k, k, mem);
    TouchedIs(file, s, frames, k, mem);
  }

  lemma TouchedIs(file: seq<byte>, s: Segment, frames: nat, k: nat, mem: PageMemory)
    ensures Touched(file, s, frames, k, mem) == Fault(Vm(map[], Table([s]), frames), file, FirstPage(s) + k, mem).1
    ensures ReadsFully(file, s, k) <==> FullRead(file, ReadAtOffset(FileStart(s), ReadBytes(s), k), FromFile(ReadBytes(s), k))
  {
  }

  lemma OneTable(s: Segment)
    ensures Table([s]) == Entries(FileStart(s), ReadBytes(s), s.writable, FirstPage(s), PageCount(s))
  {
    var e := Entries(FileStart(s), ReadBytes(s), s.writable, FirstPage(s), PageCount(s));
    assert [s][..0] == [];
    assert Table([s]) == Table([]) + e;
    hide Entries, FileStart, ReadBytes, FirstPage, PageCount;
    assert [] + e == e;
  }

  lemma FoundInOrder(t: seq<SupPage>, first: nat, k: nat)
    requires k < |t| && forall j :: 0 <= j < |t| ==> t[j].page == first + j
    ensures FindSup(t, first + k, 0) == Some(k)
  {
    assert t[k].page == first + k;
  }

  lemma FaultOnEntry(vm: Vm, file: seq<byte>, p: nat, i: nat, mem: PageMemory)
    requires i < |vm.sup| && FindSup(vm.sup, p, 0) == Some(i) && vm.frames > 0 && p !in vm.pages
    requires vm.sup[i].onDisk && vm.sup[i].readBytes <= PAGE && mem.table && mem.bounce
    ensures Fault(vm, file, p, mem).1 == if FullRead(file, vm.sup[i].offset, vm.sup[i].readBytes) then Loaded else Panic
  {
    ReadsAllMeans(file, vm.sup[i].offset, vm.sup[i].readBytes, mem.bounce);
    hide FindSup, ReadsAll, FullRead;
  }

  /** For a valid segment, frames and memory enough: loading at once succeeds, the file covers
      the segment, and every first touch of a lazily loaded page loads it, or none of the
      three; some page then panics the kernel when it is touched. */
  lemma AgreeIffCovered(file: seq<byte>, s: Segment, frames: nat, mem: seq<PageMemory>)
    requires Words(s) && Validate(s, |file|) && frames >= |mem| == PageCount(s)
    requires forall k :: 0 <= k < |mem| ==> mem[k] == ENOUGH
    ensures CanLoad(Vm(map[], [], frames), file, FileStart(s), ReadBytes(s), FirstPage(s), mem) <==> FileCovers(file, s)
    ensures (forall k: nat :: k < PageCount(s) ==> Touched(file, s, frames, k, ENOUGH) == Loaded) <==> FileCovers(file, s)
    ensures (exists k: nat :: k < PageCount(s) && Touched(file, s, frames, k, ENOUGH) == Panic) <==> !FileCovers(file, s)
  {
    LoaderAsserts(s, |file|);
    FileCoversMeans(file, s);
    EnoughForAll(mem, FileStart(s), ReadBytes(s));
    ReadsIffCovered(file, s);
    forall k: nat | k < PageCount(s)
      ensures Touched(file, s, frames, k, ENOUGH) == if ReadsFully(file, s, k) then Loaded else Panic
    {
      TouchLoads(file, s, frames, k, ENOUGH);
    }
    hide Touched, ReadsFully, Validate, FileCovers, Supplied, PageCount, FirstPage, FileStart;
    if !FileCovers(file, s) {
      var k: nat := (ReadBytes(s) - 1) / PAGE;
      assert Touched(file, s, frames, k, ENOUGH) == Panic;
    }
  }

  /** A file of one page with a valid segment behind its end. */
  lemma ShortFileExample(file: seq<byte>, frames: nat)
    requires |file| == 4096 && frames > 0
    ensures var s := Segment(4096, 4096, 1, 1, false);
            && Words(s) && Validate(s, |file|) && !FileCovers(file, s) && PageCount(s) == 1
            && !CanLoad(Vm(map[], [], frames), file, FileStart(s), ReadBytes(s), FirstPage(s), [ENOUGH])
            && Touched(file, s, frames, 0, ENOUGH) == Panic
  {
    var s := Segment(4096, 4096, 1, 1, false);
    AgreeIffCovered(file, s, frames, [ENOUGH]);
    TouchLoads(file, s, frames, 0, ENOUGH);
    hide Touched, CanLoad;
  }

  // ---------------------------------------------------------------- load

  /** The PT_LOAD cases of load without demand paging. */
  method LoadEagerly(p: Process, segs: seq<Segment>) returns (ok: bool)
    requires Loadable(p.file, segs) && p.pages == map[] && p.frames >= Pages(segs)
    modifies p
    ensures ok && p.pages == Eager(p.file, segs) && p.sup == old(p.sup)
  {
    hide Loadable, Good, Words, Validate, WithPages, Supplied, PageCount, FirstPage, FileStart, ReadBytes, ZeroBytes, FileCovers;
    var i := 0;
    assert segs[..0] == [];
    Prefixes(p.file, segs, 0);
    while i < |segs|
      invariant i <= |segs| && Loadable(p.file, segs[..i])
      invariant p.pages == Eager(p.file, segs[..i]) && p.sup == old(p.sup)
      invariant p.frames + Pages(segs[..i]) >= Pages(segs)
    {
      var s := segs[i];
      Prefixes(p.file, segs, i + 1);
      EagerMore(p.file, segs, i);
      PagesMore(segs, i);
      GoodOne(p.file, segs, i);
      LoaderAsserts(s, |p.file|);
      var mem := seq(PageCount(s), k => ENOUGH);
      hide Eager, Pages;
      if !Validate(s, |p.file|) {
        return false;
      }
      EnoughForAll(mem, FileStart(s), ReadBytes(s));
      var loaded := p.LoadSegment(FileStart(s), FirstPage(s), ReadBytes(s), ZeroBytes(s), s.writable, mem);
      if !loaded {
        return false;
      }
      i := i + 1;
    }
    assert segs[..|segs|] == segs;
    return true;
  }

  /** The PT_LOAD cases of load with demand paging. */
  method LoadLazily(p: Process, segs: seq<Segment>) returns (ok: bool)
    requires Loadable(p.file, segs) && p.sup == []
    modifies p`sup
    ensures ok && p.sup == Table(segs)
  {
    var i := 0;
    assert segs[..0] == [];
    while i < |segs|
      invariant i <= |segs| && p.sup == Table(segs[..i])
    {
      var s := segs[i];
      assert Good(p.file, s);
      TableMore(segs, i);
      LoaderAsserts(s, |p.file|);
      hide Loadable, Table, Validate, PageCount, FirstPage, FileStart, ReadBytes, ZeroBytes;
      if !Validate(s, |p.file|) {
        return false;
      }
      p.LazyLoadSegment(FileStart(s), FirstPage(s), ReadBytes(s), ZeroBytes(s), s.writable, PageCount(s));
      i := i + 1;
    }
    assert segs[..|segs|] == segs;
    return true;
  }

  lemma EnoughForAll(mem: seq<PageMemory>, ofs: nat, readBytes: nat)
    requires forall k :: 0 <= k < |mem| ==> mem[k] == ENOUGH
    ensures Supplied(mem, ofs, readBytes, |mem|)
  {
  }

  function Pages(segs: seq<Segment>): nat {
    if segs == [] then 0 else Pages(segs[..|segs| - 1]) + PageCount(segs[|segs| - 1])
  }

  lemma {:induction false} PagesMore(segs: seq<Segment>, i: nat)
    requires i < |segs|
    ensures Pages(segs[..i + 1]) == Pages(segs[..i]) + PageCount(segs[i]) && Pages(segs[..i + 1]) <= Pages(segs)
    decreases |segs|
  {
    assert segs[..i + 1][..i] == segs[..i];
    if i + 1 < |segs| {
      PagesMore(segs[..|segs| - 1], i);
      assert segs[..|segs| - 1][..i + 1] == segs[..i + 1] && segs[..|segs| - 1][..i] == segs[..i];
    } else {
      assert segs[..i + 1] == segs;
    }
  }

  lemma Prefixes(file: seq<byte>, segs: seq<Segment>, i: nat)
    requires Loadable(file, segs) && i <= |segs|
    ensures Loadable(file, segs[..i])
  {
  }

  /** One segment more: its pages are still free, and it extends the memory. */
  lemma EagerMore(file: seq<byte>, segs: seq<Segment>, i: nat)
    requires Loadable(file, segs) && i < |segs| && Loadable(file, segs[..i]) && Loadable(file, segs[..i + 1])
    ensures var s := segs[i];
            && Good(file, s) && Words(s) && Validate(s, |file|)
            && FileStart(s) <= |file| && FileStart(s) + ReadBytes(s) <= |file|
            && Unmapped(Eager(file, segs[..i]), FirstPage(s), PageCount(s))
            && Eager(file, segs[..i + 1])
               == WithPages(Eager(file, segs[..i]), file, FileStart(s), ReadBytes(s), s.writable, FirstPage(s), PageCount(s))
  {
    var s := segs[i];
    assert Good(file, s);
    GoodFacts(file, s);
    hide Good, Loadable, Eager, Validate, FileStart, ReadBytes, FirstPage, PageCount;
    UnmappedBefore(file, segs, i);
    EagerIs(file, segs, i);
  }

  lemma GoodFacts(file: seq<byte>, s: Segment)
    requires Good(file, s)
    ensures Words(s) && Validate(s, |file|) && FileStart(s) <= |file| && FileStart(s) + ReadBytes(s) <= |file|
  {
    GoodReads(file, s);
  }

  lemma UnmappedBefore(file: seq<byte>, segs: seq<Segment>, i: nat)
    requires Loadable(file, segs) && i < |segs| && Loadable(file, segs[..i])
    ensures Unmapped(Eager(file, segs[..i]), FirstPage(segs[i]), PageCount(segs[i]))
  {
    TableDescribes(file, segs[..i]);
    hide Eager, Good, Describes, Table, FirstPage, PageCount;
    forall p: nat | OnPages(segs[i], p) ensures p !in Eager(file, segs[..i]) {
      forall j | 0 <= j < i ensures !OnPages(segs[..i][j], p) {
        assert segs[..i][j] == segs[j];
      }
    }
    assert forall p: nat :: OnPages(segs[i], p) <==> FirstPage(segs[i]) <= p < FirstPage(segs[i]) + PageCount(segs[i]);
  }

  lemma EagerIs(file: seq<byte>, segs: seq<Segment>, i: nat)
    requires i < |segs| && Loadable(file, segs[..i]) && Loadable(file, segs[..i + 1])
    requires FileStart(segs[i]) + ReadBytes(segs[i]) <= |file|
    ensures var s := segs[i];
            Eager(file, segs[..i + 1])
              == WithPages(Eager(file, segs[..i]), file, FileStart(s), ReadBytes(s), s.writable, FirstPage(s), PageCount(s))
  {
    assert segs[..i + 1][..i] == segs[..i] && segs[..i + 1][i] == segs[i];
    hide Loadable, WithPages, FileStart, ReadBytes, FirstPage, PageCount, Good;
  }

  lemma TableMore(segs: seq<Segment>, i: nat)
    requires i < |segs|
    ensures var s := segs[i];
            Table(segs[..i + 1]) == Table(segs[..i]) + Entries(FileStart(s), ReadBytes(s), s.writable, FirstPage(s), PageCount(s))
  {
    assert segs[..i + 1][..i] == segs[..i];
  }
}
