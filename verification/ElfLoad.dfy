/** Loading segments at once and loading them page by page on faults. */
module ElfLoad {
  import opened Bitmap
  import opened DiskModel
  import opened InodeIO
  import opened ElfSegments

  /** struct sup_page; `onDisk` is its location. */
  datatype SupPage = SupPage(page: nat, writable: bool, onDisk: bool, offset: nat, readBytes: nat)

  /** A process's mapped pages, its supplementary page table, and the free user frames. */
  datatype Vm = Vm(pages: map<nat, Mapped>, sup: seq<SupPage>, frames: nat)

  // ---------------------------------------------------------------- what the loaders build

  /** The first `k` pages mapped. */
  function WithPages(pages: map<nat, Mapped>, file: seq<byte>, ofs: nat, readBytes: nat, writable: bool, first: nat, k: nat)
    : map<nat, Mapped>
    requires ofs + readBytes <= |file|
  {
    if k == 0 then pages
    else WithPages(pages, file, ofs, readBytes, writable, first, k - 1)[first + k - 1 := PageAt(file, ofs, readBytes, writable, k - 1)]
  }

  /** The entries for the first `k` pages. */
  function Entries(ofs: nat, readBytes: nat, writable: bool, first: nat, k: nat): (r: seq<SupPage>)
    ensures |r| == k
  {
    if k == 0 then []
    else Entries(ofs, readBytes, writable, first, k - 1)
         + [SupPage(first + k - 1, writable, true, ReadAtOffset(ofs, readBytes, k - 1), FromFile(readBytes, k - 1))]
  }

  ghost predicate Unmapped(pages: map<nat, Mapped>, first: nat, n: nat) {
    forall p :: first <= p < first + n ==> p !in pages
  }

  /** Memory for the first `k` pages: a page for a page table each, and a buffer unless whole
      sectors are read. */
  ghost predicate Supplied(mem: seq<PageMemory>, ofs: nat, readBytes: nat, k: nat)
    requires k <= |mem|
  {
    forall j :: 0 <= j < k ==>
      mem[j].table && (mem[j].bounce || WholeSectors(ReadAtOffset(ofs, readBytes, j), FromFile(readBytes, j)))
  }

  /** What load_segment needs: the file covers what is read, there are frames and memory
      enough, and no page is mapped yet. */
  ghost predicate CanLoad(vm: Vm, file: seq<byte>, ofs: nat, readBytes: nat, first: nat, mem: seq<PageMemory>) {
    && ofs + readBytes <= |file| && vm.frames >= |mem|
    && Unmapped(vm.pages, first, |mem|) && Supplied(mem, ofs, readBytes, |mem|)
  }

  datatype FaultResult = Loaded | NoPage | Panic

  /** lookup_page of the supplementary table */
  function FindSup(sup: seq<SupPage>, page: nat, from: nat): (r: Option<nat>)
    ensures r.Some? ==> from <= r.value < |sup| && sup[r.value].page == page
    ensures r.Some? ==> forall i :: from <= i < r.value ==> sup[i].page != page
    ensures r.None? ==> forall i :: from <= i < |sup| ==> sup[i].page != page
    decreases |sup| - from
  {
    if from >= |sup| then None else if sup[from].page == page then Some(from) else FindSup(sup, page, from + 1)
  }

  /** Whether a read of `cnt` bytes at `at` gets them all. */
  predicate FullRead(file: seq<byte>, at: nat, cnt: nat) {
    cnt == 0 || at + cnt <= |file|
  }

  /** What loading a page needs besides a frame: the buffer for a read that is not of whole
      sectors, and a page for a page table. */
  datatype PageMemory = PageMemory(bounce: bool, table: bool)

  const ENOUGH := PageMemory(true, true)

  predicate WholeSectors(at: nat, cnt: nat) {
    cnt == 0 || (at % SECTOR_SIZE == 0 && cnt % SECTOR_SIZE == 0)
  }

  /** Whether inode_read_at gets all of the bytes. */
  predicate ReadsAll(file: seq<byte>, at: nat, cnt: nat, bounce: bool) {
    Transferred(|file|, cnt, at, bounce) == cnt
  }

  lemma ReadsAllMeans(file: seq<byte>, at: nat, cnt: nat, bounce: bool)
    ensures ReadsAll(file, at, cnt, bounce) <==> FullRead(file, at, cnt) && (bounce || WholeSectors(at, cnt))
  {
  }

  /** page_fault of a user access to a page that is not present, with load_page. */
  function Fault(vm: Vm, file: seq<byte>, page: nat, mem: PageMemory): (Vm, FaultResult) {
    match FindSup(vm.sup, page, 0)
    case None => (vm, NoPage)
    case Some(i) =>
      var e := vm.sup[i];
      if !e.onDisk then (vm, NoPage)
      else if vm.frames == 0 || !ReadsAll(file, e.offset, e.readBytes, mem.bounce) || e.readBytes > PAGE
              || page in vm.pages || !mem.table then (vm, Panic)
      else
        ReadsAllMeans(file, e.offset, e.readBytes, mem.bounce);
        var at := if e.readBytes == 0 then 0 else e.offset;
        (Vm(vm.pages[page := Mapped(Filled(file, at, e.readBytes), e.writable)],
            vm.sup[i := e.(onDisk := false)], vm.frames - 1), Loaded)
  }

  class Process {
    const file: seq<byte>
    var pos: nat
    var pages: map<nat, Mapped>
    var sup: seq<SupPage>
    var frames: nat

    constructor (file: seq<byte>, frames: nat)
      ensures this.file == file && View() == Vm(map[], [], frames)
    {
      this.file, this.frames := file, frames;
      pos, pages, sup := 0, map[], [];
    }

    function View(): Vm
      reads this
    {
      Vm(pages, sup, frames)
    }

    /** file_read into a page. */
    method FileRead(cnt: nat, bounce: bool) returns (bytes: seq<byte>)
      modifies this`pos
      ensures |bytes| == Transferred(|file|, cnt, old(pos), bounce) && pos == old(pos) + |bytes|
      ensures |bytes| > 0 ==> pos <= |file| && bytes == file[old(pos)..pos]
    {
      var n := Transferred(|file|, cnt, pos, bounce);
      if n == 0 {
        return [];
      }
      bytes := file[pos..pos + n];
      pos := pos + n;
    }

    /** install_page; `table` says whether a page table can be had. */
    method InstallPage(page: nat, bytes: seq<byte>, writable: bool, table: bool) returns (ok: bool)
      modifies this`pages
      ensures ok <==> page !in old(pages) && table
      ensures pages == if ok then old(pages)[page := Mapped(bytes, writable)] else old(pages)
    {
      if page in pages || !table {
        return false;
      }
      pages := pages[page := Mapped(bytes, writable)];
      return true;
    }

    /** The body of load_segment's loop. */
    method LoadOne(page: nat, cnt: nat, writable: bool, mem: PageMemory) returns (ok: bool)
      requires cnt <= PAGE
      modifies this`pos, this`pages, this`frames
      ensures ok <==> old(frames) > 0 && ReadsAll(file, old(pos), cnt, mem.bounce) && page !in old(pages) && mem.table
      ensures ok ==> pos == old(pos) + cnt && frames == old(frames) - 1
      ensures ok ==> (cnt > 0 ==> old(pos) + cnt <= |file|)
      ensures ok ==> pages == old(pages)[page := Mapped((if cnt == 0 then [] else file[old(pos)..old(pos) + cnt])
                                                          + seq<byte>(PAGE - cnt, i => 0), writable)]
    {
      if frames == 0 {
        return false;
      }
      frames := frames - 1;
      var bytes := FileRead(cnt, mem.bounce);
      if |bytes| != cnt {
        frames := frames + 1;
        return false;
      }
      ok := InstallPage(page, bytes + seq<byte>(PAGE - cnt, i => 0), writable, mem.table);
      if !ok {
        frames := frames + 1;
      }
    }

    /** load_segment of `|mem|` pages, the k-th with memory as `mem[k]` says. */
    method LoadSegment(ofs: nat, first: nat, readBytes0: nat, zeroBytes0: nat, writable: bool, mem: seq<PageMemory>)
      returns (ok: bool)
      requires ofs <= |file| && readBytes0 + zeroBytes0 == |mem| * PAGE
      modifies this`pos, this`pages, this`frames
      ensures ok <==> CanLoad(old(View()), file, ofs, readBytes0, first, mem)
      ensures ok ==> ofs + readBytes0 <= |file|
      ensures ok ==> pages == WithPages(old(pages), file, ofs, readBytes0, writable, first, |mem|)
                     && frames == old(frames) - |mem|
    {
      pos := ofs;
      var readBytes: nat, zeroBytes: nat, page := readBytes0, zeroBytes0, first;
      var k := 0;
      while readBytes > 0 || zeroBytes > 0
        invariant k <= |mem| && page == first + k && readBytes + zeroBytes == (|mem| - k) * PAGE
        invariant readBytes == if readBytes0 < k * PAGE then 0 else readBytes0 - k * PAGE
        invariant pos == ReadAtOffset(ofs, readBytes0, k) <= |file|
        invariant frames == old(frames) - k
        invariant Unmapped(old(pages), first, k) && Supplied(mem, ofs, readBytes0, k)
        invariant MapsFirst(pages, old(pages), file, ofs, readBytes0, writable, first, k)
        decreases |mem| - k
      {
        var pageReadBytes := if readBytes < PAGE then readBytes else PAGE;
        var pageZeroBytes := PAGE - pageReadBytes;
        TurnFacts(ofs, readBytes0, |mem|, k, readBytes, zeroBytes);
        ReadsAllMeans(file, pos, pageReadBytes, mem[k].bounce);
        ghost var before := pages;
        var loaded := LoadOne(page, pageReadBytes, writable, mem[k]);
        if !loaded {
          return false;
        }
        OneMorePage(before, pages, old(pages), file, ofs, readBytes0, writable, first, k);
        readBytes := readBytes - pageReadBytes;
        zeroBytes := zeroBytes - pageZeroBytes;
        page := page + 1;
        k := k + 1;
      }
      return true;
    }

    /** lazy_load_segment: only table entries, in order of the pages. */
    method LazyLoadSegment(ofs0: nat, first: nat, readBytes0: nat, zeroBytes0: nat, writable: bool, ghost n: nat)
      requires readBytes0 + zeroBytes0 == n * PAGE
      modifies this`sup
      ensures sup == old(sup) + Entries(ofs0, readBytes0, writable, first, n)
    {
      var ofs, readBytes: nat, zeroBytes: nat, page := ofs0, readBytes0, zeroBytes0, first;
      ghost var k := 0;
      assert sup + [] == sup;
      while readBytes > 0 || zeroBytes > 0
        invariant k <= n && page == first + k && readBytes + zeroBytes == (n - k) * PAGE
        invariant readBytes == if readBytes0 < k * PAGE then 0 else readBytes0 - k * PAGE
        invariant ofs == ReadAtOffset(ofs0, readBytes0, k)
        invariant sup == old(sup) + Entries(ofs0, readBytes0, writable, first, k)
        decreases n - k
      {
        var pageReadBytes := if readBytes < PAGE then readBytes else PAGE;
        var pageZeroBytes := PAGE - pageReadBytes;
        TurnFacts(ofs0, readBytes0, n, k, readBytes, zeroBytes);
        sup := sup + [SupPage(page, writable, true, ofs, pageReadBytes)];
        ofs := ofs + pageReadBytes;
        readBytes := readBytes - pageReadBytes;
        zeroBytes := zeroBytes - pageZeroBytes;
        page := page + 1;
        k := k + 1;
      }
    }

    /** lookup_page: the first entry for a page. */
    method LookupSup(page: nat) returns (r: Option<nat>)
      ensures r == FindSup(sup, page, 0)
    {
      var i := 0;
      while i < |sup|
        invariant i <= |sup| && FindSup(sup, page, 0) == FindSup(sup, page, i)
      {
        if sup[i].page == page {
          return Some(i);
        }
        i := i + 1;
      }
      return None;
    }

    /** load_page; false means that the kernel panics. */
    method LoadPage(i: nat, page: nat, mem: PageMemory) returns (ok: bool)
      requires i < |sup| && sup[i].page == page && sup[i].onDisk && FindSup(sup, page, 0) == Some(i)
      requires sup[i].readBytes <= PAGE
      modifies this
      ensures Fault(old(View()), file, page, mem) == (View(), if ok then Loaded else Panic)
    {
      var e := sup[i];
      if frames == 0 {
        return false;
      }
      if Transferred(|file|, e.readBytes, e.offset, mem.bounce) != e.readBytes {
        return false;
      }
      ReadsAllMeans(file, e.offset, e.readBytes, mem.bounce);
      var at := if e.readBytes == 0 then 0 else e.offset;
      var filled := Filled(file, at, e.readBytes);
      ok := InstallPage(page, filled, e.writable, mem.table);
      if ok {
        frames := frames - 1;
        sup := sup[i := e.(onDisk := false)];
      }
    }

    /** page_fault on a page that is not present. */
    method PageFault(page: nat, mem: PageMemory) returns (r: FaultResult)
      requires forall i :: 0 <= i < |sup| ==> sup[i].readBytes <= PAGE
      modifies this
      ensures Fault(old(View()), file, page, mem) == (View(), r)
    {
      var i := LookupSup(page);
      if i.None? || !sup[i.value].onDisk {
        return NoPage;
      }
      var ok := LoadPage(i.value, page, mem);
      return if ok then Loaded else Panic;
    }
  }

  /** Where one turn of the loop stands. */
  lemma TurnFacts(ofs: nat, readBytes0: nat, n: nat, k: nat, readBytes: nat, zeroBytes: nat)
    requires k <= n && readBytes + zeroBytes == (n - k) * PAGE && (readBytes > 0 || zeroBytes > 0)
    requires readBytes == if readBytes0 < k * PAGE then 0 else readBytes0 - k * PAGE
    ensures k < n && FromFile(readBytes0, k) == if readBytes < PAGE then readBytes else PAGE
    ensures ReadAtOffset(ofs, readBytes0, k) + FromFile(readBytes0, k) == ReadAtOffset(ofs, readBytes0, k + 1)
    ensures FromFile(readBytes0, k) > 0 ==> ReadAtOffset(ofs, readBytes0, k + 1) <= ofs + readBytes0
    ensures readBytes - FromFile(readBytes0, k) == if readBytes0 < (k + 1) * PAGE then 0 else readBytes0 - (k + 1) * PAGE
  {
  }

  lemma OneMorePage(pages: map<nat, Mapped>, pages': map<nat, Mapped>, was: map<nat, Mapped>, file: seq<byte>,
                    ofs: nat, readBytes: nat, writable: bool, first: nat, k: nat)
    requires MapsFirst(pages, was, file, ofs, readBytes, writable, first, k)
    requires var at, cnt := ReadAtOffset(ofs, readBytes, k), FromFile(readBytes, k);
             && (cnt > 0 ==> at + cnt <= |file|)
             && pages' == pages[first + k := Mapped((if cnt == 0 then [] else file[at..at + cnt]) + seq<byte>(PAGE - cnt, i => 0),
                                                    writable)]
    ensures MapsFirst(pages', was, file, ofs, readBytes, writable, first, k + 1)
  {
    var at, cnt := ReadAtOffset(ofs, readBytes, k), FromFile(readBytes, k);
    if ofs + readBytes <= |file| {
      PageInFile(ofs, readBytes, k, |file|);
      if cnt == 0 {
        assert file[at..at] == [];
      }
      assert PageAt(file, ofs, readBytes, writable, k)
          == Mapped((if cnt == 0 then [] else file[at..at + cnt]) + seq<byte>(PAGE - cnt, i => 0), writable);
    }
  }

  /** The pages after `k` turns of the loader. */
  ghost predicate MapsFirst(pages: map<nat, Mapped>, was: map<nat, Mapped>, file: seq<byte>, ofs: nat, readBytes: nat,
                            writable: bool, first: nat, k: nat) {
    && (forall p :: p in pages <==> p in was || first <= p < first + k)
    && (ofs + readBytes <= |file| ==> pages == WithPages(was, file, ofs, readBytes, writable, first, k))
  }
}
