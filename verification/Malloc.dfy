/** malloc, realloc and free carried out in place, with the bytes of the blocks. */
module Malloc {
  import opened Bitmap
  import opened DiskModel
  import opened MallocSpec
  import opened MallocInvariant
  import opened MallocRuns

  /** What malloc_init computes for a block size; the free list is kept beside it. */
  datatype Desc = Desc(blockSize: nat, blocksPerArena: nat)

  function Descs(n: nat): (r: seq<Desc>)
    ensures |r| == n && forall d :: 0 <= d < n ==> r[d] == Desc(ClassSize(d), Per(d))
  {
    if n == 0 then [] else Descs(n - 1) + [Desc(ClassSize(n - 1), Per(n - 1))]
  }

  /** memset */
  function Fill(memory: seq<byte>, from: nat, cnt: nat, v: byte): (r: seq<byte>)
    requires from + cnt <= |memory|
    ensures |r| == |memory|
    ensures forall i :: 0 <= i < |r| ==> r[i] == if from <= i < from + cnt then v else memory[i]
  {
    memory[..from] + seq<byte>(cnt, i => v) + memory[from + cnt..]
  }

  /** memcpy within the memory */
  function Copy(memory: seq<byte>, to: nat, from: nat, cnt: nat): (r: seq<byte>)
    requires from + cnt <= |memory| && to + cnt <= |memory|
    ensures |r| == |memory|
    ensures forall i :: 0 <= i < |r| ==> r[i] == if to <= i < to + cnt then memory[from + (i - to)] else memory[i]
  {
    memory[..to] + memory[from..from + cnt] + memory[to + cnt..]
  }

  /** The byte at address `x`. */
  function ByteAt(memory: seq<byte>, base: nat, x: nat): int {
    if base * PAGE <= x < base * PAGE + |memory| then memory[x - base * PAGE] else -1
  }

  /** Only bytes from `lo` to below `hi` may differ. */
  ghost predicate Outside(memory: seq<byte>, memory': seq<byte>, base: nat, lo: int, hi: int) {
    forall x: nat :: x < lo || hi <= x ==> ByteAt(memory', base, x) == ByteAt(memory, base, x)
  }

  lemma OutsideBoth(m0: seq<byte>, m1: seq<byte>, m2: seq<byte>, base: nat, lo: int, hi: int, lo': int, hi': int)
    requires Outside(m0, m1, base, lo, hi) && Outside(m1, m2, base, lo', hi') && lo' <= lo && hi <= hi'
    ensures Outside(m0, m2, base, lo', hi')
  {
  }

  /** The first `cnt` bytes at `to` are those that were at `from`. */
  ghost predicate SameBytes(memory: seq<byte>, memory': seq<byte>, base: nat, from: nat, to: nat, cnt: nat) {
    forall x: nat :: to <= x < to + cnt ==> ByteAt(memory', base, x) == ByteAt(memory, base, from + (x - to))
  }

  function Least(a: int, b: int): nat {
    if a < 0 || b < 0 then 0 else if a < b then a else b
  }

  /** The bytes of all blocks in use in `h`, but for block `but`, are as before. */
  ghost predicate BytesKept(h: Heap, memory: seq<byte>, memory': seq<byte>, but: Option<nat>) {
    forall a, x: nat :: a in h.live && Some(a) != but && InBlock(h, a, x) ==> ByteAt(memory', h.base, x) == ByteAt(memory, h.base, x)
  }

  // ---------------------------------------------------------------- headers after a call

  /** free keeps the other arenas and drops at most the block's own. */
  lemma HeadersAfterFree(h: Heap, b: nat)
    requires Valid(h) && b in h.live && |h.lists| == CLASSES && Free(h, b).Done?
    ensures Page(b) in h.headers
    ensures var h' := Free(h, b).heap;
            && h'.base == h.base && |h'.used| == |h.used|
            && (SameArenas(h.headers, h'.headers) || h'.headers.Keys == h.headers.Keys - {Page(b)})
            && forall q :: q in h'.headers ==> q in h.headers && (q != Page(b) ==> h'.headers[q] == h.headers[q])
  {
    hide *;
    HeaderOf(h, b);
    match h.headers[Page(b)]
    case Small(d, c) =>
      var k := BeforeFree(h, b, d, c);
      GivenIs(h, b, d, c);
      if c + 1 == Per(d) {
        DropOk(Given(h, b, d, c), Page(b), d);
        FreeLastIs(h, b, d, c);
      } else {
        FreeSomeIs(h, b, d, c);
        SameMeans(h.headers, Free(h, b).heap.headers);
      }
    case Big(n) =>
      BigToFree(h, b, n);
      FreeBigIs(h, b, n);
  }

  lemma SameMeans(headers: map<nat, Arena>, headers': map<nat, Arena>)
    requires SameArenas(headers, headers')
    ensures headers'.Keys == headers.Keys
  {
  }

  lemma BigToFree(h: Heap, b: nat, n: nat)
    requires Valid(h) && b in h.live && Page(b) in h.headers && h.headers[Page(b)] == Big(n)
    ensures BlockToArena(h.headers, b) == Some(Big(n))
    ensures h.base <= Page(b) && AllAre(h.used, Page(b) - h.base, n, true) && Page(b) - h.base + n <= |h.used| && n > 0
  {
    HeaderOf(h, b);
    SpanPositive(h, Page(b));
    PageOf(Page(b), HEADER);
    PagesReleased(h.base, h.used, h.headers, Page(b));
  }

  lemma CapacityKept(h: Heap, b: nat, a: nat)
    requires Valid(h) && b in h.live && |h.lists| == CLASSES && Free(h, b).Done?
    requires a in Free(h, b).heap.live
    ensures a in h.live && a != b
    ensures var h' := Free(h, b).heap;
            && Capacity(h'.headers, a) == Capacity(h.headers, a)
            && (Page(b) !in h'.headers ==> Page(a) != Page(b))
  {
    FreeOk(h, b);
    HeadersAfterFree(h, b);
    HeaderOf(Free(h, b).heap, a);
    hide Valid, Free, Page;
  }

  /** free may clear the block, and its pages if the arena goes: no byte of another block. */
  lemma OutOfReach(h: Heap, b: nat, a: nat, x: nat)
    requires Valid(h) && b in h.live && |h.lists| == CLASSES && Free(h, b).Done?
    requires a in Free(h, b).heap.live && InBlock(Free(h, b).heap, a, x)
    ensures x < b || b + Capacity(h.headers, b) <= x
    ensures Page(b) in h.headers
    ensures Page(b) !in Free(h, b).heap.headers ==>
      x < Page(b) * PAGE || (Page(b) + Span(h.headers[Page(b)])) * PAGE <= x
  {
    CapacityKept(h, b, a);
    if a < b {
      LiveApart(h, a, b);
    } else {
      LiveApart(h, b, a);
    }
    Where(h, a);
    Where(h, b);
    var p: nat, q: nat := Page(b), Page(a);
    hide *;
    InBlockIs(Free(h, b).heap, a, x);
    if q < p {
      ArenasApart(h, q, p);
      PagesScale(q + Span(h.headers[q]), p);
    } else if p < q {
      ArenasApart(h, p, q);
      PagesScale(p + Span(h.headers[p]), q);
    }
  }

  lemma InBlockIs(h: Heap, a: nat, x: nat)
    requires InBlock(h, a, x)
    ensures a <= x < a + Capacity(h.headers, a)
  {
  }

  /** Clearing stretches that no block in use reaches keeps every block's bytes. */
  class Allocator {
    const base: nat
    const descs: seq<Desc>
    var used: seq<bool>
    var headers: map<nat, Arena>
    var lists: seq<seq<nat>>
    var memory: seq<byte>
    ghost var live: map<nat, nat>

    ghost function View(): Heap
      reads this
    {
      Heap(base, used, headers, lists, live)
    }

    ghost predicate Sized()
      reads this
    {
      descs == Descs(CLASSES) && |memory| == |used| * PAGE && |lists| == CLASSES
    }

    ghost predicate Valid()
      reads this
    {
      MallocSpec.Valid(View()) && Sized()
    }

    /** malloc_init over a pool of pages from `base` on. */
    constructor (base: nat, used: seq<bool>, memory: seq<byte>)
      requires base > 0 && |memory| == |used| * PAGE
      ensures Valid() && View() == Empty(base, used) && this.memory == memory
    {
      this.base, this.used, this.memory := base, used, memory;
      headers, live := map[], map[];
      var blockSize, ds, ls: seq<seq<nat>> := 16, [], [];
      ClassSizes();
      while blockSize < PAGE / 2
        invariant |ds| <= CLASSES && blockSize == ClassSize(|ds|) && ds == Descs(|ds|) && |ls| == |ds|
        invariant forall d :: 0 <= d < |ls| ==> ls[d] == []
        decreases CLASSES - |ds|
      {
        // desc_cnt stays within the array of descriptors
        assert |ds| + 1 <= 10;
        ds := ds + [Desc(blockSize, (PAGE - HEADER) / blockSize)];
        ls := ls + [[]];
        blockSize := blockSize * 2;
      }
      assert ls == [[], [], [], [], [], [], []];
      descs, lists := ds, ls;
      new;
      EmptyValid(base, used);
    }

    // -------------------------------------------------------------- pages

    /** palloc_get_multiple */
    method PallocGetMultiple(cnt: nat) returns (r: Option<nat>)
      modifies this`used
      ensures r == PallocGet(old(used), cnt) && |used| == |old(used)|
      ensures used == if r.Some? then Mark(old(used), r.value, cnt, true) else old(used)
    {
      if cnt == 0 {
        return None;
      }
      r := Fit(used, cnt, 0);
      if r.Some? {
        used := Mark(used, r.value, cnt, true);
      }
    }

    /** palloc_free_multiple of the pages of an arena; the preconditions are its assertions. */
    method PallocFreeMultiple(p: nat, cnt: nat)
      requires Sized() && base <= p && cnt > 0 && AllAre(used, p - base, cnt, true)
      modifies this`used, this`headers, this`memory
      ensures Sized() && PallocFree(old(View()), p, cnt) == Done(View(), None)
      ensures Outside(old(memory), memory, base, p * PAGE, (p + cnt) * PAGE)
    {
      var k := p - base;
      InPool(k, cnt, |used|);
      memory := Fill(memory, k * PAGE, cnt * PAGE, 0xcc);
      used := Mark(used, k, cnt, false);
      headers := headers - {p};
    }

    // -------------------------------------------------------------- malloc

    method FindDesc(size: nat) returns (d: nat)
      requires Sized()
      ensures d == FindClass(size, 0)
    {
      d := 0;
      while d < |descs| && descs[d].blockSize < size
        invariant d <= CLASSES && FindClass(size, 0) == FindClass(size, d)
      {
        d := d + 1;
      }
    }

    /** Pages for a big block, with the arena header in front. */
    method GetBig(size: nat) returns (b: Option<nat>)
      requires Sized()
      modifies this`used, this`headers, this`live
      ensures Sized() && MallocBig(old(View()), size) == Done(View(), b)
    {
      var pageCnt := ((size + HEADER) % WORD + PAGE - 1) % WORD / PAGE;
      var k := PallocGetMultiple(pageCnt);
      if k.None? {
        return None;
      }
      headers := headers[base + k.value := Big(pageCnt)];
      b := Some((base + k.value) * PAGE + HEADER);
      live := live[b.value := size];
    }

    /** A page cut into blocks of class `d`, all put on the free list. */
    method AddArena(d: nat) returns (ok: bool)
      requires Sized() && d < CLASSES
      modifies this`used, this`headers, this`lists
      ensures Sized() && ok == NewArena(old(View()), d).Some?
      ensures View() == if ok then NewArena(old(View()), d).value else old(View())
    {
      hide ClassSize, Quotient, Per, BlockAddr, Blocks;
      assert Blocks(base, d, 0) == [];
      var k := PallocGetMultiple(1);
      if k.None? {
        return false;
      }
      var p := base + k.value;
      headers := headers[p := Small(d, descs[d].blocksPerArena)];
      assert lists[d] + Blocks(p, d, 0) == lists[d];
      var i := 0;
      ghost var used1, headers1 := used, headers;
      while i < descs[d].blocksPerArena
        invariant i <= Per(d) && Sized() && used == used1 && headers == headers1
        invariant lists == old(lists)[d := old(lists)[d] + Blocks(p, d, i)]
      {
        var b := ArenaToBlock(p, d, i);
        OneMoreBlock(old(lists)[d], p, d, i);
        lists := lists[d := lists[d] + [b]];
        i := i + 1;
      }
      assert i == Per(d);
      return true;
    }

    /** arena_to_block; its assertions are the preconditions. */
    method ArenaToBlock(p: nat, d: nat, i: nat) returns (b: nat)
      requires Sized() && d < CLASSES && p in headers && headers[p].Small? && headers[p].desc == d && i < Per(d)
      ensures b == BlockAddr(p, d, i)
    {
      b := p * PAGE + HEADER + i * descs[d].blockSize;
    }

    /** list_pop_front and the arena's counter */
    method PopBlock(d: nat, size: nat) returns (b: nat)
      requires Sized() && d < CLASSES && lists[d] != [] && Take(View(), d, size).Done?
      modifies this`headers, this`lists, this`live
      ensures Sized() && Take(old(View()), d, size) == Done(View(), Some(b))
    {
      b := lists[d][0];
      lists := lists[d := lists[d][1..]];
      var a := headers[Page(b)];
      headers := headers[Page(b) := a.(freeCnt := a.freeCnt - 1)];
      live := live[b := size];
    }

    lemma ValidParts()
      requires Valid()
      ensures MallocSpec.Valid(View()) && Sized() && |View().lists| == CLASSES
    {
    }

    lemma SizedParts()
      requires Sized()
      ensures descs == Descs(CLASSES) && |memory| == |used| * PAGE && |lists| == CLASSES
    {
    }

    lemma SizedFrom()
      requires descs == Descs(CLASSES) && |memory| == |used| * PAGE && |lists| == CLASSES
      ensures Sized()
    {
    }

    lemma IsValidNow()
      requires MallocSpec.Valid(View()) && Sized()
      ensures Valid()
    {
    }

    lemma PopReady(d: nat, full: Option<nat>, size: nat)
      requires Ok(View(), full) && base > 0 && d < CLASSES == |lists| && lists[d] != [] && size <= ClassSize(d)
      requires full.Some? ==> full.value == Page(lists[d][0])
      ensures Take(View(), d, size).Done? && lists[d] == View().lists[d]
    {
      TakeOk(View(), full, d, size);
    }

    method Malloc(size: nat) returns (b: Option<nat>)
      requires Valid() && size < WORD
      modifies this`used, this`headers, this`lists, this`live
      ensures Valid() && MallocSpec.Malloc(old(View()), size) == Done(View(), b)
    {
      ghost var h := View();
      ValidParts();
      MallocOk(h, size);
      if size == 0 {
        return None;
      }
      hide *;
      MallocIs(h, size);
      ViewIs();
      var d := FindDesc(size);
      ClassFits(size);
      if d == |descs| {
        b := GetBig(size);
      } else {
        if lists[d] == [] {
          var ok := AddArena(d);
          if !ok {
            b := None;
          } else {
            NewArenaOk(h, d);
            ViewIs();
            PopReady(d, Some(Page(lists[d][0])), size);
            b := PopSome(d, size);
          }
        } else {
          PopReady(d, None, size);
          b := PopSome(d, size);
        }
      }
      IsValidNow();
    }

    method PopSome(d: nat, size: nat) returns (b: Option<nat>)
      requires Sized() && d < CLASSES && lists[d] != [] && Take(View(), d, size).Done?
      modifies this`headers, this`lists, this`live
      ensures Sized() && Take(old(View()), d, size) == Done(View(), b)
    {
      var x := PopBlock(d, size);
      b := Some(x);
    }

    // -------------------------------------------------------------- free

    /** memset of a freed block, list_push_front, and the arena's counter. */
    method PushBlock(b: nat, d: nat)
      requires Sized() && d < CLASSES && Page(b) in headers && headers[Page(b)].Small?
      requires base * PAGE <= b && b + ClassSize(d) <= base * PAGE + |memory|
      modifies this`headers, this`lists, this`live, this`memory
      ensures Sized() && Page(b) in headers && headers[Page(b)] == Small(old(headers[Page(b)].desc), old(headers[Page(b)].freeCnt) + 1)
      ensures View() == old(View()).(headers := headers, lists := old(lists)[d := [b] + old(lists)[d]], live := old(live) - {b})
      ensures headers == old(headers)[Page(b) := headers[Page(b)]]
      ensures Outside(old(memory), memory, base, b, b + ClassSize(d))
    {
      memory := Fill(memory, b - base * PAGE, descs[d].blockSize, 0xcc);
      lists := lists[d := [b] + lists[d]];
      var a := headers[Page(b)];
      headers := headers[Page(b) := a.(freeCnt := a.freeCnt + 1)];
      live := live - {b};
    }

    /** list_remove of every block of an arena. */
    method RemoveBlocks(p: nat, d: nat)
      requires Sized() && d < CLASSES && p in headers && headers[p].Small? && headers[p].desc == d
      modifies this`lists
      ensures Sized() && View() == old(View()).(lists := old(lists)[d := WithoutBlocks(old(lists)[d], p, d, Per(d))])
    {
      hide ClassSize, Quotient, Per, BlockAddr, Without;
      ghost var was := lists[d];
      assert WithoutBlocks(was, p, d, 0) == was;
      var i := 0;
      while i < descs[d].blocksPerArena
        invariant i <= Per(d) && Sized()
        invariant lists == old(lists)[d := WithoutBlocks(was, p, d, i)]
      {
        var b := ArenaToBlock(p, d, i);
        lists := lists[d := Without(lists[d], b)];
        i := i + 1;
      }
      assert i == Per(d);
    }

    /** A wholly free arena goes back to the page allocator. */
    method ReturnArena(p: nat, d: nat)
      requires Sized() && Ok(View(), Some(p)) && d < CLASSES && p in headers && headers[p] == Small(d, Per(d))
      modifies this`used, this`headers, this`lists, this`memory
      ensures Sized() && p !in headers && base <= p && p - base + 1 <= |old(used)|
      ensures View() == old(View()).(used := Mark(old(used), p - base, 1, false), headers := old(headers) - {p},
                                     lists := old(lists)[d := WithoutBlocks(old(lists)[d], p, d, Per(d))])
      ensures Outside(old(memory), memory, base, p * PAGE, (p + 1) * PAGE)
    {
      ghost var h := View();
      ViewIs();
      hide *;
      DropOk(h, p, d);
      AllIs(used, p - base, 1);
      RemoveBlocks(p, d);
      ViewIs();
      PallocFreeIs(View(), p, 1);
      PallocFreeMultiple(p, 1);
      ViewIs();
    }

    /** The block goes back to its arena, the arena perhaps to the page allocator. */
    method FreeBlock(b: nat, d: nat, c: nat)
      requires Valid() && b in live && Page(b) in headers && headers[Page(b)] == Small(d, c)
      modifies this`used, this`headers, this`lists, this`live, this`memory
      ensures Sized() && MallocSpec.Free(old(View()), b) == Done(View(), None)
      ensures Page(b) in headers ==> Outside(old(memory), memory, base, b, b + Capacity(old(headers), b))
      ensures Page(b) !in headers ==> Outside(old(memory), memory, base, Page(b) * PAGE, (Page(b) + 1) * PAGE)
    {
      hide *;
      ghost var h, was := View(), memory;
      BlockFacts(b, d, c);
      ghost var k := BeforeFree(h, b, d, c);
      GivenIs(h, b, d, c);
      var p := Page(b);
      PushBlock(b, d);
      ViewIs();
      ghost var mid := memory;
      if headers[p].freeCnt >= descs[d].blocksPerArena {
        assert headers[p].freeCnt == descs[d].blocksPerArena;
        DropOk(View(), p, d);
        FreeLastIs(h, b, d, c);
        ReturnArena(p, d);
        BlockInside(p, d, k);
        OutsideBoth(was, mid, memory, base, b, b + ClassSize(d), p * PAGE, (p + 1) * PAGE);
      } else {
        FreeSomeIs(h, b, d, c);
      }
    }

    lemma BlockFacts(b: nat, d: nat, c: nat)
      requires Valid() && b in live && Page(b) in headers && headers[Page(b)] == Small(d, c)
      ensures MallocSpec.Valid(View()) && Sized() && b in View().live && d < CLASSES && Capacity(headers, b) == ClassSize(d)
      ensures base * PAGE <= b && b + ClassSize(d) <= base * PAGE + |memory|
      ensures |descs| == CLASSES && descs[d] == Desc(ClassSize(d), Per(d))
      ensures View() == Heap(base, used, headers, lists, live)
    {
      OffHeaders(View(), b, Page(b));
      SmallClass(View(), Page(b));
    }

    method FreeRun(b: nat, n: nat)
      requires Valid() && b in live && Page(b) in headers && headers[Page(b)] == Big(n)
      modifies this`used, this`headers, this`live, this`memory
      ensures Sized() && MallocSpec.Free(old(View()), b) == Done(View(), None)
      ensures Page(b) !in headers && Outside(old(memory), memory, base, Page(b) * PAGE, (Page(b) + n) * PAGE)
    {
      ghost var h := View();
      hide *;
      ValidParts();
      ViewIs();
      BigToFree(h, b, n);
      FreeBigIs(h, b, n);
      SizedParts();
      live := live - {b};
      SizedFrom();
      ViewIs();
      PallocFreeIs(View(), Page(b), n);
      PallocFreeMultiple(Page(b), n);
      ViewIs();
    }

    method Free(ptr: Option<nat>)
      requires Valid() && (ptr.Some? ==> ptr.value in live)
      modifies this`used, this`headers, this`lists, this`live, this`memory
      ensures Valid() && BytesKept(View(), old(memory), memory, None)
      ensures ptr.None? ==> View() == old(View()) && memory == old(memory)
      ensures ptr.Some? ==> MallocSpec.Free(old(View()), ptr.value) == Done(View(), None)
    {
      if ptr.None? {
        return;
      }
      var b := ptr.value;
      ghost var h, was := View(), memory;
      ValidParts();
      HeaderOf(h, b);
      FreeOk(h, b);
      var p := Page(b);
      match headers[p] {
        case Small(d, c) =>
          FreeBlock(b, d, c);
        case Big(n) =>
          FreeRun(b, n);
      }
      hide *;
      IsValidNow();
      KeptByFree(h, b, was, memory);
    }

    // -------------------------------------------------------------- realloc

    /** block_size */
    method BlockSize(b: nat) returns (size: nat)
      requires Valid() && b in live
      ensures size == Capacity(headers, b)
    {
      ValidParts();
      Where(View(), b);
      HeaderOf(View(), b);
      PageOf(Page(b), HEADER);
      match headers[Page(b)] {
        case Small(d, _) =>
          SmallClass(View(), Page(b));
          size := descs[d].blockSize;
        case Big(n) =>
          size := PAGE * n - b % PAGE;
      }
    }

    lemma Bounds(a: nat)
      requires Valid() && a in live
      ensures View().base == base && View().headers == headers && View().live == live
      ensures base * PAGE <= a && a + Capacity(headers, a) <= base * PAGE + |memory|
    {
      InMemory(View(), a, |memory|);
    }

    /** memcpy */
    method CopyMemory(to: nat, from: nat, cnt: nat)
      requires Valid() && base * PAGE <= to && to + cnt <= base * PAGE + |memory|
      requires base * PAGE <= from && from + cnt <= base * PAGE + |memory|
      modifies this`memory
      ensures Valid() && View() == old(View())
      ensures Outside(old(memory), memory, base, to, to + cnt) && SameBytes(old(memory), memory, base, from, to, cnt)
    {
      CopyKeeps(memory, base, to, from, cnt);
      hide MallocSpec.Valid, Copy;
      memory := Copy(memory, to - base * PAGE, from - base * PAGE, cnt);
    }

    /** memcpy between two blocks. */
    method CopyBlock(to: nat, from: nat, cnt: nat)
      requires Valid() && to in live && from in live && to != from
      requires cnt <= Capacity(headers, to) && cnt <= Capacity(headers, from)
      modifies this`memory
      ensures Valid() && View() == old(View()) && BytesKept(View(), old(memory), memory, Some(to))
      ensures SameBytes(old(memory), memory, base, from, to, cnt)
    {
      hide *;
      ghost var h, was := View(), memory;
      ValidParts();
      Bounds(to);
      Bounds(from);
      CopyMemory(to, from, cnt);
      ApartKept(h, was, memory, to, cnt);
    }

    /** realloc.  When adding the arena header passes 2^32 the new block is one page, and the
        old block must not be larger, or else the copy would run past it. */
    method Realloc(ptr: Option<nat>, size: nat) returns (r: Option<nat>)
      requires Valid() && size < WORD && (ptr.Some? ==> ptr.value in live)
      requires size + HEADER > WORD && ptr.Some? ==> Capacity(headers, ptr.value) <= PAGE - HEADER
      modifies this`used, this`headers, this`lists, this`live, this`memory
      ensures Valid() && MallocSpec.Realloc(old(View()), ptr, size) == Done(View(), r)
      ensures BytesKept(View(), old(memory), memory, r)
      ensures ptr.Some? && r.Some? ==>
        SameBytes(old(memory), memory, base, ptr.value, r.value, Least(size, Capacity(old(headers), ptr.value)))
    {
      ghost var h, was := View(), memory;
      ValidParts();
      ReallocOk(h, ptr, size);
      hide *;
      if size == 0 {
        Free(ptr);
        FreedIs(h, ptr);
        return None;
      }
      MallocOk(h, size);
      r := Malloc(size);
      ReallocIs(h, ptr, size);
      KeptSame(View(), was, r);
      if ptr.Some? && r.Some? {
        ghost var h1 := View();
        ViewIs();
        ValidParts();
        LeastIs(size, Capacity(h.headers, ptr.value));
        TooSmallExactly(h1, r.value);
        CapacitySame(h, size, ptr.value);
        if size + HEADER > WORD {
          WrappedOnePage(h, size);
        }
        var oldSize := BlockSize(ptr.value);
        var minSize := if size < oldSize then size else oldSize;
        CopyBlock(r.value, ptr.value, minSize);
        ghost var mid := memory;
        Free(ptr);
        AfterMove(h1, ptr.value, r.value, was, mid, memory, minSize);
      }
    }

    lemma ViewIs()
      requires Sized()
      ensures View() == Heap(base, used, headers, lists, live) && |lists| == CLASSES == |descs|
    {
    }
  }

  lemma PallocFreeIs(h: Heap, p: nat, cnt: nat)
    requires h.base <= p && AllAre(h.used, p - h.base, cnt, true)
    ensures PallocFree(h, p, cnt)
         == Done(h.(used := Mark(h.used, p - h.base, cnt, false), headers := h.headers - {p}), None)
  {
  }

  /** free changed nothing but the block itself and pages that are no longer an arena's. */
  lemma KeptByFree(h: Heap, b: nat, memory: seq<byte>, memory': seq<byte>)
    requires MallocSpec.Valid(h) && b in h.live && |h.lists| == CLASSES && MallocSpec.Free(h, b).Done?
    requires Page(b) in h.headers
    requires Page(b) in MallocSpec.Free(h, b).heap.headers ==> Outside(memory, memory', h.base, b, b + Capacity(h.headers, b))
    requires Page(b) !in MallocSpec.Free(h, b).heap.headers ==>
      Outside(memory, memory', h.base, Page(b) * PAGE, (Page(b) + Span(h.headers[Page(b)])) * PAGE)
    ensures BytesKept(MallocSpec.Free(h, b).heap, memory, memory', None)
  {
    var h' := MallocSpec.Free(h, b).heap;
    HeadersAfterFree(h, b);
    hide MallocSpec.Valid, MallocSpec.Free, Capacity, InBlock, ByteAt;
    forall a, x: nat | a in h'.live && InBlock(h', a, x) ensures ByteAt(memory', h'.base, x) == ByteAt(memory, h'.base, x) {
      OutOfReach(h, b, a, x);
    }
  }

  lemma InMemory(h: Heap, a: nat, size: nat)
    requires MallocSpec.Valid(h) && a in h.live && size == |h.used| * PAGE
    ensures h.base * PAGE <= a && a + Capacity(h.headers, a) <= h.base * PAGE + size
  {
    HeaderOf(h, a);
    OffHeaders(h, a, Page(a));
  }

  lemma CopyKeeps(memory: seq<byte>, base: nat, to: nat, from: nat, cnt: nat)
    requires base * PAGE <= to && to + cnt <= base * PAGE + |memory|
    requires base * PAGE <= from && from + cnt <= base * PAGE + |memory|
    ensures var r := Copy(memory, to - base * PAGE, from - base * PAGE, cnt);
            Outside(memory, r, base, to, to + cnt) && SameBytes(memory, r, base, from, to, cnt)
  {
  }

  /** Changes within one block leave the others alone. */
  lemma ApartKept(h: Heap, memory: seq<byte>, memory': seq<byte>, to: nat, cnt: nat)
    requires MallocSpec.Valid(h) && to in h.live && cnt <= Capacity(h.headers, to)
    requires Outside(memory, memory', h.base, to, to + cnt)
    ensures BytesKept(h, memory, memory', Some(to))
  {
    hide MallocSpec.Valid, Capacity, ByteAt;
    forall a, x: nat | a in h.live && Some(a) != Some(to) && InBlock(h, a, x)
      ensures ByteAt(memory', h.base, x) == ByteAt(memory, h.base, x)
    {
      if a < to {
        LiveApart(h, a, to);
      } else {
        LiveApart(h, to, a);
      }
    }
  }

  lemma LeastIs(a: nat, b: int)
    requires b >= 0
    ensures Least(a, b) == if a < b then a else b
  {
  }

  lemma FreedIs(h: Heap, ptr: Option<nat>)
    requires |h.lists| == CLASSES
    ensures MallocSpec.Realloc(h, ptr, 0) == if ptr.Some? then MallocSpec.Free(h, ptr.value) else Done(h, None)
  {
  }

  lemma ReallocIs(h: Heap, ptr: Option<nat>, size: nat)
    requires |h.lists| == CLASSES && size > 0 && MallocSpec.Malloc(h, size).Done?
    ensures var r, m := MallocSpec.Realloc(h, ptr, size), MallocSpec.Malloc(h, size);
            if ptr.None? || m.block.None? then r == m
            else |m.heap.lists| == CLASSES && MallocSpec.Free(m.heap, ptr.value).Done? ==>
                   r == Done(MallocSpec.Free(m.heap, ptr.value).heap, m.block)
  {
  }

  lemma KeptSame(h: Heap, memory: seq<byte>, but: Option<nat>)
    ensures BytesKept(h, memory, memory, but)
  {
  }

  lemma CapacityMore(headers: map<nat, Arena>, p: nat, x: Arena, a: nat)
    requires p !in headers && Page(a) in headers
    ensures Capacity(headers[p := x], a) == Capacity(headers, a)
  {
  }

  lemma CapacityTaken(headers: map<nat, Arena>, headers': map<nat, Arena>, a: nat)
    requires SameArenas(headers, headers')
    ensures Capacity(headers', a) == Capacity(headers, a)
  {
  }

  lemma CapacityTake(h: Heap, full: Option<nat>, d: nat, size: nat, a: nat)
    requires Ok(h, full) && d < CLASSES == |h.lists| && h.lists[d] != [] && Take(h, d, size).Done?
    ensures Capacity(Take(h, d, size).heap.headers, a) == Capacity(h.headers, a)
  {
    hide *;
    var k, c := HeadIsBlock(h, full, d);
    TakesHead(h, d, size, c);
    var p := Page(h.lists[d][0]);
    CounterOnly(h.headers, p, d, c, c - 1);
    CapacityTaken(h.headers, h.headers[p := Small(d, c - 1)], a);
  }

  /** malloc changes the size of no block in use. */
  lemma CapacitySame(h: Heap, size: nat, a: nat)
    requires MallocSpec.Valid(h) && 0 < size < WORD && a in h.live
    ensures |h.lists| == CLASSES
    ensures var r := MallocSpec.Malloc(h, size);
            r.Done? && a in r.heap.live && r.block != Some(a) && Capacity(r.heap.headers, a) == Capacity(h.headers, a)
  {
    hide *;
    MallocOk(h, size);
    MallocIs(h, size);
    HeaderOf(h, a);
    ValidSizes(h);
    var d := FindClass(size, 0);
    ClassFits(size);
    if d == CLASSES {
      if PallocGet(h.used, PagesFor(size)).Some? {
        BigFresh(h, PallocGet(h.used, PagesFor(size)).value, size);
        MallocBigIs(h, size);
        CapacityMore(h.headers, h.base + PallocGet(h.used, PagesFor(size)).value, Big(PagesFor(size)), a);
      } else {
        MallocBigFails(h, size);
      }
    } else if h.lists[d] != [] {
      TakeOk(h, None, d, size);
      CapacityTake(h, None, d, size, a);
    } else if NewArena(h, d).Some? {
      var h1 := NewArena(h, d).value;
      NewArenaOk(h, d);
      var p, used' := NewArenaIs(h, d);
      CapacityMore(h.headers, p, Small(d, Per(d)), a);
      TakeOk(h1, Some(Page(h1.lists[d][0])), d, size);
      CapacityTake(h1, Some(Page(h1.lists[d][0])), d, size, a);
    }
  }

  lemma KeptAt(h: Heap, memory: seq<byte>, memory': seq<byte>, but: Option<nat>, a: nat, x: nat)
    requires BytesKept(h, memory, memory', but) && a in h.live && Some(a) != but
    requires a <= x < a + Capacity(h.headers, a)
    ensures ByteAt(memory', h.base, x) == ByteAt(memory, h.base, x)
  {
    assert InBlock(h, a, x);
  }

  lemma KeptAll(h: Heap, memory: seq<byte>, memory': seq<byte>, but: Option<nat>)
    requires forall a, x: nat :: a in h.live && Some(a) != but && a <= x < a + Capacity(h.headers, a) ==>
      ByteAt(memory', h.base, x) == ByteAt(memory, h.base, x)
    ensures BytesKept(h, memory, memory', but)
  {
  }

  lemma SameAt(memory: seq<byte>, memory': seq<byte>, base: nat, from: nat, to: nat, cnt: nat, x: nat)
    requires SameBytes(memory, memory', base, from, to, cnt) && to <= x < to + cnt
    ensures ByteAt(memory', base, x) == ByteAt(memory, base, from + (x - to))
  {
  }

  lemma SameAll(memory: seq<byte>, memory': seq<byte>, base: nat, from: nat, to: nat, cnt: nat)
    requires forall x: nat :: to <= x < to + cnt ==> ByteAt(memory', base, x) == ByteAt(memory, base, from + (x - to))
    ensures SameBytes(memory, memory', base, from, to, cnt)
  {
  }

  /** The bytes after copying to the new block and freeing the old one. */
  lemma AfterMove(h: Heap, b: nat, to: nat, m0: seq<byte>, m1: seq<byte>, m2: seq<byte>, cnt: nat)
    requires MallocSpec.Valid(h) && b in h.live && to in h.live && b != to && |h.lists| == CLASSES
    requires MallocSpec.Free(h, b).Done? && cnt <= Capacity(h.headers, to)
    requires BytesKept(h, m0, m1, Some(to)) && SameBytes(m0, m1, h.base, b, to, cnt)
    requires BytesKept(MallocSpec.Free(h, b).heap, m1, m2, None)
    ensures var h' := MallocSpec.Free(h, b).heap;
            BytesKept(h', m0, m2, Some(to)) && SameBytes(m0, m2, h.base, b, to, cnt)
  {
    hide *;
    var h' := MallocSpec.Free(h, b).heap;
    FreeOk(h, b);
    HeadersAfterFree(h, b);
    forall a, x: nat | a in h'.live && Some(a) != Some(to) && a <= x < a + Capacity(h'.headers, a)
      ensures ByteAt(m2, h'.base, x) == ByteAt(m0, h'.base, x)
    {
      CapacityKept(h, b, a);
      KeptAt(h, m0, m1, Some(to), a, x);
      KeptAt(h', m1, m2, None, a, x);
    }
    KeptAll(h', m0, m2, Some(to));
    forall x: nat | to <= x < to + cnt ensures ByteAt(m2, h.base, x) == ByteAt(m0, h.base, b + (x - to)) {
      CapacityKept(h, b, to);
      SameAt(m0, m1, h.base, b, to, cnt, x);
      KeptAt(h', m1, m2, None, to, x);
    }
    SameAll(m0, m2, h.base, b, to, cnt);
  }

  lemma OneMoreBlock(s: seq<nat>, p: nat, d: nat, i: nat)
    ensures s + Blocks(p, d, i) + [BlockAddr(p, d, i)] == s + Blocks(p, d, i + 1)
  {
  }

  lemma ClassFits(size: nat)
    ensures var d := FindClass(size, 0); d <= CLASSES && (d < CLASSES ==> size <= ClassSize(d))
  {
  }

  lemma ClassSizes()
    ensures ClassSize(0) == 16 && ClassSize(1) == 32 && ClassSize(2) == 64 && ClassSize(3) == 128
    ensures ClassSize(4) == 256 && ClassSize(5) == 512 && ClassSize(6) == 1024 && ClassSize(7) == 2048
  {
    assert ClassSize(3) == 128;
    assert ClassSize(5) == 512;
  }

  /** `cnt` pages from page `k` of the pool on, in bytes. */
  lemma InPool(k: nat, cnt: nat, pages: nat)
    requires k + cnt <= pages
    ensures k * PAGE + cnt * PAGE <= pages * PAGE
  {
  }
}
