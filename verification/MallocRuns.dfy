/** What holds of the block allocator over whole runs. */
module MallocRuns {
  import opened Sequences
  import opened Bitmap
  import opened MallocSpec
  import opened MallocInvariant
  import opened MallocRoom

  // ---------------------------------------------------------------- malloc and free

  lemma ValidSizes(h: Heap)
    requires Valid(h)
    ensures |h.lists| == CLASSES && h.base > 0 && Ok(h, None)
  {
  }

  /** malloc meets its assertions; it returns null exactly for no bytes or no room, and then
      changes nothing; and else a block that is not in use. */
  lemma MallocOk(h: Heap, size: nat)
    requires Valid(h) && size < WORD
    ensures |h.lists| == CLASSES
    ensures var r := Malloc(h, size);
            && r.Done? && Valid(r.heap)
            && (r.block.None? <==> size == 0 || NoRoom(h, size))
            && (r.block.None? ==> r.heap == h)
            && (r.block.Some? ==> r.block.value !in h.live && r.heap.live == h.live[r.block.value := size])
  {
    ValidSizes(h);
    var d := FindClass(size, 0);
    if size > 0 {
      RefusedExactly(h, size);
    }
    hide Valid, Ok, PallocGet, Take, MallocBig, NewArena, NoRoom;
    if size == 0 {
    } else if d == CLASSES {
      BigOk(h, size);
      BigNone(h, size);
    } else if h.lists[d] != [] {
      TakeOk(h, None, d, size);
    } else {
      ArenaNone(h, d);
      if NewArena(h, d).Some? {
        NewArenaOk(h, d);
        TakeOk(NewArena(h, d).value, Some(Page(NewArena(h, d).value.lists[d][0])), d, size);
      }
    }
  }

  /** A block has 16 bytes, or less than twice what was asked for up to 1024, or less than a
      page more beyond that.  A page is taken for a small block only if no block of its class
      is left. */
  lemma MallocTight(h: Heap, size: nat)
    requires Valid(h) && 0 < size < WORD && |h.lists| == CLASSES && Malloc(h, size).Done? && Malloc(h, size).block.Some?
    ensures var r := Malloc(h, size);
            && Capacity(r.heap.headers, r.block.value)
                 < (if size <= 1024 then Max(17, 2 * size) else if size + HEADER <= WORD then size + PAGE else PAGE)
            && (r.heap.used == h.used <==> size <= 1024 && FreeBlock(h, FindClass(size, 0)))
  {
    ValidSizes(h);
    MallocOk(h, size);
    MallocIs(h, size);
    ClassTight(size);
    var d := FindClass(size, 0);
    assert size > 1024 <==> d == CLASSES;
    hide *;
    if size > 1024 {
      BigNone(h, size);
      BigTight(h, size);
    } else if h.lists[d] != [] {
      EmptyListExactly(h, d);
      TakeTight(h, None, d, size);
    } else {
      EmptyListExactly(h, d);
      NewArenaOk(h, d);
      TakeTight(NewArena(h, d).value, Some(Page(NewArena(h, d).value.lists[d][0])), d, size);
      PageMarked(h, d);
    }
  }

  lemma TakeTight(h: Heap, full: Option<nat>, d: nat, size: nat)
    requires Ok(h, full) && h.base > 0 && d < CLASSES && |h.lists| == CLASSES && h.lists[d] != [] && size <= ClassSize(d)
    requires full.Some? ==> full.value == Page(h.lists[d][0])
    ensures var r := Take(h, d, size);
            r.Done? && r.block.Some? && r.heap.used == h.used && Capacity(r.heap.headers, r.block.value) == ClassSize(d)
  {
    hide *;
    var k, c := HeadIsBlock(h, full, d);
    TakeOk(h, full, d, size);
    TakesHead(h, d, size, c);
    CapacityOf(Take(h, d, size).heap.headers, h.lists[d][0], Small(d, c - 1));
  }

  lemma CapacityOf(headers: map<nat, Arena>, a: nat, arena: Arena)
    requires Page(a) in headers && headers[Page(a)] == arena
    ensures Capacity(headers, a) == match arena case Small(d, _) => ClassSize(d) case Big(n) => n * PAGE - HEADER
  {
  }

  lemma BigTight(h: Heap, size: nat)
    requires Valid(h) && 0 < size < WORD && MallocBig(h, size).Done? && MallocBig(h, size).block.Some?
    requires PallocGet(h.used, PagesFor(size)).Some?
    ensures var r := MallocBig(h, size);
            && Capacity(r.heap.headers, r.block.value) < (if size + HEADER <= WORD then size + PAGE else PAGE)
            && r.heap.used != h.used
  {
    hide *;
    var k, n := PallocGet(h.used, PagesFor(size)).value, PagesFor(size);
    PagesForLeast(size, n);
    MarkedAt(h.used, k, n);
    MallocBigIs(h, size);
    BigFresh(h, k, size);
    CapacityOf(MallocBig(h, size).heap.headers, MallocBig(h, size).block.value, Big(n));
    LessThanAPage(size, n);
  }

  lemma LessThanAPage(size: nat, n: nat)
    requires n > 0 && ((n - 1) * PAGE < size + HEADER || (WORD < size + HEADER && n == 1))
    requires WORD < size + HEADER ==> n == 1
    ensures n * PAGE - HEADER < if size + HEADER <= WORD then size + PAGE else PAGE
  {
  }

  lemma MarkedAt(used: seq<bool>, k: nat, n: nat)
    requires PallocGet(used, n) == Some(k)
    ensures n > 0 && k + n <= |used| && Mark(used, k, n, true) != used
  {
    assert AllAre(used, k, n, false) && !used[k] && Mark(used, k, n, true)[k];
  }

  lemma PageMarked(h: Heap, d: nat)
    requires d < |h.lists| && NewArena(h, d).Some?
    ensures NewArena(h, d).value.used != h.used
  {
    var k := PallocGet(h.used, 1).value;
    assert AllAre(h.used, k, 1, false) && !h.used[k] && NewArena(h, d).value.used[k];
  }

  lemma BigNone(h: Heap, size: nat)
    ensures MallocBig(h, size).Done?
    ensures MallocBig(h, size).block.None? <==> PallocGet(h.used, PagesFor(size)).None?
  {
  }

  lemma ArenaNone(h: Heap, d: nat)
    requires d < |h.lists|
    ensures NewArena(h, d).None? <==> PallocGet(h.used, 1).None?
  {
  }

  /** free of any block in use meets its assertions and frees that block only. */
  lemma FreeOk(h: Heap, b: nat)
    requires Valid(h) && b in h.live
    ensures |h.lists| == CLASSES
    ensures var r := Free(h, b); r.Done? && Valid(r.heap) && r.heap.live == h.live - {b}
  {
    HeaderOf(h, b);
    hide *;
    match h.headers[Page(b)]
    case Small(d, c) => FreeSmallOk(h, b, d, c);
    case Big(n) => FreeBigOk(h, b, n);
  }

  lemma HeaderOf(h: Heap, b: nat)
    requires Valid(h) && b in h.live
    ensures Page(b) in h.headers && LiveBlock(h.headers, h.lists, b, h.live[b])
  {
  }

  // ---------------------------------------------------------------- blocks in use

  /** The bytes of a block. */
  predicate InBlock(h: Heap, a: nat, x: nat) {
    a <= x < a + Capacity(h.headers, a)
  }

  /** Where a block lies: behind its arena's header, in pages of its arena. */
  lemma Where(h: Heap, a: nat)
    requires Valid(h) && a in h.live
    ensures var p := Page(a);
            p in h.headers && p * PAGE + HEADER <= a && a + Capacity(h.headers, a) <= (p + Span(h.headers[p])) * PAGE
    ensures Capacity(h.headers, a) > 0
  {
    HeaderOf(h, a);
    var p := Page(a);
    SpanPositive(h, p);
    match h.headers[p]
    case Small(d, c) =>
      SmallClass(h, p);
      var i := BlockIndex(h.headers, d, a);
      BlockInside(p, d, i);
    case Big(n) =>
  }

  lemma SpanPositive(h: Heap, p: nat)
    requires Valid(h) && p in h.headers
    ensures Span(h.headers[p]) >= 1 && h.base <= p && p - h.base + Span(h.headers[p]) <= |h.used|
  {
    hide ListsOk, LiveBlock, ArenaOk;
    assert AllAre(h.used, p - h.base, Span(h.headers[p]), true);
  }

  lemma SmallClass(h: Heap, p: nat)
    requires Valid(h) && p in h.headers && h.headers[p].Small?
    ensures h.headers[p].desc < CLASSES
  {
    assert ArenaOk(h.headers, h.lists, h.live, p, None);
  }

  lemma ArenasApart(h: Heap, p: nat, q: nat)
    requires Valid(h) && p in h.headers && q in h.headers && p < q
    ensures p + Span(h.headers[p]) <= q
  {
  }

  lemma PagesScale(x: nat, y: nat)
    requires x <= y
    ensures x * PAGE <= y * PAGE
  {
  }

  /** No two blocks in use share a byte. */
  lemma LiveApart(h: Heap, a: nat, b: nat)
    requires Valid(h) && a in h.live && b in h.live && a < b
    ensures a + Capacity(h.headers, a) <= b
  {
    Where(h, a);
    Where(h, b);
    var p: nat, q: nat := Page(a), Page(b);
    if p == q {
      SamePageApart(h, a, b);
    } else {
      assert p <= q by { PageMono(a, b); }
      ArenasApart(h, p, q);
      PagesScale(p + Span(h.headers[p]), q);
    }
  }

  lemma PageMono(a: nat, b: nat)
    requires a <= b
    ensures Page(a) <= Page(b)
  {
  }

  lemma SamePageApart(h: Heap, a: nat, b: nat)
    requires Valid(h) && a in h.live && b in h.live && a < b && Page(a) == Page(b)
    ensures a + Capacity(h.headers, a) <= b
  {
    HeaderOf(h, a);
    HeaderOf(h, b);
    var p := Page(a);
    if h.headers[p].Small? {
      var d := h.headers[p].desc;
      SmallClass(h, p);
      var i := BlockIndex(h.headers, d, a);
      var j := BlockIndex(h.headers, d, b);
      if i < j {
        BlocksApart(p, d, i, j);
      } else if j < i {
        BlocksApart(p, d, j, i);
      }
    }
  }

  /** A block in use lies inside the pool and covers no arena's header. */
  lemma OffHeaders(h: Heap, a: nat, p: nat)
    requires Valid(h) && a in h.live && p in h.headers
    ensures h.base * PAGE <= a && a + Capacity(h.headers, a) <= (h.base + |h.used|) * PAGE
    ensures a + Capacity(h.headers, a) <= p * PAGE || p * PAGE + HEADER <= a
  {
    Where(h, a);
    var q: nat := Page(a);
    SpanPositive(h, q);
    PagesScale(h.base, q);
    PagesScale(q + Span(h.headers[q]), h.base + |h.used|);
    if q < p {
      ArenasApart(h, q, p);
      PagesScale(q + Span(h.headers[q]), p);
    } else if p < q {
      PagesScale(p + 1, q);
    }
  }

  /** A block is smaller than asked for exactly when adding the arena header to the request
      passes 2^32. */
  lemma TooSmallExactly(h: Heap, a: nat)
    requires Valid(h) && a in h.live
    ensures Capacity(h.headers, a) < h.live[a] <==> h.live[a] + HEADER > WORD
  {
    HeaderOf(h, a);
  }

  /** A request that passes 2^32 with the header gets one page, or nothing. */
  lemma WrappedOnePage(h: Heap, size: nat)
    requires |h.lists| == CLASSES && size < WORD < size + HEADER
    ensures var r := Malloc(h, size);
            r.Done? && (r.block.Some? ==> Capacity(r.heap.headers, r.block.value) == PAGE - HEADER)
  {
    var d := FindClass(size, 0);
    if d < CLASSES {
      ClassBound(d);
    }
    assert PagesFor(size) == 1;
    if PallocGet(h.used, 1).Some? {
      MallocBigIs(h, size);
      PageOf(h.base + PallocGet(h.used, 1).value, HEADER);
    }
    hide PallocGet, FindClass, PagesFor, ClassSize, Page, Mark;
  }

  /** Such requests are served: one page for 2^32 - 1 bytes. */
  lemma TooSmallExample()
    ensures var h := Heap(1, [false], map[], [[], [], [], [], [], [], []], map[]);
            Valid(h) && |h.lists| == CLASSES && Malloc(h, WORD - 1).Done? && Malloc(h, WORD - 1).block == Some(PAGE + HEADER)
            && Capacity(Malloc(h, WORD - 1).heap.headers, PAGE + HEADER) == PAGE - HEADER
  {
    var h := Heap(1, [false], map[], [[], [], [], [], [], [], []], map[]);
    var d := FindClass(WORD - 1, 0);
    if d < CLASSES {
      ClassBound(d);
    }
    assert PagesFor(WORD - 1) == 1;
    assert AllAre(h.used, 0, 1, false);
    assert PallocGet(h.used, 1) == Some(0);
  }

  // ---------------------------------------------------------------- free undoes malloc

  lemma BlockGoesBack(h: Heap, d: nat, size: nat)
    requires Valid(h) && d < CLASSES && |h.lists| == CLASSES && h.lists[d] != [] && size <= ClassSize(d)
    ensures var r := Take(h, d, size);
            r.Done? && r.block.Some? && |r.heap.lists| == CLASSES && Free(r.heap, r.block.value) == Done(h, None)
  {
    hide *;
    ValidSizes(h);
    var k, c := HeadIsBlock(h, None, d);
    var b := h.lists[d][0];
    var p := Page(b);
    TakeOk(h, None, d, size);
    TakesHead(h, d, size, c);
    NotWhollyFree(h, p, d, c);
    var h1 := Take(h, d, size).heap;
    BlockAsserted(h1.headers, d, b, k);
    FreeSomeIs(h1, b, d, c - 1);
    GivenIs(h1, b, d, c - 1);
    assert [b] + h.lists[d][1..] == h.lists[d];
    assert h.live[b := size] - {b} == h.live;
    assert h.headers[p := Small(d, c - 1)][p := Small(d, c)] == h.headers;
    assert h.lists[d := h.lists[d][1..]][d := h.lists[d]] == h.lists;
  }

  lemma NotWhollyFree(h: Heap, p: nat, d: nat, c: nat)
    requires Valid(h) && p in h.headers && h.headers[p] == Small(d, c)
    ensures c < Per(d)
  {
    assert ArenaOk(h.headers, h.lists, h.live, p, None);
  }

  lemma HasElement(s: seq<nat>)
    requires s != []
    ensures exists a :: a in s
  {
    assert s[0] in s;
  }

  /** Removing all blocks of an arena from a list of just these leaves nothing. */
  lemma NothingLeft(p: nat, d: nat)
    requires d < CLASSES
    ensures WithoutBlocks(Blocks(p, d, Per(d)), p, d, Per(d)) == []
  {
    NoRepeatBlocks(p, d, Per(d));
    WithoutBlocksIs(Blocks(p, d, Per(d)), p, d, Per(d));
    var rest := WithoutBlocks(Blocks(p, d, Per(d)), p, d, Per(d));
    if rest != [] {
      HasElement(rest);
    }
  }

  lemma NoRepeatBlocks(p: nat, d: nat, n: nat)
    requires d < CLASSES && n <= Per(d)
    ensures Distinct(Blocks(p, d, n))
  {
    forall i, j | 0 <= i < j < n ensures Blocks(p, d, n)[i] != Blocks(p, d, n)[j] {
      BlocksApart(p, d, i, j);
    }
  }

  lemma PageTaken(h: Heap, d: nat, p: nat, used': seq<bool>) returns (k: nat)
    requires d < |h.lists| && h.lists[d] == [] && NewArena(h, d).Some? && p !in h.headers
    requires NewArena(h, d).value
          == h.(used := used', headers := h.headers[p := Small(d, Per(d))], lists := h.lists[d := Blocks(p, d, Per(d))])
    ensures p == h.base + k && AllAre(h.used, k, 1, false) && used' == Mark(h.used, k, 1, true)
  {
    k := PallocGet(h.used, 1).value;
    var h1 := NewArena(h, d).value;
    assert h1.headers == h.headers[h.base + k := Small(d, Per(d))];
    assert p in h1.headers && h.base + k in h1.headers;
  }

  lemma ArenaGoesBack(h: Heap, d: nat, size: nat)
    requires Valid(h) && d < CLASSES && |h.lists| == CLASSES && h.lists[d] == [] && size <= ClassSize(d)
    requires NewArena(h, d).Some?
    ensures NewArena(h, d).value.lists[d] != []
    ensures var r := Take(NewArena(h, d).value, d, size);
            r.Done? && r.block.Some? && |r.heap.lists| == CLASSES && Free(r.heap, r.block.value) == Done(h, None)
  {
    hide *;
    ValidSizes(h);
    var h1 := NewArena(h, d).value;
    NewArenaOk(h, d);
    var p, used' := NewArenaIs(h, d);
    var k0 := PageTaken(h, d, p, used');
    FirstBlock(p, d);
    var b := Blocks(p, d, Per(d))[0];
    var k, c := HeadIsBlock(h1, Some(p), d);
    TakeOk(h1, Some(p), d, size);
    BlockAsserted(h1.headers, d, b, k);
    TakesHead(h1, d, size, c);
    var h2 := Take(h1, d, size).heap;
    assert h2.headers[p] == Small(d, c - 1);
    BlockAsserted(h2.headers, d, b, k);
    assert [b] + Blocks(p, d, Per(d))[1..] == Blocks(p, d, Per(d));
    MarkBack(h.used, k0, 1);
    FreeLastIs(h2, b, d, c - 1);
    GivenIs(h2, b, d, c - 1);
    NothingLeft(p, d);
    assert h.live[b := size] - {b} == h.live;
    assert h2.headers[p := Small(d, c)] - {p} == h.headers;
    assert h2.lists[d := Blocks(p, d, Per(d))][d := []] == h.lists;
  }

  lemma MallocIs(h: Heap, size: nat)
    requires |h.lists| == CLASSES && size > 0
    ensures var d := FindClass(size, 0);
            if d == CLASSES then Malloc(h, size) == MallocBig(h, size)
            else if h.lists[d] != [] then Malloc(h, size) == Take(h, d, size)
            else if NewArena(h, d).None? then Malloc(h, size) == Done(h, None)
            else NewArena(h, d).value.lists[d] != [] ==> Malloc(h, size) == Take(NewArena(h, d).value, d, size)
  {
  }

  lemma BigGoesBack(h: Heap, size: nat)
    requires Valid(h) && 0 < size < WORD && FindClass(size, 0) == CLASSES && |h.lists| == CLASSES
    requires PallocGet(h.used, PagesFor(size)).Some?
    ensures var r := MallocBig(h, size);
            r.Done? && r.block.Some? && |r.heap.lists| == CLASSES && Free(r.heap, r.block.value) == Done(h, None)
  {
    hide *;
    var k, n := PallocGet(h.used, PagesFor(size)).value, PagesFor(size);
    var p := h.base + k;
    var b := p * PAGE + HEADER;
    ValidSizes(h);
    BigFresh(h, k, size);
    BigTaken(h, k, n, size);
    MallocBigIs(h, size);
    var h1 := MallocBig(h, size).heap;
    FreeBigIs(h1, b, n);
    assert h.live[b := size] - {b} == h.live;
    assert h.headers[p := Big(n)] - {p} == h.headers;
  }

  lemma BigTaken(h: Heap, k: nat, n: nat, size: nat)
    requires PallocGet(h.used, n) == Some(k) && h.base > 0
    ensures var p := h.base + k;
            && k + n <= |h.used| && AllAre(Mark(h.used, k, n, true), k, n, true)
            && Mark(Mark(h.used, k, n, true), k, n, false) == h.used
            && Page(p * PAGE + HEADER) == p
            && BlockToArena(h.headers[p := Big(n)], p * PAGE + HEADER) == Some(Big(n))
  {
    MarkBack(h.used, k, n);
    PageOf(h.base + k, HEADER);
  }

  /** Freeing what malloc has just handed out brings back the whole heap as it was:
      bitmap, headers, counters, free lists in their order, and blocks in use. */
  lemma FreeUndoesMalloc(h: Heap, size: nat)
    requires Valid(h) && size < WORD
    ensures |h.lists| == CLASSES
    ensures var r := Malloc(h, size);
            r.Done? && (r.block.Some? ==> |r.heap.lists| == CLASSES && Free(r.heap, r.block.value) == Done(h, None))
  {
    MallocOk(h, size);
    if size > 0 {
      MallocIs(h, size);
      var d := FindClass(size, 0);
      hide Valid, Ok, Take, MallocBig, NewArena, Malloc, Free, PallocGet, FindClass;
      if d == CLASSES {
        BigNone(h, size);
        if PallocGet(h.used, PagesFor(size)).Some? {
          BigGoesBack(h, size);
        }
      } else if h.lists[d] != [] {
        BlockGoesBack(h, d, size);
      } else if NewArena(h, d).Some? {
        ArenaGoesBack(h, d, size);
      }
    }
  }

  // ---------------------------------------------------------------- realloc and runs

  lemma ReallocOk(h: Heap, ptr: Option<nat>, size: nat)
    requires Valid(h) && size < WORD && (ptr.Some? ==> ptr.value in h.live)
    ensures |h.lists| == CLASSES
    ensures var r := Realloc(h, ptr, size);
            && r.Done? && Valid(r.heap)
            && (size == 0 ==> r.block.None? && r.heap.live == if ptr.Some? then h.live - {ptr.value} else h.live)
            && (size > 0 ==> (r.block.None? <==> NoRoom(h, size)) && (r.block.None? ==> r.heap == h))
            && (r.block.Some? ==>
                  && r.block.value !in h.live
                  && r.heap.live == (if ptr.Some? then h.live[r.block.value := size] - {ptr.value}
                                     else h.live[r.block.value := size]))
  {
    hide Valid, Malloc, Free, NoRoom;
    MallocOk(h, size);
    if size == 0 {
      if ptr.Some? {
        FreeOk(h, ptr.value);
        FreeIsNull(h, ptr.value);
      }
    } else {
      var r := Malloc(h, size);
      ValidSizes(r.heap);
      if ptr.Some? && r.block.Some? {
        FreeOk(r.heap, ptr.value);
      }
    }
  }

  lemma FreeIsNull(h: Heap, b: nat)
    requires |h.lists| == CLASSES && Free(h, b).Done?
    ensures Free(h, b).block.None?
  {
  }

  /** `Others` is what the rest of the kernel does to the page bitmap meanwhile. */
  datatype Call = MallocCall(size: nat) | FreeCall(b: nat) | ReallocCall(ptr: Option<nat>, size: nat) | Others(used: seq<bool>)

  /** Callers pass 32-bit sizes and free only blocks in use; others leave the pages of
      arenas marked. */
  ghost predicate Possible(h: Heap, c: Call) {
    match c
    case MallocCall(size) => size < WORD
    case FreeCall(b) => b in h.live
    case ReallocCall(ptr, size) => size < WORD && (ptr.Some? ==> ptr.value in h.live)
    case Others(used) =>
      forall p :: p in h.headers ==> h.base <= p && AllAre(used, p - h.base, Span(h.headers[p]), true)
  }

  function Step(h: Heap, c: Call): Result {
    if |h.lists| != CLASSES then Panic
    else
      match c
      case MallocCall(size) => Malloc(h, size)
      case FreeCall(b) => Free(h, b)
      case ReallocCall(ptr, size) => Realloc(h, ptr, size)
      case Others(used) => Done(h.(used := used), None)
  }

  lemma StepOk(h: Heap, c: Call)
    requires Valid(h) && Possible(h, c)
    ensures Step(h, c).Done? && Valid(Step(h, c).heap)
  {
    ValidSizes(h);
    match c
    case MallocCall(size) => hide Valid, Malloc; MallocOk(h, size);
    case FreeCall(b) => hide Valid, Free; FreeOk(h, b);
    case ReallocCall(ptr, size) => hide Valid, Realloc; ReallocOk(h, ptr, size);
    case Others(used) => hide ListsOk, LiveBlock, ArenaOk; OthersOk(h, used);
  }

  lemma OthersOk(h: Heap, used: seq<bool>)
    requires Valid(h) && Possible(h, Others(used))
    ensures Valid(h.(used := used))
  {
    hide ListsOk, LiveBlock, ArenaOk;
  }

  /** The heap after malloc_init: no arenas, empty free lists. */
  function Empty(base: nat, used: seq<bool>): Heap {
    Heap(base, used, map[], [[], [], [], [], [], [], []], map[])
  }

  ghost predicate IsRun(base: nat, used: seq<bool>, calls: seq<Call>, heaps: seq<Heap>) {
    && base > 0 && |heaps| == |calls| + 1 && heaps[0] == Empty(base, used)
    && forall i :: 0 <= i < |calls| ==>
         Possible(heaps[i], calls[i]) && Step(heaps[i], calls[i]).Done? && heaps[i + 1] == Step(heaps[i], calls[i]).heap
  }

  /** In every reachable heap the invariant holds and no possible call fails an assertion. */
  lemma {:induction false} ReachableIsValid(base: nat, used: seq<bool>, calls: seq<Call>, heaps: seq<Heap>, i: nat, c: Call)
    requires IsRun(base, used, calls, heaps) && i < |heaps|
    ensures Valid(heaps[i])
    ensures Possible(heaps[i], c) ==> Step(heaps[i], c).Done?
  {
    hide Valid, Step, Possible;
    if i == 0 {
      EmptyValid(base, used);
    } else {
      ReachableIsValid(base, used, calls, heaps, i - 1, c);
      StepOk(heaps[i - 1], calls[i - 1]);
    }
    if Possible(heaps[i], c) {
      StepOk(heaps[i], c);
    }
  }

  lemma EmptyValid(base: nat, used: seq<bool>)
    requires base > 0
    ensures Valid(Empty(base, used))
  {
  }
}
