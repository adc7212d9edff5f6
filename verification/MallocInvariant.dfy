/** Every call of the block allocator keeps its invariant and meets its assertions. */
module MallocInvariant {
  import opened Sequences
  import opened Bitmap
  import opened MallocSpec

  // ---------------------------------------------------------------- counting

  lemma {:induction false} CountAll(list: seq<nat>, p: nat, d: nat, n: nat)
    ensures Count(list, p, d, n) <= n
    ensures Count(list, p, d, n) == n <==> forall i :: 0 <= i < n ==> BlockAddr(p, d, i) in list
  {
    hide BlockAddr;
    if n > 0 {
      CountAll(list, p, d, n - 1);
    }
  }

  ghost predicate Agree(s: seq<nat>, t: seq<nat>, p: nat, d: nat, n: nat, but: int) {
    forall i :: 0 <= i < n && i != but ==> (BlockAddr(p, d, i) in s <==> BlockAddr(p, d, i) in t)
  }

  lemma {:induction false} CountAgree(s: seq<nat>, t: seq<nat>, p: nat, d: nat, n: nat)
    requires Agree(s, t, p, d, n, -1)
    ensures Count(s, p, d, n) == Count(t, p, d, n)
  {
    hide BlockAddr;
    if n > 0 {
      CountAgree(s, t, p, d, n - 1);
    }
  }

  lemma {:induction false} CountOneMore(s: seq<nat>, t: seq<nat>, p: nat, d: nat, n: nat, k: nat)
    requires k < n && Agree(s, t, p, d, n, k)
    requires BlockAddr(p, d, k) !in s && BlockAddr(p, d, k) in t
    ensures Count(t, p, d, n) == Count(s, p, d, n) + 1
  {
    hide BlockAddr;
    if k == n - 1 {
      CountAgree(s, t, p, d, n - 1);
    } else {
      CountOneMore(s, t, p, d, n - 1, k);
    }
  }

  // ---------------------------------------------------------------- headers

  /** The same arenas; only the counters of free blocks may differ. */
  ghost predicate SameArenas(headers: map<nat, Arena>, headers': map<nat, Arena>) {
    && headers'.Keys == headers.Keys
    && forall p :: p in headers ==>
         match headers[p]
         case Small(d, _) => headers'[p].Small? && headers'[p].desc == d
         case Big(n) => headers'[p] == Big(n)
  }

  lemma SamePages(base: nat, used: seq<bool>, headers: map<nat, Arena>, headers': map<nat, Arena>)
    requires PagesOk(base, used, headers) && SameArenas(headers, headers')
    ensures PagesOk(base, used, headers')
  {
  }

  /** The index of a block in its arena. */
  lemma BlockIndex(headers: map<nat, Arena>, d: nat, a: nat) returns (i: nat)
    requires d < CLASSES && IsBlock(headers, d, a)
    ensures i < Per(d) && a == BlockAddr(Page(a), d, i)
    ensures forall q: nat, j: nat :: j < Per(d) && BlockAddr(q, d, j) == a ==> q == Page(a) && j == i
  {
    i :| 0 <= i < Per(d) && a == BlockAddr(Page(a), d, i);
    forall q: nat, j: nat | j < Per(d) && BlockAddr(q, d, j) == a ensures q == Page(a) && j == i {
      SameBlock(Page(a), d, i, q, j);
    }
  }

  // ---------------------------------------------------------------- taking a block

  lemma TakeLists(headers: map<nat, Arena>, headers': map<nat, Arena>, lists: seq<seq<nat>>, d: nat)
    requires ListsOk(headers, lists) && SameArenas(headers, headers') && d < CLASSES && lists[d] != []
    ensures ListsOk(headers', lists[d := lists[d][1..]])
    ensures lists[d][0] !in lists[d][1..]
  {
    var lists' := lists[d := lists[d][1..]];
    forall e | 0 <= e < CLASSES ensures Distinct(lists'[e]) && forall a :: a in lists'[e] ==> IsBlock(headers', e, a) {
      forall a | a in lists'[e] ensures IsBlock(headers', e, a) {
        assert a in lists[e];
        assert IsBlock(headers, e, a);
      }
    }
  }

  lemma TakeLive(headers: map<nat, Arena>, headers': map<nat, Arena>, lists: seq<seq<nat>>, d: nat, a: nat, size: nat)
    requires SameArenas(headers, headers') && d < |lists| && lists[d] != []
    requires LiveBlock(headers, lists, a, size)
    ensures LiveBlock(headers', lists[d := lists[d][1..]], a, size)
  {
  }

  /** Arenas other than the one whose block moves keep their counts. */
  lemma OtherArena(headers: map<nat, Arena>, lists: seq<seq<nat>>, lists': seq<seq<nat>>, live: map<nat, nat>,
                   live': map<nat, nat>, q: nat, full: Option<nat>, b: nat, d: nat)
    requires q in headers && ArenaOk(headers, lists, live, q, full) && full != Some(q)
    requires |lists'| == |lists| && d < |lists| && q != Page(b) && d < CLASSES
    requires forall e :: 0 <= e < |lists| && e != d ==> lists'[e] == lists[e]
    requires forall a :: a != b ==> (a in lists'[d] <==> a in lists[d]) && (a in live' <==> a in live)
    ensures ArenaOk(headers, lists', live', q, None)
  {
    match headers[q]
    case Small(e, c) =>
      forall i | 0 <= i < Per(e) ensures BlockAddr(q, e, i) != b {
        BlockInside(q, e, i);
      }
      if e == d {
        assert Agree(lists[e], lists'[e], q, e, Per(e), -1);
        CountAgree(lists[e], lists'[e], q, e, Per(e));
      }
    case Big(_) =>
      assert Page(q * PAGE + HEADER) == q;
  }

  /** What the head of a free list is. */
  lemma HeadIsBlock(h: Heap, full: Option<nat>, d: nat) returns (k: nat, c: nat)
    requires Ok(h, full) && d < CLASSES && h.lists[d] != []
    ensures var b := h.lists[d][0];
            && Page(b) in h.headers && h.headers[Page(b)] == Small(d, c) && c > 0
            && k < Per(d) && b == BlockAddr(Page(b), d, k) && b !in h.live
            && c == Count(h.lists[d], Page(b), d, Per(d))
            && h.base <= Page(b)
  {
    var b := h.lists[d][0];
    assert IsBlock(h.headers, d, b);
    k := BlockIndex(h.headers, d, b);
    c := h.headers[Page(b)].freeCnt;
    assert ArenaOk(h.headers, h.lists, h.live, Page(b), full);
    assert b in h.live ==> LiveBlock(h.headers, h.lists, b, h.live[b]);
    hide Ok, BlockAddr;
    NotEmpty(h.lists[d], Page(b), d, Per(d), k);
  }

  lemma {:induction false} NotEmpty(list: seq<nat>, p: nat, d: nat, n: nat, k: nat)
    requires k < n && BlockAddr(p, d, k) in list
    ensures Count(list, p, d, n) > 0
  {
    if k < n - 1 {
      NotEmpty(list, p, d, n - 1, k);
    }
  }

  /** The arena of a block that leaves the free list `s` for `t`. */
  lemma TakeArena(s: seq<nat>, p: nat, d: nat, k: nat)
    requires d < CLASSES && k < Per(d) && s != [] && s[0] == BlockAddr(p, d, k) && s[0] !in s[1..]
    ensures Count(s, p, d, Per(d)) == Count(s[1..], p, d, Per(d)) + 1
    ensures forall i :: 0 <= i < Per(d) && i != k ==> (BlockAddr(p, d, i) in s <==> BlockAddr(p, d, i) in s[1..])
  {
    forall i | 0 <= i < Per(d) && i != k ensures BlockAddr(p, d, i) in s <==> BlockAddr(p, d, i) in s[1..] {
      if BlockAddr(p, d, i) == s[0] {
        SameBlock(p, d, i, p, k);
      }
    }
    assert Agree(s[1..], s, p, d, Per(d), k);
    CountOneMore(s[1..], s, p, d, Per(d), k);
  }

  lemma HeaderChange(headers: map<nat, Arena>, lists: seq<seq<nat>>, live: map<nat, nat>, p: nat, a: Arena, q: nat, full: Option<nat>)
    requires q in headers && q != p && ArenaOk(headers, lists, live, q, full)
    ensures ArenaOk(headers[p := a], lists, live, q, full)
  {
  }

  lemma TakeArenas(h: Heap, full: Option<nat>, d: nat, size: nat, k: nat, c: nat)
    requires Ok(h, full) && d < CLASSES && h.lists[d] != [] && h.lists[d][0] !in h.lists[d][1..]
    requires full.Some? ==> full.value == Page(h.lists[d][0])
    requires var b := h.lists[d][0];
             && Page(b) in h.headers && h.headers[Page(b)] == Small(d, c) && c > 0
             && k < Per(d) && b == BlockAddr(Page(b), d, k)
    ensures var b := h.lists[d][0];
            var headers', lists' := h.headers[Page(b) := Small(d, c - 1)], h.lists[d := h.lists[d][1..]];
            forall q :: q in headers' ==> ArenaOk(headers', lists', h.live[b := size], q, None)
  {
    var b := h.lists[d][0];
    var p := Page(b);
    var headers', lists' := h.headers[p := Small(d, c - 1)], h.lists[d := h.lists[d][1..]];
    assert |h.lists| == CLASSES;
    assert forall q :: q in h.headers ==> ArenaOk(h.headers, h.lists, h.live, q, full);
    hide *;
    forall q | q in headers' ensures ArenaOk(headers', lists', h.live[b := size], q, None) {
      if q != p {
        TakeOther(h.headers, h.lists, h.live, p, q, full, d, b, size, c);
      } else {
        TakeOwn(h.headers, h.lists, h.live, p, full, d, size, k, c);
      }
    }
  }

  lemma TakeOther(headers: map<nat, Arena>, lists: seq<seq<nat>>, live: map<nat, nat>, p: nat, q: nat, full: Option<nat>,
                  d: nat, b: nat, size: nat, c: nat)
    requires q in headers && q != p && ArenaOk(headers, lists, live, q, full) && (full.Some? ==> full.value == p)
    requires d < CLASSES && d < |lists| && lists[d] != [] && lists[d][0] == b && Page(b) == p && c > 0
    ensures ArenaOk(headers[p := Small(d, c - 1)], lists[d := lists[d][1..]], live[b := size], q, None)
  {
    hide *;
    var lists' := lists[d := lists[d][1..]];
    OtherArena(headers, lists, lists', live, live[b := size], q, full, b, d);
    HeaderChange(headers, lists', live[b := size], p, Small(d, c - 1), q, None);
  }

  lemma TakeOwn(headers: map<nat, Arena>, lists: seq<seq<nat>>, live: map<nat, nat>, p: nat, full: Option<nat>,
                d: nat, size: nat, k: nat, c: nat)
    requires p in headers && ArenaOk(headers, lists, live, p, full) && headers[p] == Small(d, c) && c > 0
    requires d < CLASSES && d < |lists| && lists[d] != [] && lists[d][0] !in lists[d][1..]
    requires k < Per(d) && lists[d][0] == BlockAddr(p, d, k)
    ensures ArenaOk(headers[p := Small(d, c - 1)], lists[d := lists[d][1..]], live[lists[d][0] := size], p, None)
  {
    hide BlockAddr;
    TakeArena(lists[d], p, d, k);
    CountAll(lists[d], p, d, Per(d));
  }

  lemma BlockAsserted(headers: map<nat, Arena>, d: nat, b: nat, k: nat)
    requires Page(b) in headers && Page(b) > 0 && headers[Page(b)].Small? && headers[Page(b)].desc == d
    requires d < CLASSES && k < Per(d) && b == BlockAddr(Page(b), d, k)
    ensures BlockToArena(headers, b) == Some(headers[Page(b)])
  {
    Aligned(Page(b), d, k);
  }

  lemma TakeLives(h: Heap, full: Option<nat>, headers': map<nat, Arena>, d: nat, size: nat)
    requires Ok(h, full) && SameArenas(h.headers, headers') && d < CLASSES && h.lists[d] != []
    requires IsBlock(headers', d, h.lists[d][0]) && h.lists[d][0] !in h.lists[d][1..] && size <= ClassSize(d)
    ensures var live' := h.live[h.lists[d][0] := size];
            forall a :: a in live' ==> LiveBlock(headers', h.lists[d := h.lists[d][1..]], a, live'[a])
  {
    var b, live' := h.lists[d][0], h.live[h.lists[d][0] := size];
    assert |h.lists| == CLASSES;
    assert forall a :: a in h.live ==> LiveBlock(h.headers, h.lists, a, h.live[a]);
    hide *;
    forall a | a in live' ensures LiveBlock(headers', h.lists[d := h.lists[d][1..]], a, live'[a]) {
      if a != b {
        TakeLive(h.headers, headers', h.lists, d, a, h.live[a]);
      } else {
        HeadLives(headers', h.lists[d := h.lists[d][1..]], d, b, size);
      }
    }
  }

  lemma HeadLives(headers: map<nat, Arena>, lists: seq<seq<nat>>, d: nat, b: nat, size: nat)
    requires d < CLASSES && d < |lists| && IsBlock(headers, d, b) && b !in lists[d] && size <= ClassSize(d)
    ensures LiveBlock(headers, lists, b, size)
  {
    ClassBound(d);
  }

  lemma TakesHead(h: Heap, d: nat, size: nat, c: nat)
    requires d < |h.lists| && h.lists[d] != []
    requires Page(h.lists[d][0]) in h.headers && h.headers[Page(h.lists[d][0])] == Small(d, c) && c > 0
    requires BlockToArena(h.headers, h.lists[d][0]).Some? || Take(h, d, size).Done?
    ensures var b := h.lists[d][0];
            Take(h, d, size)
              == Done(h.(headers := h.headers[Page(b) := Small(d, c - 1)], lists := h.lists[d := h.lists[d][1..]],
                         live := h.live[b := size]), Some(b))
  {
  }

  lemma CounterOnly(headers: map<nat, Arena>, p: nat, d: nat, c: nat, c': nat)
    requires p in headers && headers[p] == Small(d, c)
    ensures SameArenas(headers, headers[p := Small(d, c')])
  {
  }

  lemma BlockStays(headers: map<nat, Arena>, headers': map<nat, Arena>, d: nat, b: nat)
    requires SameArenas(headers, headers') && IsBlock(headers, d, b)
    ensures IsBlock(headers', d, b)
  {
  }

  lemma ListCount(headers: map<nat, Arena>, lists: seq<seq<nat>>)
    requires ListsOk(headers, lists)
    ensures |lists| == CLASSES
  {
  }

  lemma HeadListed(h: Heap, full: Option<nat>, d: nat)
    requires Ok(h, full) && d < CLASSES && h.lists[d] != []
    ensures IsBlock(h.headers, d, h.lists[d][0])
  {
    assert h.lists[d][0] in h.lists[d];
  }

  /** Handing out the first free block. */
  lemma TakeOk(h: Heap, full: Option<nat>, d: nat, size: nat)
    requires Ok(h, full) && h.base > 0 && d < CLASSES && h.lists[d] != []
    requires full.Some? ==> full.value == Page(h.lists[d][0])
    requires size <= ClassSize(d)
    ensures var r := Take(h, d, size);
            && r.Done? && Valid(r.heap) && r.block == Some(h.lists[d][0])
            && h.lists[d][0] !in h.live && r.heap.live == h.live[h.lists[d][0] := size]
            && r.heap.used == h.used
  {
    hide *;
    OkParts(h, full, 0, 0);
    ListCount(h.headers, h.lists);
    var k, c := HeadIsBlock(h, full, d);
    var b := h.lists[d][0];
    OkParts(h, full, b, Page(b));
    HeadListed(h, full, d);
    BlockAsserted(h.headers, d, b, k);
    TakesHead(h, d, size, c);
    var headers', lists' := h.headers[Page(b) := Small(d, c - 1)], h.lists[d := h.lists[d][1..]];
    CounterOnly(h.headers, Page(b), d, c, c - 1);
    BlockStays(h.headers, headers', d, b);
    SamePages(h.base, h.used, h.headers, headers');
    TakeLists(h.headers, headers', h.lists, d);
    TakeArenas(h, full, d, size, k, c);
    TakeLives(h, full, headers', d, size);
    IsOk(Take(h, d, size).heap, None);
    IsValid(Take(h, d, size).heap);
  }

  // ---------------------------------------------------------------- new pages

  lemma UsedInSpan(base: nat, used: seq<bool>, headers: map<nat, Arena>, q: nat, x: nat)
    requires PagesOk(base, used, headers) && q in headers
    ensures q <= x < q + Span(headers[q]) ==> 0 <= x - base < |used| && used[x - base]
  {
  }

  /** Free pages belong to no arena. */
  lemma FreshPages(base: nat, used: seq<bool>, headers: map<nat, Arena>, k: nat, n: nat, a: Arena)
    requires PagesOk(base, used, headers) && n > 0 && AllAre(used, k, n, false) && Span(a) == n
    ensures PagesOk(base, Mark(used, k, n, true), headers[base + k := a])
    ensures forall q :: q in headers ==> q != base + k
  {
    forall q | q in headers ensures q + Span(headers[q]) <= base + k || base + k + n <= q {
      UsedInSpan(base, used, headers, q, if q < base + k then base + k else q);
    }
  }

  lemma IsBlockKept(headers: map<nat, Arena>, p: nat, x: Arena, d: nat, a: nat)
    requires IsBlock(headers, d, a) && p !in headers
    ensures IsBlock(headers[p := x], d, a)
  {
  }

  lemma LiveKept(headers: map<nat, Arena>, lists: seq<seq<nat>>, lists': seq<seq<nat>>, p: nat, x: Arena, a: nat, size: nat)
    requires LiveBlock(headers, lists, a, size) && p !in headers && |lists'| == |lists|
    requires forall d :: 0 <= d < |lists| && a in lists'[d] ==> a in lists[d]
    ensures LiveBlock(headers[p := x], lists', a, size)
  {
  }

  /** A new arena's blocks are a free list of their own. */
  lemma NewBlocks(headers: map<nat, Arena>, p: nat, d: nat)
    requires d < CLASSES
    ensures Distinct(Blocks(p, d, Per(d)))
    ensures forall a :: a in Blocks(p, d, Per(d)) ==> Page(a) == p && IsBlock(headers[p := Small(d, Per(d))], d, a)
  {
    var bs := Blocks(p, d, Per(d));
    forall i, j | 0 <= i < j < |bs| ensures bs[i] != bs[j] {
      if bs[i] == bs[j] {
        SameBlock(p, d, i, p, j);
      }
    }
    forall i | 0 <= i < |bs| ensures Page(bs[i]) == p {
      BlockInside(p, d, i);
    }
  }

  lemma NewArenaLists(headers: map<nat, Arena>, lists: seq<seq<nat>>, p: nat, d: nat)
    requires ListsOk(headers, lists) && p !in headers && d < CLASSES && lists[d] == []
    ensures ListsOk(headers[p := Small(d, Per(d))], lists[d := Blocks(p, d, Per(d))])
  {
    NewBlocks(headers, p, d);
    hide Blocks, Distinct, Per;
    var lists' := lists[d := Blocks(p, d, Per(d))];
    forall e, a | 0 <= e < CLASSES && a in lists'[e] ensures IsBlock(headers[p := Small(d, Per(d))], e, a) {
      if e != d {
        IsBlockKept(headers, p, Small(d, Per(d)), e, a);
      }
    }
  }

  lemma NewArenaLive(headers: map<nat, Arena>, lists: seq<seq<nat>>, p: nat, d: nat, a: nat, size: nat)
    requires LiveBlock(headers, lists, a, size) && p !in headers && d < CLASSES && d < |lists|
    ensures LiveBlock(headers[p := Small(d, Per(d))], lists[d := Blocks(p, d, Per(d))], a, size)
  {
    NewBlocks(headers, p, d);
  }

  lemma NewArenaArenas(headers: map<nat, Arena>, lists: seq<seq<nat>>, live: map<nat, nat>, p: nat, d: nat, q: nat)
    requires p !in headers && d < CLASSES && d < |lists| && lists[d] == []
    requires q in headers ==> ArenaOk(headers, lists, live, q, None)
    requires q == p || q in headers
    ensures ArenaOk(headers[p := Small(d, Per(d))], lists[d := Blocks(p, d, Per(d))], live, q, Some(p))
  {
    var bs := Blocks(p, d, Per(d));
    NewBlocks(headers, p, d);
    if q == p {
      forall i | 0 <= i < Per(d) ensures BlockAddr(p, d, i) in bs {
        assert bs[i] == BlockAddr(p, d, i);
      }
      CountAll(bs, p, d, Per(d));
    } else if headers[q].Small? && headers[q].desc == d {
      forall i | 0 <= i < Per(d) ensures BlockAddr(q, d, i) !in bs {
        BlockInside(q, d, i);
      }
      CountAgree([], bs, q, d, Per(d));
    }
  }

  lemma NewArenaOk(h: Heap, d: nat)
    requires Valid(h) && d < CLASSES && |h.lists| == CLASSES && h.lists[d] == [] && NewArena(h, d).Some?
    ensures var h1 := NewArena(h, d).value;
            h1.lists[d] != [] && Ok(h1, Some(Page(h1.lists[d][0]))) && h1.live == h.live && h1.base == h.base
  {
    hide *;
    var p, used' := NewArenaIs(h, d);
    var h1 := NewArena(h, d).value;
    FirstBlock(p, d);
    forall a | a in h.live ensures LiveBlock(h1.headers, h1.lists, a, h.live[a]) {
      OkParts(h, None, a, 0);
      NewArenaLive(h.headers, h.lists, p, d, a, h.live[a]);
    }
    forall q | q in h1.headers ensures ArenaOk(h1.headers, h1.lists, h1.live, q, Some(p)) {
      OkParts(h, None, 0, q);
      NewArenaArenas(h.headers, h.lists, h.live, p, d, q);
    }
    IsOk(h1, Some(p));
  }

  lemma FirstBlock(p: nat, d: nat)
    requires d < CLASSES
    ensures Blocks(p, d, Per(d)) != [] && Page(Blocks(p, d, Per(d))[0]) == p
  {
    ClassBound(d);
    BlockInside(p, d, 0);
  }

  lemma NewArenaIs(h: Heap, d: nat) returns (p: nat, used': seq<bool>)
    requires Valid(h) && d < CLASSES && |h.lists| == CLASSES && h.lists[d] == [] && NewArena(h, d).Some?
    ensures Ok(h, None) && p !in h.headers
    ensures NewArena(h, d).value
         == h.(used := used', headers := h.headers[p := Small(d, Per(d))], lists := h.lists[d := Blocks(p, d, Per(d))])
    ensures PagesOk(h.base, used', h.headers[p := Small(d, Per(d))])
    ensures ListsOk(h.headers[p := Small(d, Per(d))], h.lists[d := Blocks(p, d, Per(d))])
  {
    var k := PallocGet(h.used, 1).value;
    p, used' := h.base + k, Mark(h.used, k, 1, true);
    FreshPages(h.base, h.used, h.headers, k, 1, Small(d, Per(d)));
    assert [] + Blocks(p, d, Per(d)) == Blocks(p, d, Per(d));
    NewArenaLists(h.headers, h.lists, p, d);
  }

  lemma OkParts(h: Heap, full: Option<nat>, a: nat, p: nat)
    requires Ok(h, full)
    ensures PagesOk(h.base, h.used, h.headers) && ListsOk(h.headers, h.lists)
    ensures a in h.live ==> LiveBlock(h.headers, h.lists, a, h.live[a])
    ensures p in h.headers ==> ArenaOk(h.headers, h.lists, h.live, p, full)
  {
  }

  lemma IsOk(h: Heap, full: Option<nat>)
    requires PagesOk(h.base, h.used, h.headers) && ListsOk(h.headers, h.lists)
    requires forall a :: a in h.live ==> LiveBlock(h.headers, h.lists, a, h.live[a])
    requires forall p :: p in h.headers ==> ArenaOk(h.headers, h.lists, h.live, p, full)
    ensures Ok(h, full)
  {
  }

  // ---------------------------------------------------------------- big blocks

  /** The page count is enough, and not one too many, exactly when adding the header does not
      pass 2^32; pages rounded to none are refused by the page allocator. */
  lemma PagesForExact(size: nat)
    requires 0 < size < WORD && PagesFor(size) > 0
    ensures size <= PagesFor(size) * PAGE - HEADER <==> size + HEADER <= WORD
    ensures size + HEADER <= WORD ==> (PagesFor(size) - 1) * PAGE < size + HEADER
  {
    var total := (size + HEADER) % WORD;
    if size + HEADER < WORD {
      assert total == size + HEADER;
      assert total + PAGE - 1 < WORD;
    } else {
      assert total == size + HEADER - WORD;
    }
  }

  lemma BigOk(h: Heap, size: nat)
    requires Valid(h) && 0 < size < WORD && FindClass(size, 0) == CLASSES
    ensures var r := MallocBig(h, size);
            && r.Done? && Valid(r.heap)
            && (r.block.None? ==> r.heap == h)
            && (r.block.Some? ==> r.block.value !in h.live && r.heap.live == h.live[r.block.value := size])
  {
    hide *;
    var get, n := PallocGet(h.used, PagesFor(size)), PagesFor(size);
    if get.Some? {
      BigFresh(h, get.value, size);
      BigParts(h, h.base + get.value, n, size);
      MallocBigIs(h, size);
      var r := MallocBig(h, size).heap;
      IsOk(r, None);
      IsValid(r);
    } else {
      MallocBigFails(h, size);
    }
  }

  lemma BigFresh(h: Heap, k: nat, size: nat)
    requires Valid(h) && 0 < size < WORD && PallocGet(h.used, PagesFor(size)) == Some(k)
    ensures var p, n := h.base + k, PagesFor(size);
            && Ok(h, None) && h.base > 0 && p !in h.headers && Page(p * PAGE + HEADER) == p
            && p * PAGE + HEADER !in h.live && k + n <= |h.used|
            && (size <= n * PAGE - HEADER <==> size + HEADER <= WORD)
            && PagesOk(h.base, Mark(h.used, k, n, true), h.headers[p := Big(n)])
  {
    var p, n := h.base + k, PagesFor(size);
    var b := p * PAGE + HEADER;
    FreshPages(h.base, h.used, h.headers, k, n, Big(n));
    PagesForExact(size);
    PageOf(p, HEADER);
    assert b in h.live ==> LiveBlock(h.headers, h.lists, b, h.live[b]);
  }

  lemma MallocBigFails(h: Heap, size: nat)
    requires PallocGet(h.used, PagesFor(size)).None?
    ensures MallocBig(h, size) == Done(h, None)
  {
  }

  lemma IsValid(h: Heap)
    requires Ok(h, None) && h.base > 0
    ensures Valid(h)
  {
  }

  lemma MallocBigIs(h: Heap, size: nat)
    requires PallocGet(h.used, PagesFor(size)).Some?
    ensures var k, n := PallocGet(h.used, PagesFor(size)).value, PagesFor(size);
            var b := (h.base + k) * PAGE + HEADER;
            MallocBig(h, size) == Done(h.(used := Mark(h.used, k, n, true), headers := h.headers[h.base + k := Big(n)],
                                          live := h.live[b := size]), Some(b))
  {
  }

  lemma BigParts(h: Heap, p: nat, n: nat, size: nat)
    requires Ok(h, None) && p !in h.headers && Page(p * PAGE + HEADER) == p
    requires size <= n * PAGE - HEADER <==> size + HEADER <= WORD
    ensures var headers', live' := h.headers[p := Big(n)], h.live[p * PAGE + HEADER := size];
            && ListsOk(headers', h.lists)
            && (forall a :: a in live' ==> LiveBlock(headers', h.lists, a, live'[a]))
            && (forall q :: q in headers' ==> ArenaOk(headers', h.lists, live', q, None))
  {
    hide *;
    var b := p * PAGE + HEADER;
    var headers', live' := h.headers[p := Big(n)], h.live[b := size];
    OkParts(h, None, 0, 0);
    ListsMore(h.headers, h.lists, p, Big(n));
    forall a | a in live' ensures LiveBlock(headers', h.lists, a, live'[a]) {
      if a != b {
        OkParts(h, None, a, 0);
        LiveKept(h.headers, h.lists, h.lists, p, Big(n), a, h.live[a]);
      } else {
        BigLive(headers', h.lists, p, n, size);
      }
    }
    forall q | q in headers' ensures ArenaOk(headers', h.lists, live', q, None) {
      OkParts(h, None, 0, q);
      ArenaMore(h.headers, h.lists, h.live, p, n, size, q);
    }
  }

  lemma ListsMore(headers: map<nat, Arena>, lists: seq<seq<nat>>, p: nat, x: Arena)
    requires ListsOk(headers, lists) && p !in headers
    ensures ListsOk(headers[p := x], lists)
  {
    forall d, a | 0 <= d < CLASSES && a in lists[d] ensures IsBlock(headers[p := x], d, a) {
      IsBlockKept(headers, p, x, d, a);
    }
  }

  lemma BigLive(headers: map<nat, Arena>, lists: seq<seq<nat>>, p: nat, n: nat, size: nat)
    requires p in headers && headers[p] == Big(n) && Page(p * PAGE + HEADER) == p
    requires size <= n * PAGE - HEADER <==> size + HEADER <= WORD
    ensures LiveBlock(headers, lists, p * PAGE + HEADER, size)
  {
  }

  lemma ArenaMore(headers: map<nat, Arena>, lists: seq<seq<nat>>, live: map<nat, nat>, p: nat, n: nat, size: nat, q: nat)
    requires p !in headers && (q == p || q in headers)
    requires q in headers ==> ArenaOk(headers, lists, live, q, None)
    ensures ArenaOk(headers[p := Big(n)], lists, live[p * PAGE + HEADER := size], q, None)
  {
    hide BlockAddr, Count, Per;
  }

  // ---------------------------------------------------------------- giving pages back

  /** Releasing the pages of one arena. */
  lemma PagesReleased(base: nat, used: seq<bool>, headers: map<nat, Arena>, p: nat)
    requires PagesOk(base, used, headers) && p in headers
    ensures base <= p && AllAre(used, p - base, Span(headers[p]), true)
    ensures PagesOk(base, Mark(used, p - base, Span(headers[p]), false), headers - {p})
  {
    var used' := Mark(used, p - base, Span(headers[p]), false);
    forall q | q in headers && q != p ensures AllAre(used', q - base, Span(headers[q]), true) {
      assert q + Span(headers[q]) <= p || p + Span(headers[p]) <= q;
    }
  }

  lemma LiveElsewhere(headers: map<nat, Arena>, lists: seq<seq<nat>>, lists': seq<seq<nat>>, p: nat, a: nat, size: nat)
    requires LiveBlock(headers, lists, a, size) && Page(a) != p && |lists'| == |lists|
    requires forall d :: 0 <= d < |lists| && a in lists'[d] ==> a in lists[d]
    ensures LiveBlock(headers - {p}, lists', a, size)
  {
  }

  lemma BigReleased(h: Heap, b: nat, n: nat)
    requires Ok(h, None) && b in h.live && Page(b) in h.headers && h.headers[Page(b)] == Big(n)
    ensures var p, live' := Page(b), h.live - {b};
            var headers' := h.headers - {p};
            && ListsOk(headers', h.lists)
            && (forall a :: a in live' ==> LiveBlock(headers', h.lists, a, live'[a]))
            && (forall q :: q in headers' ==> ArenaOk(headers', h.lists, live', q, None))
  {
    hide *;
    var p, live' := Page(b), h.live - {b};
    var headers' := h.headers - {p};
    OkParts(h, None, b, p);
    BigIs(h.headers, h.lists, b, h.live[b]);
    ListsWithout(h.headers, h.lists, p);
    forall a | a in live' ensures LiveBlock(headers', h.lists, a, live'[a]) {
      OkParts(h, None, a, p);
      BigIs(h.headers, h.lists, a, h.live[a]);
      LiveElsewhere(h.headers, h.lists, h.lists, p, a, h.live[a]);
    }
    forall q | q in headers' ensures ArenaOk(headers', h.lists, live', q, None) {
      OkParts(h, None, b, q);
      NotHere(q, b);
      ArenaWithout(h.headers, h.lists, h.live, p, b, q);
    }
  }

  lemma BigIs(headers: map<nat, Arena>, lists: seq<seq<nat>>, a: nat, size: nat)
    requires LiveBlock(headers, lists, a, size)
    ensures Page(a) in headers && (headers[Page(a)].Big? ==> a == Page(a) * PAGE + HEADER)
  {
  }

  lemma ListsWithout(headers: map<nat, Arena>, lists: seq<seq<nat>>, p: nat)
    requires ListsOk(headers, lists) && p in headers && headers[p].Big?
    ensures ListsOk(headers - {p}, lists)
  {
    forall d, a | 0 <= d < CLASSES && a in lists[d] ensures IsBlock(headers - {p}, d, a) {
      assert IsBlock(headers, d, a);
    }
  }

  lemma ArenaWithout(headers: map<nat, Arena>, lists: seq<seq<nat>>, live: map<nat, nat>, p: nat, b: nat, q: nat)
    requires q in headers && q != p && ArenaOk(headers, lists, live, q, None)
    requires q * PAGE + HEADER != b
    requires forall d, i :: 0 <= d < CLASSES && 0 <= i < Per(d) ==> BlockAddr(q, d, i) != b
    ensures ArenaOk(headers - {p}, lists, live - {b}, q, None)
  {
    hide BlockAddr, Per, Count;
  }

  /** Blocks of another page are other blocks. */
  lemma NotHere(q: nat, b: nat)
    requires q != Page(b)
    ensures q * PAGE + HEADER != b
    ensures forall d, i :: 0 <= d < CLASSES && 0 <= i < Per(d) ==> BlockAddr(q, d, i) != b
  {
    PageOf(q, HEADER);
    forall d, i | 0 <= d < CLASSES && 0 <= i < Per(d) ensures BlockAddr(q, d, i) != b {
      BlockInside(q, d, i);
    }
  }

  lemma FreeBigOk(h: Heap, b: nat, n: nat)
    requires Valid(h) && b in h.live && Page(b) in h.headers && h.headers[Page(b)] == Big(n)
    ensures |h.lists| == CLASSES
    ensures var r := Free(h, b); r.Done? && Valid(r.heap) && r.heap.live == h.live - {b}
  {
    assert LiveBlock(h.headers, h.lists, b, h.live[b]);
    PageOf(Page(b), HEADER);
    assert BlockToArena(h.headers, b) == Some(Big(n));
    PagesReleased(h.base, h.used, h.headers, Page(b));
    FreeBigIs(h, b, n);
    hide *;
    BigReleased(h, b, n);
    IsOk(Free(h, b).heap, None);
    IsValid(Free(h, b).heap);
  }

  lemma FreeBigIs(h: Heap, b: nat, n: nat)
    requires |h.lists| == CLASSES && BlockToArena(h.headers, b) == Some(Big(n))
    requires h.base <= Page(b) && AllAre(h.used, Page(b) - h.base, n, true)
    ensures Free(h, b) == Done(h.(used := Mark(h.used, Page(b) - h.base, n, false), headers := h.headers - {Page(b)},
                                  live := h.live - {b}), None)
  {
  }

  // ---------------------------------------------------------------- giving a block back

  lemma GiveLists(headers: map<nat, Arena>, headers': map<nat, Arena>, lists: seq<seq<nat>>, d: nat, b: nat)
    requires ListsOk(headers, lists) && SameArenas(headers, headers') && d < CLASSES
    requires IsBlock(headers, d, b) && b !in lists[d]
    ensures ListsOk(headers', lists[d := [b] + lists[d]])
  {
    var lists' := lists[d := [b] + lists[d]];
    forall e | 0 <= e < CLASSES ensures Distinct(lists'[e]) && forall a :: a in lists'[e] ==> IsBlock(headers', e, a) {
      forall a | a in lists'[e] ensures IsBlock(headers', e, a) {
        assert IsBlock(headers, e, a);
      }
    }
  }

  lemma GiveLive(headers: map<nat, Arena>, headers': map<nat, Arena>, lists: seq<seq<nat>>, d: nat, b: nat, a: nat, size: nat)
    requires SameArenas(headers, headers') && d < |lists| && a != b
    requires LiveBlock(headers, lists, a, size)
    ensures LiveBlock(headers', lists[d := [b] + lists[d]], a, size)
  {
  }

  lemma GiveArena(s: seq<nat>, p: nat, d: nat, k: nat)
    requires d < CLASSES && k < Per(d) && BlockAddr(p, d, k) !in s
    ensures Count([BlockAddr(p, d, k)] + s, p, d, Per(d)) == Count(s, p, d, Per(d)) + 1
  {
    var t := [BlockAddr(p, d, k)] + s;
    TakeArena(t, p, d, k) by { assert t[1..] == s; }
    assert t[1..] == s;
  }

  lemma GiveOwn(headers: map<nat, Arena>, lists: seq<seq<nat>>, live: map<nat, nat>, p: nat, d: nat, k: nat, c: nat)
    requires p in headers && ArenaOk(headers, lists, live, p, None) && headers[p] == Small(d, c)
    requires d < CLASSES && d < |lists| && k < Per(d) && BlockAddr(p, d, k) !in lists[d]
    ensures var b := BlockAddr(p, d, k);
            ArenaOk(headers[p := Small(d, c + 1)], lists[d := [b] + lists[d]], live - {b}, p, Some(p))
  {
    hide BlockAddr;
    GiveArena(lists[d], p, d, k);
    CountAll(lists[d], p, d, Per(d));
  }

  /** The heap with `b` back on its free list, perhaps making its arena wholly free. */
  function Given(h: Heap, b: nat, d: nat, c: nat): Heap
    requires d < |h.lists|
  {
    h.(lists := h.lists[d := [b] + h.lists[d]], headers := h.headers[Page(b) := Small(d, c + 1)], live := h.live - {b})
  }

  lemma GivenOk(h: Heap, b: nat, d: nat, c: nat) returns (k: nat)
    requires Ok(h, None) && b in h.live && Page(b) in h.headers && h.headers[Page(b)] == Small(d, c)
    ensures d < CLASSES == |h.lists| && k < Per(d) && b == BlockAddr(Page(b), d, k) && c < Per(d)
    ensures Ok(Given(h, b, d, c), Some(Page(b)))
  {
    hide *;
    var p := Page(b);
    OkParts(h, None, b, p);
    SmallIs(h.headers, h.lists, h.live, b, d, c);
    k := BlockIndex(h.headers, d, b);
    var h1 := Given(h, b, d, c);
    GivenIs(h, b, d, c);
    SamePages(h.base, h.used, h.headers, h1.headers);
    GiveLists(h.headers, h1.headers, h.lists, d, b);
    forall a | a in h1.live ensures LiveBlock(h1.headers, h1.lists, a, h1.live[a]) {
      OkParts(h, None, a, p);
      GiveLive(h.headers, h1.headers, h.lists, d, b, a, h.live[a]);
    }
    forall q | q in h1.headers ensures ArenaOk(h1.headers, h1.lists, h1.live, q, Some(p)) {
      OkParts(h, None, b, q);
      if q == p {
        GiveOwn(h.headers, h.lists, h.live, p, d, k, c);
      } else {
        OtherArena(h.headers, h.lists, h1.lists, h.live, h1.live, q, None, b, d);
        HeaderChange(h.headers, h1.lists, h1.live, p, Small(d, c + 1), q, None);
        NotFull(h1.headers, h1.lists, h1.live, q, Some(p));
      }
    }
    IsOk(h1, Some(p));
  }

  lemma NotFull(headers: map<nat, Arena>, lists: seq<seq<nat>>, live: map<nat, nat>, q: nat, full: Option<nat>)
    requires q in headers && ArenaOk(headers, lists, live, q, None)
    ensures ArenaOk(headers, lists, live, q, full)
  {
  }

  lemma SmallIs(headers: map<nat, Arena>, lists: seq<seq<nat>>, live: map<nat, nat>, b: nat, d: nat, c: nat)
    requires ListsOk(headers, lists) && b in live && LiveBlock(headers, lists, b, live[b])
    requires Page(b) in headers && headers[Page(b)] == Small(d, c) && ArenaOk(headers, lists, live, Page(b), None)
    ensures d < CLASSES == |lists| && c < Per(d) && IsBlock(headers, d, b) && b !in lists[d]
  {
  }

  lemma GivenIs(h: Heap, b: nat, d: nat, c: nat)
    requires d < |h.lists| && Page(b) in h.headers && h.headers[Page(b)] == Small(d, c)
    ensures var h1 := Given(h, b, d, c);
            && h1 == h.(lists := h.lists[d := [b] + h.lists[d]], headers := h.headers[Page(b) := Small(d, c + 1)],
                        live := h.live - {b})
            && SameArenas(h.headers, h1.headers)
            && (forall a :: a != b ==> (a in h1.lists[d] <==> a in h.lists[d]))
  {
  }

  // ---------------------------------------------------------------- giving an arena back

  lemma NoRepeatMore(x: nat, r: seq<nat>)
    requires Distinct(r) && x !in r
    ensures Distinct([x] + r)
  {
  }

  lemma NoRepeatRest(s: seq<nat>)
    requires Distinct(s) && s != []
    ensures Distinct(s[1..]) && s[0] !in s[1..] && forall a :: a in s <==> a == s[0] || a in s[1..]
  {
  }

  lemma {:induction false} WithoutIs(s: seq<nat>, x: nat)
    requires Distinct(s)
    ensures Distinct(Without(s, x))
    ensures forall a :: a in Without(s, x) <==> a in s && a != x
  {
    if s != [] {
      NoRepeatRest(s);
      hide Distinct;
      WithoutIs(s[1..], x);
      if s[0] != x {
        NoRepeatMore(s[0], Without(s[1..], x));
      }
    }
  }

  lemma {:induction false} WithoutBlocksIs(s: seq<nat>, p: nat, d: nat, n: nat)
    requires Distinct(s)
    ensures Distinct(WithoutBlocks(s, p, d, n))
    ensures forall a :: a in WithoutBlocks(s, p, d, n) <==> a in s && forall i :: 0 <= i < n ==> a != BlockAddr(p, d, i)
  {
    hide BlockAddr, Distinct;
    if n > 0 {
      WithoutBlocksIs(s, p, d, n - 1);
      WithoutIs(WithoutBlocks(s, p, d, n - 1), BlockAddr(p, d, n - 1));
    }
  }

  /** After removing a page's blocks the free list holds exactly the blocks of other pages. */
  lemma ListWithoutPage(headers: map<nat, Arena>, lists: seq<seq<nat>>, p: nat, d: nat)
    requires ListsOk(headers, lists) && d < CLASSES
    ensures var rest := WithoutBlocks(lists[d], p, d, Per(d));
            Distinct(rest) && forall a :: a in rest <==> a in lists[d] && Page(a) != p
  {
    WithoutBlocksIs(lists[d], p, d, Per(d));
    forall a | a in lists[d] ensures Page(a) == p <==> exists i :: 0 <= i < Per(d) && a == BlockAddr(p, d, i) {
      var k := BlockIndex(headers, d, a);
    }
  }

  lemma DropLists(headers: map<nat, Arena>, lists: seq<seq<nat>>, p: nat, d: nat)
    requires ListsOk(headers, lists) && d < CLASSES && p in headers && headers[p].Small? && headers[p].desc == d
    ensures ListsOk(headers - {p}, lists[d := WithoutBlocks(lists[d], p, d, Per(d))])
    ensures forall a :: a in WithoutBlocks(lists[d], p, d, Per(d)) <==> a in lists[d] && Page(a) != p
  {
    ListWithoutPage(headers, lists, p, d);
    hide WithoutBlocks, Distinct, Per, BlockAddr, Page;
    var lists' := lists[d := WithoutBlocks(lists[d], p, d, Per(d))];
    forall e, a | 0 <= e < CLASSES && a in lists'[e] ensures IsBlock(headers - {p}, e, a) {
      assert IsBlock(headers, e, a);
    }
  }

  /** No block of a wholly free arena is handed out. */
  lemma NoneLive(headers: map<nat, Arena>, lists: seq<seq<nat>>, live: map<nat, nat>, p: nat, d: nat, a: nat, size: nat)
    requires p in headers && headers[p] == Small(d, Per(d)) && ArenaOk(headers, lists, live, p, Some(p))
    requires LiveBlock(headers, lists, a, size)
    ensures Page(a) != p
  {
    hide BlockAddr, Page;
    CountAll(lists[d], p, d, Per(d));
  }

  lemma DropArena(headers: map<nat, Arena>, lists: seq<seq<nat>>, live: map<nat, nat>, p: nat, d: nat, rest: seq<nat>, q: nat)
    requires q in headers && q != p && ArenaOk(headers, lists, live, q, Some(p)) && d < |lists|
    requires forall a :: a in rest <==> a in lists[d] && Page(a) != p
    ensures ArenaOk(headers - {p}, lists[d := rest], live, q, None)
  {
    match headers[q]
    case Small(e, c) =>
      if e == d {
        forall i | 0 <= i < Per(d) ensures BlockAddr(q, d, i) in lists[d] <==> BlockAddr(q, d, i) in rest {
          BlockInside(q, d, i);
        }
        hide BlockAddr, Page;
        CountAgree(lists[d], rest, q, d, Per(d));
      }
    case Big(_) =>
  }

  lemma DropOk(h: Heap, p: nat, d: nat)
    requires Ok(h, Some(p)) && p in h.headers && h.headers[p] == Small(d, Per(d)) && d < CLASSES == |h.lists|
    ensures h.base <= p && AllAre(h.used, p - h.base, 1, true)
    ensures Ok(h.(used := Mark(h.used, p - h.base, 1, false), headers := h.headers - {p},
                  lists := h.lists[d := WithoutBlocks(h.lists[d], p, d, Per(d))]), None)
  {
    hide *;
    OkParts(h, Some(p), 0, p);
    SpanIs(h.headers[p], d);
    PagesReleased(h.base, h.used, h.headers, p);
    DropLists(h.headers, h.lists, p, d);
    var rest := WithoutBlocks(h.lists[d], p, d, Per(d));
    var lists' := h.lists[d := rest];
    forall a | a in h.live ensures LiveBlock(h.headers - {p}, lists', a, h.live[a]) {
      OkParts(h, Some(p), a, p);
      NoneLive(h.headers, h.lists, h.live, p, d, a, h.live[a]);
      LiveElsewhere(h.headers, h.lists, lists', p, a, h.live[a]);
    }
    forall q | q in h.headers - {p} ensures ArenaOk(h.headers - {p}, lists', h.live, q, None) {
      OkParts(h, Some(p), 0, q);
      DropArena(h.headers, h.lists, h.live, p, d, rest, q);
    }
    AllIs(h.used, p - h.base, 1);
    IsOk(h.(used := Mark(h.used, p - h.base, 1, false), headers := h.headers - {p}, lists := lists'), None);
  }

  lemma SpanIs(a: Arena, d: nat)
    requires a.Small?
    ensures Span(a) == 1
  {
  }

  lemma AllIs(used: seq<bool>, from: nat, cnt: nat)
    ensures AllAre(used, from, cnt, true) ==> from + cnt <= |used|
  {
  }

  /** free of a block of a small arena: its assertions hold. */
  lemma FreeSmallOk(h: Heap, b: nat, d: nat, c: nat)
    requires Valid(h) && b in h.live && Page(b) in h.headers && h.headers[Page(b)] == Small(d, c)
    ensures |h.lists| == CLASSES
    ensures var r := Free(h, b); r.Done? && Valid(r.heap) && r.heap.live == h.live - {b}
  {
    hide *;
    var k := BeforeFree(h, b, d, c);
    var h1 := Given(h, b, d, c);
    GivenIs(h, b, d, c);
    if c + 1 == Per(d) {
      DropOk(h1, Page(b), d);
      FreeLastIs(h, b, d, c);
    } else {
      StillOk(h1, Page(b), d, c + 1);
      FreeSomeIs(h, b, d, c);
    }
    IsValid(Free(h, b).heap);
  }

  lemma BeforeFree(h: Heap, b: nat, d: nat, c: nat) returns (k: nat)
    requires Valid(h) && b in h.live && Page(b) in h.headers && h.headers[Page(b)] == Small(d, c)
    ensures d < CLASSES == |h.lists| && k < Per(d) && b == BlockAddr(Page(b), d, k) && c < Per(d)
    ensures Ok(Given(h, b, d, c), Some(Page(b))) && h.base > 0
    ensures BlockToArena(h.headers, b) == Some(Small(d, c))
  {
    k := GivenOk(h, b, d, c);
    BlockAsserted(h.headers, d, b, k);
  }

  lemma StillOk(h: Heap, p: nat, d: nat, c: nat)
    requires Ok(h, Some(p)) && p in h.headers && h.headers[p] == Small(d, c) && c < Per(d)
    ensures Ok(h, None)
  {
    hide PagesOk, ListsOk, LiveBlock, Count, Per, BlockAddr, Page;
  }

  lemma FreeSomeIs(h: Heap, b: nat, d: nat, c: nat)
    requires |h.lists| == CLASSES && d < CLASSES && BlockToArena(h.headers, b) == Some(Small(d, c)) && c + 1 < Per(d)
    ensures Free(h, b) == Done(Given(h, b, d, c), None)
  {
  }

  lemma FreeLastIs(h: Heap, b: nat, d: nat, c: nat)
    requires |h.lists| == CLASSES && d < CLASSES && BlockToArena(h.headers, b) == Some(Small(d, c)) && c + 1 == Per(d)
    requires h.base <= Page(b) && AllAre(h.used, Page(b) - h.base, 1, true)
    ensures var h1 := Given(h, b, d, c);
            Free(h, b) == Done(h1.(used := Mark(h.used, Page(b) - h.base, 1, false), headers := h1.headers - {Page(b)},
                                   lists := h1.lists[d := WithoutBlocks(h1.lists[d], Page(b), d, Per(d))]), None)
  {
  }
}
