/** The kernel's block allocator: pages cut into blocks of seven sizes. */
module MallocSpec {
  import opened Sequences
  import opened Bitmap

  const PAGE: nat := 4096
  /** sizeof (struct arena) */
  const HEADER: nat := 12
  /** size_t has 32 bits. */
  const WORD: nat := 0x1_0000_0000
  const CLASSES: nat := 7

  /** Block size of a descriptor: powers of two from 16 to 1024. */
  function ClassSize(d: nat): (s: nat)
    ensures s >= 16
  {
    if d == 0 then 16 else 2 * ClassSize(d - 1)
  }

  /** Blocks per arena. */
  function Per(d: nat): nat {
    Quotient(PAGE - HEADER, ClassSize(d))
  }

  function Quotient(n: nat, d: nat): (q: nat)
    requires d > 0
    ensures q * d <= n
  {
    assert n == d * (n / d) + n % d;
    n / d
  }

  /** Address of block `i` in the arena on page `p`. */
  function BlockAddr(p: nat, d: nat, i: nat): nat {
    p * PAGE + HEADER + i * ClassSize(d)
  }

  function Page(a: nat): nat {
    a / PAGE
  }

  /** An arena's header: a page of blocks of one class, or a run of pages for one block. */
  datatype Arena = Small(desc: nat, freeCnt: nat) | Big(pages: nat)

  /** `base` is the first page of the pool, `used` its bitmap, `headers` the arena headers
      by page number, `lists` the free lists, and `live` the blocks handed out and not yet
      freed, with the size that was asked for. */
  datatype Heap = Heap(base: nat, used: seq<bool>, headers: map<nat, Arena>, lists: seq<seq<nat>>, live: map<nat, nat>)

  // ---------------------------------------------------------------- addresses

  lemma {:induction false} ClassBound(d: nat)
    requires d < CLASSES
    ensures ClassSize(d) <= 1024 && 3 <= Per(d)
  {
    assert ClassSize(0) == 16 && ClassSize(1) == 32 && ClassSize(2) == 64 && ClassSize(3) == 128;
    assert ClassSize(4) == 256 && ClassSize(5) == 512 && ClassSize(6) == 1024;
  }

  lemma MulMono(i: nat, j: nat, c: nat)
    requires i <= j
    ensures i * c <= j * c
  {
  }

  lemma PageOf(p: nat, o: nat)
    requires o < PAGE
    ensures (p * PAGE + o) / PAGE == p && (p * PAGE + o) % PAGE == o
  {
  }

  /** Every block lies behind the header and inside its page. */
  lemma BlockInside(p: nat, d: nat, i: nat)
    requires d < CLASSES && i < Per(d)
    ensures Page(BlockAddr(p, d, i)) == p
    ensures BlockAddr(p, d, i) % PAGE == HEADER + i * ClassSize(d)
    ensures p * PAGE + HEADER <= BlockAddr(p, d, i)
    ensures BlockAddr(p, d, i) + ClassSize(d) <= (p + 1) * PAGE
  {
    var c, n := ClassSize(d), Per(d);
    var o := i * c;
    BlockEnd(i, n, c);
    hide *;
    PageOf(p, HEADER + o);
    BlockAddrIs(p, d, i);
  }

  lemma BlockAddrIs(p: nat, d: nat, i: nat)
    ensures BlockAddr(p, d, i) == p * PAGE + HEADER + i * ClassSize(d)
  {
  }

  lemma BlockEnd(i: nat, n: nat, c: nat)
    requires i < n && n * c <= PAGE - HEADER && c > 0
    ensures 0 <= i * c && i * c + c <= PAGE - HEADER
  {
    MulMono(i + 1, n, c);
    assert (i + 1) * c == i * c + c;
  }

  /** Two blocks of one arena do not overlap. */
  lemma BlocksApart(p: nat, d: nat, i: nat, j: nat)
    requires i < j
    ensures BlockAddr(p, d, i) + ClassSize(d) <= BlockAddr(p, d, j)
  {
    MulMono(i + 1, j, ClassSize(d));
  }

  lemma SameBlock(p: nat, d: nat, i: nat, q: nat, j: nat)
    requires d < CLASSES && i < Per(d) && j < Per(d) && BlockAddr(p, d, i) == BlockAddr(q, d, j)
    ensures p == q && i == j
  {
    BlockInside(p, d, i);
    BlockInside(q, d, j);
    if i < j {
      BlocksApart(p, d, i, j);
    } else if j < i {
      BlocksApart(p, d, j, i);
    }
  }

  /** The alignment that block_to_arena checks. */
  lemma Aligned(p: nat, d: nat, i: nat)
    requires d < CLASSES && i < Per(d)
    ensures (BlockAddr(p, d, i) % PAGE - HEADER) % ClassSize(d) == 0
  {
    BlockInside(p, d, i);
    ModMul(i, ClassSize(d));
  }

  lemma {:induction false} ModMul(i: nat, c: nat)
    requires c > 0
    ensures (i * c) % c == 0
  {
    if i > 0 {
      ModMul(i - 1, c);
      assert i * c == (i - 1) * c + c;
      assert (i * c) % c == ((i - 1) * c) % c by { AddMod((i - 1) * c, c); }
    }
  }

  lemma AddMod(x: nat, c: nat)
    requires c > 0
    ensures (x + c) % c == x % c
  {
    assert x + c == c * (x / c + 1) + x % c;
    DivUnique(x + c, c, x / c + 1, x % c);
  }

  lemma DivUnique(n: nat, d: nat, q: nat, r: nat)
    requires d > 0 && r < d && n == d * q + r
    ensures n / d == q && n % d == r
  {
    var q', r' := n / d, n % d;
    assert n == d * q' + r';
    if q < q' {
      MulMono(q + 1, q', d);
    } else if q' < q {
      MulMono(q' + 1, q, d);
    }
  }

  // ---------------------------------------------------------------- what holds between calls

  function Span(a: Arena): nat {
    match a
    case Small(_, _) => 1
    case Big(n) => n
  }

  /** Arenas lie in used pages of the pool and do not share pages. */
  ghost predicate PagesOk(base: nat, used: seq<bool>, headers: map<nat, Arena>) {
    && (forall p :: p in headers ==>
          base <= p && Span(headers[p]) >= 1 && AllAre(used, p - base, Span(headers[p]), true))
    && (forall p, q :: p in headers && q in headers && p < q ==> p + Span(headers[p]) <= q)
  }

  /** `a` is a block of an arena of class `d`. */
  ghost predicate IsBlock(headers: map<nat, Arena>, d: nat, a: nat) {
    && Page(a) in headers && headers[Page(a)].Small? && headers[Page(a)].desc == d
    && exists i :: 0 <= i < Per(d) && a == BlockAddr(Page(a), d, i)
  }

  ghost predicate ListsOk(headers: map<nat, Arena>, lists: seq<seq<nat>>) {
    && |lists| == CLASSES
    && forall d :: 0 <= d < CLASSES ==> Distinct(lists[d]) && forall a :: a in lists[d] ==> IsBlock(headers, d, a)
  }

  /** Bytes that the holder of a block may use. */
  function Capacity(headers: map<nat, Arena>, a: nat): int {
    if Page(a) !in headers then 0
    else match headers[Page(a)]
      case Small(d, _) => ClassSize(d)
      case Big(n) => n * PAGE - HEADER
  }

  /** A block handed out is a block of its arena, is on no free list, and is at least as
      large as asked for, unless the request wrapped around. */
  ghost predicate LiveBlock(headers: map<nat, Arena>, lists: seq<seq<nat>>, a: nat, size: nat) {
    && Page(a) in headers
    && (match headers[Page(a)]
        case Small(d, _) => d < |lists| && IsBlock(headers, d, a) && a !in lists[d]
        case Big(_) => a == Page(a) * PAGE + HEADER)
    && (size <= Capacity(headers, a) <==> size + HEADER <= WORD)
  }

  /** How many of the first `n` blocks of an arena are on `list`. */
  function Count(list: seq<nat>, p: nat, d: nat, n: nat): nat {
    if n == 0 then 0 else Count(list, p, d, n - 1) + if BlockAddr(p, d, n - 1) in list then 1 else 0
  }

  /** free_cnt is the number of the arena's blocks on the free list; every block is free or
      handed out; and only the arena `full`, if any, has no block handed out. */
  ghost predicate ArenaOk(headers: map<nat, Arena>, lists: seq<seq<nat>>, live: map<nat, nat>, p: nat, full: Option<nat>)
    requires p in headers
  {
    match headers[p]
    case Small(d, c) =>
      && d < CLASSES && d < |lists|
      && c == Count(lists[d], p, d, Per(d))
      && (c < Per(d) || full == Some(p))
      && forall i :: 0 <= i < Per(d) ==> BlockAddr(p, d, i) in lists[d] || BlockAddr(p, d, i) in live
    case Big(_) => p * PAGE + HEADER in live
  }

  ghost predicate Ok(h: Heap, full: Option<nat>) {
    && PagesOk(h.base, h.used, h.headers)
    && ListsOk(h.headers, h.lists)
    && (forall a :: a in h.live ==> LiveBlock(h.headers, h.lists, a, h.live[a]))
    && (forall p :: p in h.headers ==> ArenaOk(h.headers, h.lists, h.live, p, full))
  }

  /** Between calls no arena is wholly free. */
  ghost predicate Valid(h: Heap) {
    Ok(h, None) && h.base > 0
  }

  // ---------------------------------------------------------------- the calls

  /** A failed ASSERT ends every run. */
  datatype Result = Done(heap: Heap, block: Option<nat>) | Panic

  /** Pages for a big block, in 32-bit arithmetic. */
  function PagesFor(size: nat): nat {
    ((size + HEADER) % WORD + PAGE - 1) % WORD / PAGE
  }

  function PallocGet(used: seq<bool>, cnt: nat): (r: Option<nat>)
    ensures r.Some? ==> cnt > 0 && AllAre(used, r.value, cnt, false)
  {
    if cnt == 0 then None else Fit(used, cnt, 0)
  }

  /** The first class from `d` on whose blocks are large enough, or CLASSES. */
  function FindClass(size: nat, d: nat): (r: nat)
    requires d <= CLASSES
    ensures d <= r <= CLASSES
    ensures r < CLASSES ==> size <= ClassSize(r)
    ensures forall e :: d <= e < r ==> ClassSize(e) < size
    decreases CLASSES - d
  {
    if d == CLASSES || ClassSize(d) >= size then d else FindClass(size, d + 1)
  }

  /** block_to_arena with its assertions. */
  function BlockToArena(headers: map<nat, Arena>, b: nat): Option<Arena> {
    if Page(b) == 0 || Page(b) !in headers then None
    else match headers[Page(b)]
      case Small(d, c) => if (b % PAGE - HEADER) % ClassSize(d) == 0 then Some(Small(d, c)) else None
      case Big(n) => if b % PAGE == HEADER then Some(Big(n)) else None
  }

  /** The blocks `from`, `from` + 1, ... of an arena, in order. */
  function Blocks(p: nat, d: nat, n: nat): (r: seq<nat>)
    ensures |r| == n && forall i :: 0 <= i < n ==> r[i] == BlockAddr(p, d, i)
  {
    if n == 0 then [] else Blocks(p, d, n - 1) + [BlockAddr(p, d, n - 1)]
  }

  /** A new arena of class `d` on a fresh page; its blocks go to the free list. */
  function NewArena(h: Heap, d: nat): Option<Heap>
    requires d < |h.lists|
  {
    match PallocGet(h.used, 1)
    case None => None
    case Some(k) =>
      var p := h.base + k;
      Some(h.(used := Mark(h.used, k, 1, true), headers := h.headers[p := Small(d, Per(d))],
              lists := h.lists[d := h.lists[d] + Blocks(p, d, Per(d))]))
  }

  /** The first block of the free list is handed out. */
  function Take(h: Heap, d: nat, size: nat): Result
    requires d < |h.lists| && h.lists[d] != []
  {
    var b := h.lists[d][0];
    match BlockToArena(h.headers, b)
    case Some(Small(e, c)) =>
      if c == 0 then Panic // free_cnt would wrap
      else Done(h.(headers := h.headers[Page(b) := Small(e, c - 1)], lists := h.lists[d := h.lists[d][1..]],
                   live := h.live[b := size]), Some(b))
    case _ => Panic
  }

  function MallocBig(h: Heap, size: nat): Result {
    match PallocGet(h.used, PagesFor(size))
    case None => Done(h, None)
    case Some(k) =>
      var p, n := h.base + k, PagesFor(size);
      Done(h.(used := Mark(h.used, k, n, true), headers := h.headers[p := Big(n)],
              live := h.live[p * PAGE + HEADER := size]), Some(p * PAGE + HEADER))
  }

  function Malloc(h: Heap, size: nat): Result
    requires |h.lists| == CLASSES
  {
    var d := FindClass(size, 0);
    if size == 0 then Done(h, None)
    else if d == CLASSES then MallocBig(h, size)
    else if h.lists[d] != [] then Take(h, d, size)
    else
      match NewArena(h, d)
      case None => Done(h, None)
      case Some(h1) => if h1.lists[d] != [] then Take(h1, d, size) else Panic
  }

  /** list_remove */
  function Without(s: seq<nat>, x: nat): seq<nat> {
    if s == [] then [] else if s[0] == x then s[1..] else [s[0]] + Without(s[1..], x)
  }

  /** A list without the first `n` blocks of an arena. */
  function WithoutBlocks(s: seq<nat>, p: nat, d: nat, n: nat): seq<nat> {
    if n == 0 then s else Without(WithoutBlocks(s, p, d, n - 1), BlockAddr(p, d, n - 1))
  }

  /** palloc_free_multiple with its assertions. */
  function PallocFree(h: Heap, p: nat, cnt: nat): Result {
    if p < h.base || !AllAre(h.used, p - h.base, cnt, true) then Panic
    else Done(h.(used := Mark(h.used, p - h.base, cnt, false), headers := h.headers - {p}), None)
  }

  function FreeSmall(h: Heap, b: nat, d: nat, c: nat): Result
    requires d < |h.lists|
  {
    var p := Page(b);
    var h1 := h.(lists := h.lists[d := [b] + h.lists[d]], headers := h.headers[p := Small(d, c + 1)], live := h.live - {b});
    if c + 1 < Per(d) then Done(h1, None)
    else if c + 1 != Per(d) then Panic
    else PallocFree(h1.(lists := h1.lists[d := WithoutBlocks(h1.lists[d], p, d, Per(d))]), p, 1)
  }

  function Free(h: Heap, b: nat): Result
    requires |h.lists| == CLASSES
  {
    match BlockToArena(h.headers, b)
    case None => Panic
    case Some(Small(d, c)) => if d < CLASSES then FreeSmall(h, b, d, c) else Panic
    case Some(Big(n)) => PallocFree(h.(live := h.live - {b}), Page(b), n)
  }

  /** realloc; `ptr` is None for a null pointer. */
  function Realloc(h: Heap, ptr: Option<nat>, size: nat): Result
    requires |h.lists| == CLASSES
  {
    if size == 0 then (if ptr.Some? then Free(h, ptr.value) else Done(h, None))
    else
      match Malloc(h, size)
      case Panic => Panic
      case Done(h1, b) =>
        if ptr.None? || b.None? then Done(h1, b)
        else if |h1.lists| != CLASSES then Panic
        else
          match Free(h1, ptr.value)
          case Panic => Panic
          case Done(h2, _) => Done(h2, b)
  }
}
