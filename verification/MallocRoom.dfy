/** Which requests the block allocator can serve, in terms of bytes, free pages and blocks
    not in use, and how large a block they get. */
module MallocRoom {
  import opened Sequences
  import opened Bitmap
  import opened MallocSpec
  import opened MallocInvariant

  // ---------------------------------------------------------------- pages of big blocks

  /** Rounding up loses no page and takes none too many, as long as it does not wrap; where
      only the rounding wraps it gives no page, and where adding the header does, one. */
  lemma PagesForLeast(size: nat, n: nat)
    requires 0 < size < WORD
    ensures size + HEADER + PAGE <= WORD ==> (size + HEADER <= n * PAGE <==> PagesFor(size) <= n)
    ensures size + HEADER + PAGE <= WORD ==> (PagesFor(size) - 1) * PAGE < size + HEADER <= PagesFor(size) * PAGE
    ensures WORD < size + HEADER + PAGE && size + HEADER <= WORD ==> PagesFor(size) == 0
    ensures WORD < size + HEADER ==> PagesFor(size) == 1
  {
    var total := size + HEADER;
    if total + PAGE <= WORD {
      assert total % WORD == total && (total + PAGE - 1) % WORD == total + PAGE - 1;
      assert PagesFor(size) == (total + PAGE - 1) / PAGE;
    } else if total < WORD {
      assert (total % WORD + PAGE - 1) % WORD == total + PAGE - 1 - WORD;
    } else {
      assert total % WORD == total - WORD;
    }
  }

  /** The pool has `n` free pages in a row. */
  ghost predicate FreeRun(used: seq<bool>, n: nat) {
    exists k: nat :: AllAre(used, k, n, false)
  }

  lemma PallocFails(used: seq<bool>, n: nat)
    ensures PallocGet(used, n).None? <==> n == 0 || !FreeRun(used, n)
  {
    if n > 0 {
      if k: nat :| AllAre(used, k, n, false) {
        assert Fit(used, n, 0).Some?;
      }
      assert Fit(used, n, 0).Some? ==> AllAre(used, Fit(used, n, 0).value, n, false);
    }
  }

  lemma ShorterRun(used: seq<bool>, n: nat, m: nat)
    requires FreeRun(used, n) && m <= n
    ensures FreeRun(used, m)
  {
    var k: nat :| AllAre(used, k, n, false);
    assert AllAre(used, k, m, false);
  }

  /** A big request finds no run of free pages for its bytes and the header; or its rounding
      wraps, to no page or, with the header, to one. */
  ghost predicate NoPages(used: seq<bool>, size: nat) {
    if size + HEADER + PAGE <= WORD then forall n: nat :: FreeRun(used, n) ==> n * PAGE < size + HEADER
    else size + HEADER <= WORD || !FreeRun(used, 1)
  }

  lemma NoPagesExactly(used: seq<bool>, size: nat)
    requires 0 < size < WORD
    ensures NoPages(used, size) <==> PallocGet(used, PagesFor(size)).None?
  {
    var m := PagesFor(size);
    PagesForLeast(size, m);
    PallocFails(used, m);
    hide PagesFor, PallocGet, FreeRun;
    if size + HEADER + PAGE <= WORD {
      forall n: nat | FreeRun(used, n) ensures n * PAGE < size + HEADER || FreeRun(used, m) {
        PagesForLeast(size, n);
        if size + HEADER <= n * PAGE {
          ShorterRun(used, n, m);
        }
      }
    }
  }

  // ---------------------------------------------------------------- classes of small blocks

  /** The blocks of class `d` are the smallest that hold `size` bytes. */
  predicate SmallestFor(d: nat, size: nat) {
    d < CLASSES && size <= ClassSize(d) && (d > 0 ==> ClassSize(d - 1) < size)
  }

  /** Requests up to 1024 bytes have a class: of 16 bytes, or of less than twice what was
      asked for. */
  lemma ClassTight(size: nat)
    requires size > 0
    ensures FindClass(size, 0) < CLASSES <==> size <= 1024
    ensures size <= 1024 ==> SmallestFor(FindClass(size, 0), size)
    ensures size <= 1024 ==> size <= ClassSize(FindClass(size, 0)) < Max(17, 2 * size)
  {
    var d := FindClass(size, 0);
    assert ClassSize(CLASSES - 1) == 1024 by {
      assert ClassSize(2) == 64 && ClassSize(4) == 256;
    }
    if d < CLASSES {
      ClassBound(d);
    } else {
      assert ClassSize(CLASSES - 1) < size;
    }
    if d > 0 {
      assert ClassSize(d - 1) < size;
    }
  }

  function Max(a: nat, b: nat): nat {
    if a < b then b else a
  }

  lemma OneSmallest(size: nat, d: nat)
    requires size > 0 && SmallestFor(d, size)
    ensures d == FindClass(size, 0)
  {
    var e := FindClass(size, 0);
    assert e <= d;
    if e < d {
      ClassMono(e, d - 1);
    }
  }

  lemma {:induction false} ClassMono(d: nat, e: nat)
    requires d <= e
    ensures ClassSize(d) <= ClassSize(e)
  {
    if d < e {
      ClassMono(d, e - 1);
    }
  }

  /** An arena holds as many blocks as its page has room for behind the header. */
  lemma AsManyAsFit(d: nat, n: nat)
    requires d < CLASSES
    ensures n <= Per(d) <==> HEADER + n * ClassSize(d) <= PAGE
  {
    var s, q := ClassSize(d), Per(d);
    assert PAGE - HEADER == s * ((PAGE - HEADER) / s) + (PAGE - HEADER) % s;
    assert q * s <= PAGE - HEADER < (q + 1) * s;
    if n <= q {
      MulMono(n, q, s);
    } else {
      MulMono(q + 1, n, s);
    }
  }

  /** Some arena of class `d` has a block that is not in use. */
  ghost predicate FreeBlock(h: Heap, d: nat) {
    exists p, i: nat ::
      p in h.headers && h.headers[p].Small? && h.headers[p].desc == d && i < Per(d) && BlockAddr(p, d, i) !in h.live
  }

  /** The free list of a class is empty exactly if all blocks of its arenas are in use. */
  lemma EmptyListExactly(h: Heap, d: nat)
    requires Valid(h) && d < CLASSES && |h.lists| == CLASSES
    ensures h.lists[d] == [] <==> !FreeBlock(h, d)
  {
    if h.lists[d] != [] {
      var k, c := HeadIsBlock(h, None, d);
      hide *;
      IsFreeBlock(h, d, Page(h.lists[d][0]), k);
    } else {
      forall p, i: nat
        | p in h.headers && h.headers[p].Small? && h.headers[p].desc == d && i < Per(d)
        ensures BlockAddr(p, d, i) in h.live
      {
        assert ArenaOk(h.headers, h.lists, h.live, p, None);
        assert BlockAddr(p, d, i) !in h.lists[d];
      }
    }
  }

  lemma IsFreeBlock(h: Heap, d: nat, p: nat, i: nat)
    requires p in h.headers && h.headers[p].Small? && h.headers[p].desc == d && i < Per(d) && BlockAddr(p, d, i) !in h.live
    ensures FreeBlock(h, d)
  {
  }

  // ---------------------------------------------------------------- requests

  /** The request cannot be served: no pages for a big block; or all blocks of the smallest
      class that holds it in use, and no free page for more. */
  ghost predicate NoRoom(h: Heap, size: nat) {
    if size > 1024 then NoPages(h.used, size)
    else !FreeRun(h.used, 1) && forall d :: SmallestFor(d, size) ==> !FreeBlock(h, d)
  }

  /** What malloc tests. */
  predicate Refused(h: Heap, size: nat)
    requires |h.lists| == CLASSES
  {
    var d := FindClass(size, 0);
    if d == CLASSES then PallocGet(h.used, PagesFor(size)).None?
    else h.lists[d] == [] && PallocGet(h.used, 1).None?
  }

  lemma RefusedExactly(h: Heap, size: nat)
    requires Valid(h) && |h.lists| == CLASSES && 0 < size < WORD
    ensures Refused(h, size) <==> NoRoom(h, size)
  {
    var d := FindClass(size, 0);
    ClassTight(size);
    if d == CLASSES {
      NoPagesExactly(h.used, size);
    } else {
      EmptyListExactly(h, d);
      PallocFails(h.used, 1);
    }
    hide Valid, FindClass, SmallestFor, FreeBlock, FreeRun, NoPages, PallocGet, PagesFor;
    forall e | SmallestFor(e, size) ensures e == d {
      OneSmallest(size, e);
    }
  }
}
