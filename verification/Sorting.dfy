/** Heapsort and binary search over an array with a strcmp-like comparison. */
module Sorting {
  import opened Bitmap

  type Compare<!T> = (T, T) -> int

  /** What callers promise of the comparison. */
  ghost predicate TotalPreorder<T(!new)>(cmp: Compare<T>) {
    && (forall x, y :: cmp(x, y) > 0 <==> cmp(y, x) < 0)
    && (forall x, y, z :: cmp(x, y) <= 0 && cmp(y, z) <= 0 ==> cmp(x, z) <= 0)
  }

  // ---------------------------------------------------------------- heaps, with indexes from one

  /** The element with 1-based index `k` is no larger than its parent. */
  predicate BelowParent<T>(s: seq<T>, cmp: Compare<T>, k: nat)
    requires 2 <= k <= |s|
  {
    cmp(s[k - 1], s[k / 2 - 1]) <= 0
  }

  /** The subtrees of indexes from `lo` on are heaps within the first `cnt` elements. */
  ghost predicate Heap<T>(s: seq<T>, cmp: Compare<T>, lo: nat, cnt: nat)
    requires cnt <= |s|
  {
    forall k: nat :: 2 <= k <= cnt && k / 2 >= lo ==> BelowParent(s, cmp, k)
  }

  /** The same but for the children of `hole`, which may be larger than it, though not
      larger than its parent. */
  ghost predicate HeapButFor<T>(s: seq<T>, cmp: Compare<T>, lo: nat, cnt: nat, hole: nat)
    requires cnt <= |s|
  {
    && (forall k: nat :: 2 <= k <= cnt && k / 2 >= lo && k / 2 != hole ==> BelowParent(s, cmp, k))
    && (hole / 2 >= lo && hole / 2 >= 1 ==>
          forall k: nat :: 2 <= k <= cnt && k / 2 == hole ==> cmp(s[k - 1], s[hole / 2 - 1]) <= 0)
  }

  function Swapped<T>(s: seq<T>, i: nat, j: nat): (r: seq<T>)
    requires 1 <= i <= |s| && 1 <= j <= |s|
    ensures |r| == |s|
  {
    s[i - 1 := s[j - 1]][j - 1 := s[i - 1]]
  }

  /** do_swap of two whole elements */
  method Swap<T>(a: array<T>, i: nat, j: nat)
    requires 1 <= i <= a.Length && 1 <= j <= a.Length
    modifies a
    ensures a[..] == Swapped(old(a[..]), i, j)
  {
    a[i - 1], a[j - 1] := a[j - 1], a[i - 1];
  }

  /** Moving the hole down to its larger child. */
  lemma HoleDown<T(!new)>(s: seq<T>, cmp: Compare<T>, lo: nat, cnt: nat, hole: nat, max: nat)
    requires TotalPreorder(cmp) && cnt <= |s| && 1 <= lo <= hole && HeapButFor(s, cmp, lo, cnt, hole)
    requires 1 <= max <= cnt && max / 2 == hole && cmp(s[max - 1], s[hole - 1]) > 0 && Tops(s, cmp, hole, cnt, max)
    ensures HeapButFor(Swapped(s, hole, max), cmp, lo, cnt, max)
  {
    var r := Swapped(s, hole, max);
    forall k: nat | 2 <= k <= cnt && k / 2 >= lo && k / 2 != max ensures BelowParent(r, cmp, k) {
      if k / 2 == hole {
        if k != max {
          assert r[k - 1] == s[k - 1];
        }
      } else if k == hole {
        assert cmp(s[max - 1], s[hole / 2 - 1]) <= 0;
      } else {
        assert BelowParent(s, cmp, k);
      }
    }
    forall k: nat | 2 <= k <= cnt && k / 2 == max ensures cmp(r[k - 1], r[max / 2 - 1]) <= 0 {
      assert BelowParent(s, cmp, k);
    }
  }

  lemma HoleFilled<T(!new)>(s: seq<T>, cmp: Compare<T>, lo: nat, cnt: nat, hole: nat)
    requires 1 <= hole <= cnt <= |s| && HeapButFor(s, cmp, lo, cnt, hole) && Tops(s, cmp, hole, cnt, hole)
    ensures Heap(s, cmp, lo, cnt)
  {
  }

  /** Only the first `cnt` elements have changed places. */
  ghost predicate Shuffled<T>(s: seq<T>, r: seq<T>, cnt: nat) {
    && cnt <= |s| == |r|
    && multiset(r[..cnt]) == multiset(s[..cnt])
    && r[cnt..] == s[cnt..]
  }

  lemma SwapShuffles<T>(s: seq<T>, i: nat, j: nat, cnt: nat)
    requires 1 <= i <= cnt <= |s| && 1 <= j <= cnt
    ensures Shuffled(s, Swapped(s, i, j), cnt)
  {
    var r := Swapped(s, i, j);
    assert r[..cnt] == Swapped(s[..cnt], i, j);
  }

  lemma ShuffledTwice<T>(s: seq<T>, r: seq<T>, q: seq<T>, cnt: nat)
    requires Shuffled(s, r, cnt) && Shuffled(r, q, cnt)
    ensures Shuffled(s, q, cnt)
  {
  }

  lemma HoleStart<T(!new)>(s: seq<T>, cmp: Compare<T>, i: nat, cnt: nat)
    requires cnt <= |s| && Heap(s, cmp, i + 1, cnt)
    ensures HeapButFor(s, cmp, i, cnt, i) && Shuffled(s, s, cnt)
  {
  }

  /** heapify: makes the subtree of `i` a heap if those below it are. */
  method Heapify<T(!new)>(a: array<T>, i: nat, cnt: nat, cmp: Compare<T>)
    requires TotalPreorder(cmp) && 1 <= i && i <= cnt <= a.Length && Heap(a[..], cmp, i + 1, cnt)
    modifies a
    ensures Heap(a[..], cmp, i, cnt) && Shuffled(old(a[..]), a[..], cnt)
  {
    HoleStart(a[..], cmp, i, cnt);
    hide Heap, HeapButFor, Shuffled, TotalPreorder, Swapped, Tops;
    var hole := i;
    while true
      invariant i <= hole <= cnt
      invariant HeapButFor(a[..], cmp, i, cnt, hole) && Shuffled(old(a[..]), a[..], cnt)
      decreases cnt - hole
    {
      var max := LargestOf(a, hole, cnt, cmp);
      ghost var s := a[..];
      if max == hole {
        HoleFilled(s, cmp, i, cnt, hole);
        break;
      }
      HoleDown(s, cmp, i, cnt, hole, max);
      SwapShuffles(s, hole, max, cnt);
      Swap(a, hole, max);
      ShuffledTwice(old(a[..]), s, a[..], cnt);
      hole := max;
    }
  }

  /** The children of `hole` are no larger than the element at `max`. */
  ghost predicate Tops<T>(s: seq<T>, cmp: Compare<T>, hole: nat, cnt: nat, max: nat)
    requires 1 <= max <= cnt <= |s|
  {
    forall k: nat :: 2 <= k <= cnt && k / 2 == hole ==> cmp(s[k - 1], s[max - 1]) <= 0
  }

  /** The index of a largest among an element and its children. */
  method LargestOf<T(!new)>(a: array<T>, hole: nat, cnt: nat, cmp: Compare<T>) returns (max: nat)
    requires TotalPreorder(cmp) && 1 <= hole <= cnt <= a.Length
    ensures 1 <= max <= cnt && Tops(a[..], cmp, hole, cnt, max)
    ensures max != hole ==> max / 2 == hole && max > hole && cmp(a[max - 1], a[hole - 1]) > 0
  {
    var left := 2 * hole;
    var right := 2 * hole + 1;
    max := hole;
    if left <= cnt && cmp(a[left - 1], a[max - 1]) > 0 {
      max := left;
    }
    if right <= cnt && cmp(a[right - 1], a[max - 1]) > 0 {
      max := right;
    }
    MaxOfThree(a[..], cmp, hole, cnt, max);
  }

  /** `max` is chosen as a largest among an element and its children. */
  lemma MaxOfThree<T(!new)>(s: seq<T>, cmp: Compare<T>, hole: nat, cnt: nat, max: nat)
    requires TotalPreorder(cmp) && 1 <= hole <= cnt <= |s|
    requires var m1 := if 2 * hole <= cnt && cmp(s[2 * hole - 1], s[hole - 1]) > 0 then 2 * hole else hole;
             max == if 2 * hole + 1 <= cnt && cmp(s[2 * hole], s[m1 - 1]) > 0 then 2 * hole + 1 else m1
    ensures 1 <= max <= cnt && Tops(s, cmp, hole, cnt, max)
    ensures max != hole ==> max / 2 == hole && max > hole && cmp(s[max - 1], s[hole - 1]) > 0
  {
    forall k: nat | 2 <= k <= cnt && k / 2 == hole ensures cmp(s[k - 1], s[max - 1]) <= 0 {
      assert k == 2 * hole || k == 2 * hole + 1;
    }
  }

  /** The root of a heap is a largest element. */
  lemma {:induction false} RootIsMax<T(!new)>(s: seq<T>, cmp: Compare<T>, cnt: nat, k: nat)
    requires TotalPreorder(cmp) && 1 <= k <= cnt <= |s| && Heap(s, cmp, 1, cnt)
    ensures cmp(s[k - 1], s[0]) <= 0
    decreases k
  {
    if k > 1 {
      assert BelowParent(s, cmp, k);
      RootIsMax(s, cmp, cnt, k / 2);
    }
  }

  // ---------------------------------------------------------------- sorting

  ghost predicate Ordered<T>(s: seq<T>, cmp: Compare<T>, from: nat) {
    forall i, j :: from <= i <= j < |s| ==> cmp(s[i], s[j]) <= 0
  }

  /** The elements from `n` on are in order and none before them is larger. */
  ghost predicate TailDone<T>(s: seq<T>, cmp: Compare<T>, n: nat) {
    && Ordered(s, cmp, n)
    && forall i, j :: 0 <= i < n <= j < |s| ==> cmp(s[i], s[j]) <= 0
  }

  lemma ShuffledHas<T>(s: seq<T>, r: seq<T>, cnt: nat, i: nat)
    requires Shuffled(s, r, cnt) && i < cnt
    ensures exists j :: 0 <= j < cnt && s[j] == r[i]
  {
    assert r[..cnt][i] in multiset(r[..cnt]);
    assert r[i] in s[..cnt];
  }

  lemma TailKept<T(!new)>(s: seq<T>, r: seq<T>, cmp: Compare<T>, n: nat)
    requires Shuffled(s, r, n) && TailDone(s, cmp, n)
    ensures TailDone(r, cmp, n)
  {
    forall j | n <= j < |s| ensures r[j] == s[j] {
      assert r[n..][j - n] == s[n..][j - n];
    }
    forall i, j | 0 <= i < n <= j < |r| ensures cmp(r[i], r[j]) <= 0 {
      ShuffledHas(s, r, n, i);
    }
  }

  /** Swapping the root of the heap behind it puts one more element in place. */
  lemma OneMoreDone<T(!new)>(s: seq<T>, cmp: Compare<T>, n: nat)
    requires TotalPreorder(cmp) && 2 <= n <= |s| && Heap(s, cmp, 1, n) && TailDone(s, cmp, n)
    ensures TailDone(Swapped(s, 1, n), cmp, n - 1)
    ensures Heap(Swapped(s, 1, n), cmp, 2, n - 1)
  {
    var r := Swapped(s, 1, n);
    forall i | 0 <= i < n ensures cmp(r[i], r[n - 1]) <= 0 {
      RootIsMax(s, cmp, n, if i == 0 then n else if i == n - 1 then 1 else i + 1);
    }
    forall k: nat | 2 <= k <= n - 1 && k / 2 >= 2 ensures BelowParent(r, cmp, k) {
      assert BelowParent(s, cmp, k);
    }
  }

  lemma WholeShuffle<T>(s: seq<T>, r: seq<T>, cnt: nat)
    requires Shuffled(s, r, cnt)
    ensures multiset(r) == multiset(s)
  {
    assert s == s[..cnt] + s[cnt..] && r == r[..cnt] + r[cnt..];
  }

  /** sort */
  method Sort<T(!new)>(a: array<T>, cmp: Compare<T>)
    requires TotalPreorder(cmp)
    modifies a
    ensures Ordered(a[..], cmp, 0) && multiset(a[..]) == multiset(old(a[..]))
  {
    var cnt := a.Length;
    var i := cnt / 2;
    while i > 0
      invariant 0 <= i <= cnt / 2 && Heap(a[..], cmp, i + 1, cnt)
      invariant multiset(a[..]) == multiset(old(a[..]))
    {
      ghost var s := a[..];
      Heapify(a, i, cnt, cmp);
      WholeShuffle(s, a[..], cnt);
      i := i - 1;
    }
    i := cnt;
    while i > 1
      invariant 0 <= i <= cnt && Heap(a[..], cmp, 1, i) && TailDone(a[..], cmp, i)
      invariant multiset(a[..]) == multiset(old(a[..]))
    {
      ghost var s := a[..];
      OneMoreDone(s, cmp, i);
      SwapShuffles(s, 1, i, i);
      Swap(a, 1, i);
      WholeShuffle(s, a[..], i);
      ghost var r := a[..];
      Heapify(a, 1, i - 1, cmp);
      TailKept(r, a[..], cmp, i - 1);
      WholeShuffle(r, a[..], i - 1);
      i := i - 1;
    }
    LastDone(a[..], cmp, i);
  }

  lemma LastDone<T(!new)>(s: seq<T>, cmp: Compare<T>, n: nat)
    requires TotalPreorder(cmp) && n <= 1 && TailDone(s, cmp, n)
    ensures Ordered(s, cmp, 0)
  {
  }

  // ---------------------------------------------------------------- binary search

  /** binary_search: finds a match exactly when there is one. */
  method BinarySearch<T(!new)>(key: T, a: array<T>, cmp: Compare<T>) returns (r: Option<nat>)
    requires TotalPreorder(cmp) && Ordered(a[..], cmp, 0)
    ensures r.Some? ==> r.value < a.Length && cmp(key, a[r.value]) == 0
    ensures r.None? ==> forall k :: 0 <= k < a.Length ==> cmp(key, a[k]) != 0
  {
    var first, last := 0, a.Length;
    while first < last
      invariant 0 <= first <= last <= a.Length
      invariant forall k :: 0 <= k < first ==> cmp(key, a[k]) > 0
      invariant forall k :: last <= k < a.Length ==> cmp(key, a[k]) < 0
      decreases last - first
    {
      var range := last - first;
      var middle := first + range / 2;
      var c := cmp(key, a[middle]);
      if c < 0 {
        forall k | middle <= k < a.Length ensures cmp(key, a[k]) < 0 {
          Before(key, a[..][middle], a[..][k], cmp);
        }
        last := middle;
      } else if c > 0 {
        forall k | 0 <= k <= middle ensures cmp(key, a[k]) > 0 {
          After(key, a[..][middle], a[..][k], cmp);
        }
        first := middle + 1;
      } else {
        return Some(middle);
      }
    }
    return None;
  }

  lemma Before<T(!new)>(key: T, x: T, y: T, cmp: Compare<T>)
    requires TotalPreorder(cmp) && cmp(key, x) < 0 && cmp(x, y) <= 0
    ensures cmp(key, y) < 0
  {
  }

  lemma After<T(!new)>(key: T, x: T, y: T, cmp: Compare<T>)
    requires TotalPreorder(cmp) && cmp(key, x) > 0 && cmp(y, x) <= 0
    ensures cmp(key, y) > 0
  {
  }
}
