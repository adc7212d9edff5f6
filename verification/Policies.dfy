/** The replacement policies of the page simulator as functions on the queue of
    resident addresses, and the theorems about whole traces. */
module Policies {
  import opened Sequences

  /** FIFO and LRU handle a miss alike and differ only in what a hit does to the queue. */
  datatype Policy = FIFO | LRU

  function IndexOf(q: seq<int>, a: int): (k: nat)
    requires a in q
    ensures k < |q| && q[k] == a && a !in q[..k]
  {
    if q[0] == a then 0 else 1 + IndexOf(q[1..], a)
  }

  function Without(q: seq<int>, a: int): (r: seq<int>)
    requires a in q
  {
    q[..IndexOf(q, a)] + q[IndexOf(q, a) + 1..]
  }

  /** The set of addresses occurring in a trace. */
  function Addresses(t: seq<int>): set<int> {
    set a | a in t
  }

  function OnHit(policy: Policy, q: seq<int>, a: int): seq<int>
    requires a in q
  {
    match policy
    case FIFO => q
    case LRU => Without(q, a) + [a]
  }

  function OnMiss(pages: nat, q: seq<int>, a: int): seq<int> {
    if |q| == pages && |q| > 0 then q[1..] + [a] else q + [a]
  }

  function Access(policy: Policy, pages: nat, q: seq<int>, a: int): seq<int> {
    if a in q then OnHit(policy, q, a) else OnMiss(pages, q, a)
  }

  /** The resident addresses, next victim first, after a whole trace. */
  function Resident(policy: Policy, pages: nat, t: seq<int>): seq<int> {
    if t == [] then []
    else Access(policy, pages, Resident(policy, pages, t[..|t| - 1]), t[|t| - 1])
  }

  predicate FaultAt(policy: Policy, pages: nat, t: seq<int>, i: nat)
    requires i < |t|
  {
    t[i] !in Resident(policy, pages, t[..i])
  }

  function Faults(policy: Policy, pages: nat, t: seq<int>): nat {
    if t == [] then 0
    else Faults(policy, pages, t[..|t| - 1]) + if FaultAt(policy, pages, t, |t| - 1) then 1 else 0
  }

  // ---------------------------------------------------------------- basic facts

  lemma WithoutFacts(q: seq<int>, a: int)
    requires a in q && Distinct(q)
    ensures |Without(q, a)| == |q| - 1
    ensures Distinct(Without(q, a) + [a])
    ensures forall b :: b in Without(q, a) <==> b in q && b != a
  {
    var k := IndexOf(q, a);
    var w := Without(q, a);
    forall b ensures b in w <==> b in q && b != a {
      if b in q && b != a {
        var j :| 0 <= j < |q| && q[j] == b;
        assert if j < k then w[j] == b else w[j - 1] == b;
      }
    }
  }

  lemma AccessFacts(policy: Policy, pages: nat, q: seq<int>, a: int)
    requires pages > 0 && Distinct(q) && |q| <= pages
    ensures Distinct(Access(policy, pages, q, a))
    ensures |Access(policy, pages, q, a)| <= pages
    ensures a in Access(policy, pages, q, a)
    ensures forall b :: b in Access(policy, pages, q, a) ==> b in q || b == a
  {
    if a in q {
      WithoutFacts(q, a);
    }
  }

  lemma {:induction false} ResidentFacts(policy: Policy, pages: nat, t: seq<int>)
    requires pages > 0
    ensures Distinct(Resident(policy, pages, t))
    ensures |Resident(policy, pages, t)| <= pages
    ensures forall b :: b in Resident(policy, pages, t) ==> b in t
  {
    if t != [] {
      var p := t[..|t| - 1];
      ResidentFacts(policy, pages, p);
      AccessFacts(policy, pages, Resident(policy, pages, p), t[|t| - 1]);
    }
  }

  lemma ResidentExtend(policy: Policy, pages: nat, t: seq<int>, i: nat)
    requires i < |t|
    ensures Resident(policy, pages, t[..i + 1]) == Access(policy, pages, Resident(policy, pages, t[..i]), t[i])
  {
    assert t[..i + 1][..i] == t[..i];
  }

  // ---------------------------------------------------------------- conservativeness

  /** `a` is resident and everything queued behind it belongs to `window`. */
  ghost predicate Sheltered(q: seq<int>, a: int, window: set<int>) {
    a in q && forall j :: IndexOf(q, a) < j < |q| ==> q[j] in window
  }

  lemma IndexUnique(q: seq<int>, a: int, k: nat)
    requires Distinct(q) && k < |q| && q[k] == a
    ensures IndexOf(q, a) == k
  {
  }

  lemma DistinctCard(q: seq<int>, s: set<int>)
    requires Distinct(q) && forall j :: 0 <= j < |q| ==> q[j] in s
    ensures |q| <= |s|
  {
    if q != [] {
      var last := q[|q| - 1];
      DistinctCard(q[..|q| - 1], s - {last});
    }
  }

  lemma ShelterStep(policy: Policy, pages: nat, q: seq<int>, a: int, x: int, window: set<int>)
    requires pages > 0 && Distinct(q) && |q| <= pages
    requires Sheltered(q, a, window) && a in window && x in window && |window| <= pages
    ensures Sheltered(Access(policy, pages, q, x), a, window)
  {
    var k := IndexOf(q, a);
    var r := Access(policy, pages, q, x);
    AccessFacts(policy, pages, q, x);
    if x in q {
      var m := IndexOf(q, x);
      if policy == LRU {
        if m < k {
          assert r[k - 1] == a;
          IndexUnique(r, a, k - 1);
        } else if m == k {
          IndexUnique(r, a, |r| - 1);
        } else {
          assert r[k] == a;
          IndexUnique(r, a, k);
        }
      }
    } else if |q| == pages {
      if k == 0 {
        // the whole queue and x would be more than |window| distinct window addresses
        DistinctCard(q + [x], window);
        assert false;
      } else {
        assert r[k - 1] == a;
        IndexUnique(r, a, k - 1);
      }
    } else {
      IndexUnique(r, a, k);
    }
  }

  lemma JustLoaded(policy: Policy, pages: nat, q: seq<int>, a: int, window: set<int>)
    requires pages > 0 && Distinct(q) && |q| <= pages && a !in q
    ensures Sheltered(Access(policy, pages, q, a), a, window)
  {
    var r := Access(policy, pages, q, a);
    AccessFacts(policy, pages, q, a);
    assert r[|r| - 1] == a;
    IndexUnique(r, a, |r| - 1);
  }

  lemma ShelterWider(q: seq<int>, a: int, small: set<int>, large: set<int>)
    requires Sheltered(q, a, small) && small <= large
    ensures Sheltered(q, a, large)
  {
  }

  lemma WindowGrows(t: seq<int>, lo: nat, j: nat)
    requires lo < j <= |t|
    ensures Addresses(t[lo..j]) == Addresses(t[lo..j - 1]) + {t[j - 1]}
    ensures |Addresses(t[lo..j - 1])| <= |Addresses(t[lo..j])|
  {
    assert t[lo..j] == t[lo..j - 1] + [t[j - 1]];
    SubsetCard(Addresses(t[lo..j - 1]), Addresses(t[lo..j]));
  }

  /** Once an address has been loaded inside a window with at most `pages`
      distinct addresses it stays resident to the end of the window. */
  lemma {:induction false} StaysResident(policy: Policy, pages: nat, t: seq<int>, lo: nat, i: nat, j: nat)
    requires pages > 0 && lo <= i < j <= |t|
    requires FaultAt(policy, pages, t, i)
    requires |Addresses(t[lo..j])| <= pages
    ensures Sheltered(Resident(policy, pages, t[..j]), t[i], Addresses(t[lo..j]))
    decreases j
  {
    hide Distinct, Sheltered, Access, Addresses;
    var a, window := t[i], Addresses(t[lo..j]);
    var q := Resident(policy, pages, t[..j - 1]);
    ResidentFacts(policy, pages, t[..j - 1]);
    ResidentExtend(policy, pages, t, j - 1);
    WindowGrows(t, lo, j);
    if j == i + 1 {
      JustLoaded(policy, pages, q, a, window);
    } else {
      StaysResident(policy, pages, t, lo, i, j - 1);
      ShelterWider(q, a, Addresses(t[lo..j - 1]), window);
      InWindow(t, lo, i, j);
      ShelterStep(policy, pages, q, a, t[j - 1], window);
    }
  }

  lemma InWindow(t: seq<int>, lo: nat, i: nat, j: nat)
    requires lo <= i < j <= |t|
    ensures t[i] in Addresses(t[lo..j])
  {
    assert t[lo..j][i - lo] == t[i];
  }

  lemma SubsetCard(s: set<int>, u: set<int>)
    requires s <= u
    ensures |s| <= |u|
  {
    assert u == s + (u - s);
  }

  /** FIFO and LRU are conservative: in any window of any trace with at most
      `pages` distinct addresses no address faults twice. */
  lemma Conservative(policy: Policy, pages: nat, t: seq<int>, lo: nat, i: nat, j: nat, hi: nat)
    requires pages > 0 && lo <= i < j < hi <= |t|
    requires |Addresses(t[lo..hi])| <= pages
    requires t[i] == t[j] && FaultAt(policy, pages, t, i)
    ensures !FaultAt(policy, pages, t, j)
  {
    assert t[lo..hi][..j - lo] == t[lo..j];
    SubsetCard(Addresses(t[lo..j]), Addresses(t[lo..hi]));
    StaysResident(policy, pages, t, lo, i, j);
  }

  /** The addresses that fault at some position of `t[lo..hi]`. */
  ghost function Faulting(policy: Policy, pages: nat, t: seq<int>, lo: nat, hi: nat): set<int>
    requires lo <= hi <= |t|
  {
    set i | lo <= i < hi && FaultAt(policy, pages, t, i) :: t[i]
  }

  lemma FaultingGrows(policy: Policy, pages: nat, t: seq<int>, lo: nat, hi: nat)
    requires lo < hi <= |t|
    ensures Faulting(policy, pages, t, lo, hi)
         == Faulting(policy, pages, t, lo, hi - 1) + if FaultAt(policy, pages, t, hi - 1) then {t[hi - 1]} else {}
  {
  }

  lemma FaultingInWindow(policy: Policy, pages: nat, t: seq<int>, lo: nat, hi: nat)
    requires lo <= hi <= |t|
    ensures Faulting(policy, pages, t, lo, hi) <= Addresses(t[lo..hi])
  {
    forall a | a in Faulting(policy, pages, t, lo, hi) ensures a in Addresses(t[lo..hi]) {
      var i :| lo <= i < hi && FaultAt(policy, pages, t, i) && t[i] == a;
      assert t[lo..hi][i - lo] == a;
    }
  }

  lemma FaultIsNew(policy: Policy, pages: nat, t: seq<int>, lo: nat, hi: nat)
    requires pages > 0 && lo < hi <= |t| && |Addresses(t[lo..hi])| <= pages
    requires FaultAt(policy, pages, t, hi - 1)
    ensures t[hi - 1] !in Faulting(policy, pages, t, lo, hi - 1)
  {
    forall i | lo <= i < hi - 1 && FaultAt(policy, pages, t, i) ensures t[i] != t[hi - 1] {
      if t[i] == t[hi - 1] {
        Conservative(policy, pages, t, lo, i, hi - 1, hi);
      }
    }
  }

  /** ... so a window costs at most one fault for each of its distinct addresses. */
  lemma {:induction false} WindowCost(policy: Policy, pages: nat, t: seq<int>, lo: nat, hi: nat)
    requires pages > 0 && lo <= hi <= |t|
    requires |Addresses(t[lo..hi])| <= pages
    ensures Faults(policy, pages, t[..hi]) - Faults(policy, pages, t[..lo]) == |Faulting(policy, pages, t, lo, hi)|
    ensures |Faulting(policy, pages, t, lo, hi)| <= |Addresses(t[lo..hi])|
    decreases hi
  {
    hide *;
    FaultingInWindow(policy, pages, t, lo, hi);
    SubsetCard(Faulting(policy, pages, t, lo, hi), Addresses(t[lo..hi]));
    if lo == hi {
      FaultingEmpty(policy, pages, t, lo);
    } else {
      WindowGrows(t, lo, hi);
      WindowCost(policy, pages, t, lo, hi - 1);
      FaultsExtend(policy, pages, t, hi - 1);
      FaultingCard(policy, pages, t, lo, hi);
    }
  }

  lemma FaultingEmpty(policy: Policy, pages: nat, t: seq<int>, lo: nat)
    requires lo <= |t|
    ensures Faulting(policy, pages, t, lo, lo) == {}
  {
  }

  lemma FaultingCard(policy: Policy, pages: nat, t: seq<int>, lo: nat, hi: nat)
    requires pages > 0 && lo < hi <= |t| && |Addresses(t[lo..hi])| <= pages
    ensures |Faulting(policy, pages, t, lo, hi)|
         == |Faulting(policy, pages, t, lo, hi - 1)| + if FaultAt(policy, pages, t, hi - 1) then 1 else 0
  {
    hide *;
    FaultingGrows(policy, pages, t, lo, hi);
    if FaultAt(policy, pages, t, hi - 1) {
      FaultIsNew(policy, pages, t, lo, hi);
    }
  }

  lemma FaultsExtend(policy: Policy, pages: nat, t: seq<int>, i: nat)
    requires i < |t|
    ensures Faults(policy, pages, t[..i + 1])
         == Faults(policy, pages, t[..i]) + if FaultAt(policy, pages, t, i) then 1 else 0
  {
    assert t[..i + 1][..i] == t[..i];
  }

  // ---------------------------------------------------------------- FIFO evicts by age

  /** The last access that loaded `a`, or -1. */
  function LastLoad(policy: Policy, pages: nat, t: seq<int>, a: int): (k: int)
    ensures -1 <= k < |t|
    ensures k >= 0 ==> t[k] == a && FaultAt(policy, pages, t, k)
    ensures forall j: nat :: k < j < |t| && t[j] == a ==> !FaultAt(policy, pages, t, j)
  {
    if t == [] then -1
    else
      var n := |t| - 1;
      assert forall i: nat {:trigger FaultAt(policy, pages, t, i)} :: i < n ==> t[..n][..i] == t[..i];
      if t[n] == a && FaultAt(policy, pages, t, n) then n else LastLoad(policy, pages, t[..n], a)
  }

  ghost predicate ByLastLoad(pages: nat, t: seq<int>, q: seq<int>) {
    && (forall i :: 0 <= i < |q| ==> 0 <= LastLoad(FIFO, pages, t, q[i]))
    && (forall i, j :: 0 <= i < j < |q| ==> LastLoad(FIFO, pages, t, q[i]) < LastLoad(FIFO, pages, t, q[j]))
  }

  /** What the FIFO list means: its addresses stand in the order in which they were last
      loaded, whatever hits came since, so that the victim is the one loaded longest ago. */
  lemma {:induction false} FifoMeaning(pages: nat, t: seq<int>)
    requires pages > 0
    ensures ByLastLoad(pages, t, Resident(FIFO, pages, t))
  {
    if t != [] {
      var p, a := t[..|t| - 1], t[|t| - 1];
      var q := Resident(FIFO, pages, p);
      FifoMeaning(pages, p);
      forall i | 0 <= i < |q| ensures LastLoad(FIFO, pages, t, q[i]) == LastLoad(FIFO, pages, p, q[i]) {
        assert q[i] in q;
      }
      if a !in q {
        assert LastLoad(FIFO, pages, t, a) == |t| - 1;
      }
      assert Resident(FIFO, pages, t) == Access(FIFO, pages, q, a);
      hide LastLoad, Resident;
      LoadStep(pages, t, q);
    }
  }

  lemma LoadStep(pages: nat, t: seq<int>, q: seq<int>)
    requires t != [] && ByLastLoad(pages, t[..|t| - 1], q)
    requires forall i :: 0 <= i < |q| ==> LastLoad(FIFO, pages, t, q[i]) == LastLoad(FIFO, pages, t[..|t| - 1], q[i])
    requires t[|t| - 1] !in q ==> LastLoad(FIFO, pages, t, t[|t| - 1]) == |t| - 1
    ensures ByLastLoad(pages, t, Access(FIFO, pages, q, t[|t| - 1]))
  {
    hide LastLoad;
    var s := q + [t[|t| - 1]];
    if t[|t| - 1] !in q {
      assert forall i :: 0 <= i < |s| ==> s[i] == if i < |q| then q[i] else t[|t| - 1];
      assert ByLastLoad(pages, t, s);
    }
  }

  /** The addresses of the faulting accesses, in order. */
  function Loads(policy: Policy, pages: nat, t: seq<int>): seq<int> {
    if t == [] then []
    else Loads(policy, pages, t[..|t| - 1]) + if FaultAt(policy, pages, t, |t| - 1) then [t[|t| - 1]] else []
  }

  /** FIFO keeps exactly the addresses of the last `pages` loads, in their order. */
  lemma {:induction false} FifoIsLoadSuffix(pages: nat, t: seq<int>)
    requires pages > 0
    ensures Resident(FIFO, pages, t) == Suffix(Loads(FIFO, pages, t), pages)
    ensures |Loads(FIFO, pages, t)| == Faults(FIFO, pages, t)
  {
    if t != [] {
      var p, a := t[..|t| - 1], t[|t| - 1];
      FifoIsLoadSuffix(pages, p);
      StackMissNew(pages, Loads(FIFO, pages, p), a);
      assert FaultAt(FIFO, pages, t, |t| - 1) <==> a !in Resident(FIFO, pages, p);
      hide Suffix, OnMiss, FaultAt;
    }
  }

  /** What a trace adds to a list and its faults. */
  lemma {:induction false} OneMore(policy: Policy, pages: nat, t: seq<int>, a: int)
    ensures Resident(policy, pages, t + [a]) == Access(policy, pages, Resident(policy, pages, t), a)
    ensures Faults(policy, pages, t + [a])
         == Faults(policy, pages, t) + if a in Resident(policy, pages, t) then 0 else 1
  {
    assert (t + [a])[..|t|] == t && (t + [a])[|t|] == a;
  }

  /** A hit that saves its page under LRU does not under FIFO. */
  lemma HitsDoNotShelter()
    ensures Faults(FIFO, 2, [1, 2, 1, 3, 1]) == 4 && Faults(LRU, 2, [1, 2, 1, 3, 1]) == 3
  {
    forall policy ensures Resident(policy, 2, [1, 2]) == [1, 2] && Faults(policy, 2, [1, 2]) == 2 {
      FirstTwo(policy);
    }
    hide Resident, Faults;
    OneMore(FIFO, 2, [1, 2], 1);
    assert Resident(FIFO, 2, [1, 2] + [1]) == [1, 2];
    OneMore(FIFO, 2, [1, 2] + [1], 3);
    assert Resident(FIFO, 2, [1, 2] + [1] + [3]) == [2, 3];
    OneMore(FIFO, 2, [1, 2] + [1] + [3], 1);
    OneMore(LRU, 2, [1, 2], 1);
    assert Resident(LRU, 2, [1, 2] + [1]) == [2, 1];
    OneMore(LRU, 2, [1, 2] + [1], 3);
    assert Resident(LRU, 2, [1, 2] + [1] + [3]) == [1, 3];
    OneMore(LRU, 2, [1, 2] + [1] + [3], 1);
    assert [1, 2] + [1] + [3] + [1] == [1, 2, 1, 3, 1];
  }

  lemma FirstTwo(policy: Policy)
    ensures Resident(policy, 2, [1, 2]) == [1, 2] && Faults(policy, 2, [1, 2]) == 2
  {
    OneMore(policy, 2, [], 1);
    OneMore(policy, 2, [] + [1], 2);
    assert [] + [1] + [2] == [1, 2];
  }

  // ---------------------------------------------------------------- LRU is a stack algorithm

  /** All addresses of a trace in the order of their last use. */
  function Recency(t: seq<int>): seq<int> {
    if t == [] then []
    else
      var r := Recency(t[..|t| - 1]);
      var a := t[|t| - 1];
      (if a in r then Without(r, a) else r) + [a]
  }

  function LastUse(t: seq<int>, a: int): (k: nat)
    requires a in t
    ensures k < |t| && t[k] == a && a !in t[k + 1..]
  {
    if t[|t| - 1] == a then |t| - 1 else LastUse(t[..|t| - 1], a)
  }

  /** What `Recency` means: every address once, ordered by position of last use. */
  lemma {:induction false} RecencyMeaning(t: seq<int>)
    ensures Distinct(Recency(t))
    ensures forall a :: a in Recency(t) <==> a in t
    ensures forall i, j :: 0 <= i < j < |Recency(t)| ==> LastUse(t, Recency(t)[i]) < LastUse(t, Recency(t)[j])
  {
    if t != [] {
      RecencyMeaning(t[..|t| - 1]);
      RecencyStep(t);
    }
  }

  ghost predicate ByLastUse(t: seq<int>, r: seq<int>) {
    && Distinct(r)
    && SameMembers(r, t)
    && (forall i, j :: 0 <= i < j < |r| ==> LastUse(t, r[i]) < LastUse(t, r[j]))
  }

  lemma LastUseExtend(t: seq<int>, b: int)
    requires t != [] && b in t
    ensures if b == t[|t| - 1] then LastUse(t, b) == |t| - 1
            else b in t[..|t| - 1] && LastUse(t, b) == LastUse(t[..|t| - 1], b)
  {
    assert t == t[..|t| - 1] + [t[|t| - 1]];
  }

  lemma WithoutAt(q: seq<int>, a: int, i: nat) returns (j: nat)
    requires a in q && i < |q| - 1
    ensures j == (if i < IndexOf(q, a) then i else i + 1) && j != IndexOf(q, a)
    ensures |Without(q, a)| == |q| - 1 && Without(q, a)[i] == q[j]
  {
    j := if i < IndexOf(q, a) then i else i + 1;
  }

  /** Leaving one address out keeps the order of the others. */
  lemma WithoutOrdered(p: seq<int>, r: seq<int>, a: int, i: nat, j: nat)
    requires ByLastUse(p, r) && a in r && i < j < |r| - 1
    ensures |Without(r, a)| == |r| - 1
    ensures var w := Without(r, a); w[i] in p && w[j] in p && LastUse(p, w[i]) < LastUse(p, w[j])
  {
    var i' := WithoutAt(r, a, i);
    var j' := WithoutAt(r, a, j);
    assert r[i'] in r && r[j'] in r;
  }

  /** A newly used address goes behind all others. */
  lemma AppendOrdered(t: seq<int>, w: seq<int>, i: nat, j: nat)
    requires t != [] && i < j <= |w| && w[i] in t[..|t| - 1] && w[i] != t[|t| - 1]
    requires j < |w| ==> w[j] in t[..|t| - 1] && w[j] != t[|t| - 1]
    requires j < |w| ==> LastUse(t[..|t| - 1], w[i]) < LastUse(t[..|t| - 1], w[j])
    ensures var s := w + [t[|t| - 1]];
            s[i] in t && s[j] in t && LastUse(t, s[i]) < LastUse(t, s[j])
  {
    hide LastUse;
    SplitLast(t, w[i]);
    SplitLast(t, t[|t| - 1]);
    if j < |w| {
      SplitLast(t, w[j]);
    }
    LastUseExtend(t, w[i]);
    LastUseExtend(t, t[|t| - 1]);
    if j < |w| {
      LastUseExtend(t, w[j]);
    }
  }

  /** `Recency` without its newest entry. */
  ghost function Older(t: seq<int>): seq<int>
    requires t != []
  {
    var r := Recency(t[..|t| - 1]);
    if t[|t| - 1] in r then Without(r, t[|t| - 1]) else r
  }

  ghost predicate SameMembers(r: seq<int>, t: seq<int>) {
    forall a :: a in r <==> a in t
  }

  lemma PromoteMembers(p: seq<int>, r: seq<int>, a: int, w: seq<int>)
    requires Distinct(r) && SameMembers(r, p) && w == if a in r then Without(r, a) else r
    ensures Distinct(w + [a]) && SameMembers(w + [a], p + [a])
    ensures forall b :: b in w ==> b in p && b != a
  {
    if a in r {
      WithoutFacts(r, a);
    }
  }

  lemma RecencyMembers(t: seq<int>)
    requires t != [] && ByLastUse(t[..|t| - 1], Recency(t[..|t| - 1]))
    ensures Recency(t) == Older(t) + [t[|t| - 1]]
    ensures Distinct(Recency(t)) && SameMembers(Recency(t), t)
    ensures forall b :: b in Older(t) ==> b in t[..|t| - 1] && b != t[|t| - 1]
  {
    var p, a := t[..|t| - 1], t[|t| - 1];
    var r, w := Recency(p), Older(t);
    assert Distinct(r) && SameMembers(r, p) && Recency(t) == w + [a];
    assert w == if a in r then Without(r, a) else r;
    hide *;
    PromoteMembers(p, r, a, w);
    Rejoin(t);
  }

  lemma Rejoin(t: seq<int>)
    requires t != []
    ensures t[..|t| - 1] + [t[|t| - 1]] == t
  {
  }

  lemma SplitLast(t: seq<int>, b: int)
    requires t != []
    ensures b in t <==> b in t[..|t| - 1] || b == t[|t| - 1]
  {
    assert t == t[..|t| - 1] + [t[|t| - 1]];
  }

  lemma RecencyStep(t: seq<int>)
    requires t != [] && ByLastUse(t[..|t| - 1], Recency(t[..|t| - 1]))
    ensures ByLastUse(t, Recency(t))
  {
    RecencyMembers(t);
    var s, w := Recency(t), Older(t);
    forall i, j | 0 <= i < j < |s| ensures LastUse(t, s[i]) < LastUse(t, s[j]) {
      hide Recency, LastUse, Without, Distinct;
      RecencyPair(t, t[..|t| - 1], Recency(t[..|t| - 1]), w, i, j);
    }
  }

  lemma RecencyPair(t: seq<int>, p: seq<int>, r: seq<int>, w: seq<int>, i: nat, j: nat)
    requires t != [] && p == t[..|t| - 1] && ByLastUse(p, r) && i < j <= |w|
    requires w == if t[|t| - 1] in r then Without(r, t[|t| - 1]) else r
    requires forall b :: b in w ==> b in p && b != t[|t| - 1]
    ensures var s := w + [t[|t| - 1]];
            s[i] in t && s[j] in t && LastUse(t, s[i]) < LastUse(t, s[j])
  {
    assert w[i] in w && (j < |w| ==> w[j] in w);
    if j < |w| && t[|t| - 1] in r {
      WithoutLength(r, t[|t| - 1]);
      WithoutOrdered(p, r, t[|t| - 1], i, j);
    }
    AppendOrdered(t, w, i, j);
  }

  lemma WithoutLength(q: seq<int>, a: int)
    requires a in q
    ensures |Without(q, a)| == |q| - 1
  {
  }

  function Suffix(q: seq<int>, n: nat): seq<int> {
    if n <= |q| then q[|q| - n..] else q
  }

  lemma SuffixIn(q: seq<int>, n: nat, a: int)
    requires Distinct(q) && a in q
    ensures a in Suffix(q, n) <==> IndexOf(q, a) + n >= |q|
  {
    var k := IndexOf(q, a);
    var s := Suffix(q, n);
    if n <= |q| && k + n >= |q| {
      assert s[k + n - |q|] == a;
    }
  }

  /** Leaving out element `k` and dropping `d <= k` elements commute. */
  lemma DropThenLeaveOut(r: seq<int>, d: nat, k: nat, a: int)
    requires d <= k < |r|
    ensures r[d..][..k - d] + r[d..][k - d + 1..] + [a] == (r[..k] + r[k + 1..] + [a])[d..]
  {
    assert r[d..][..k - d] == r[d..k];
    assert r[d..][k - d + 1..] == r[k + 1..];
    assert (r[..k] + r[k + 1..] + [a])[d..] == r[d..k] + r[k + 1..] + [a];
  }

  lemma DropDistinct(r: seq<int>, d: nat)
    requires Distinct(r) && d <= |r|
    ensures Distinct(r[d..])
  {
  }

  lemma LeaveOutOfSuffix(r: seq<int>, d: nat, a: int)
    requires Distinct(r) && a in r && d <= IndexOf(r, a)
    ensures a in r[d..] && |Without(r, a)| == |r| - 1
    ensures Without(r[d..], a) + [a] == (Without(r, a) + [a])[d..]
  {
    hide Distinct, IndexOf;
    var k := IndexOf(r, a);
    assert r[d..][k - d] == a;
    DropDistinct(r, d);
    IndexUnique(r[d..], a, k - d);
    DropThenLeaveOut(r, d, k, a);
  }

  lemma StackHit(pages: nat, r: seq<int>, a: int)
    requires pages > 0 && Distinct(r) && a in r && a in Suffix(r, pages)
    ensures Without(Suffix(r, pages), a) + [a] == Suffix(Without(r, a) + [a], pages)
  {
    hide Without, IndexOf;
    SuffixIn(r, pages, a);
    LeaveOutOfSuffix(r, if pages <= |r| then |r| - pages else 0, a);
  }

  /** Leaving out an element that is dropped anyway. */
  lemma DropAfterLeaveOut(r: seq<int>, d: nat, k: nat, a: int)
    requires k < d < |r|
    ensures r[d..][1..] + [a] == (r[..k] + r[k + 1..] + [a])[d..]
  {
    assert r[d..][1..] == r[d + 1..];
    assert (r[..k] + r[k + 1..])[d..] == r[d + 1..];
  }

  lemma StackMiss(pages: nat, r: seq<int>, a: int)
    requires pages > 0 && Distinct(r) && a !in Suffix(r, pages)
    ensures OnMiss(pages, Suffix(r, pages), a)
         == Suffix((if a in r then Without(r, a) else r) + [a], pages)
  {
    hide Distinct, IndexOf;
    if a in r {
      SuffixIn(r, pages, a);
      var k := IndexOf(r, a);
      DropAfterLeaveOut(r, |r| - pages, k, a);
    } else {
      hide Without;
      StackMissNew(pages, r, a);
    }
  }

  lemma StackMissNew(pages: nat, r: seq<int>, a: int)
    requires pages > 0
    ensures OnMiss(pages, Suffix(r, pages), a) == Suffix(r + [a], pages)
  {
  }

  lemma StackStep(pages: nat, r: seq<int>, a: int)
    requires pages > 0 && Distinct(r)
    ensures Access(LRU, pages, Suffix(r, pages), a)
         == Suffix((if a in r then Without(r, a) else r) + [a], pages)
  {
    if a in Suffix(r, pages) {
      StackHit(pages, r, a);
    } else {
      StackMiss(pages, r, a);
    }
  }

  /** LRU keeps exactly the `pages` most recently used addresses, in recency order. */
  lemma {:induction false} LruIsRecencySuffix(pages: nat, t: seq<int>)
    requires pages > 0
    ensures Resident(LRU, pages, t) == Suffix(Recency(t), pages)
  {
    if t != [] {
      var p := t[..|t| - 1];
      LruIsRecencySuffix(pages, p);
      RecencyMeaning(p);
      StackStep(pages, Recency(p), t[|t| - 1]);
    }
  }

  /** The stack property: the smaller cache is a suffix of the larger one, always. */
  lemma LruInclusion(small: nat, large: nat, t: seq<int>)
    requires 0 < small <= large
    ensures Resident(LRU, small, t) == Suffix(Resident(LRU, large, t), small)
  {
    hide Resident, Recency, Suffix;
    LruIsRecencySuffix(small, t);
    LruIsRecencySuffix(large, t);
    SuffixOfSuffix(Recency(t), small, large);
  }

  lemma SuffixOfSuffix(q: seq<int>, small: nat, large: nat)
    requires small <= large
    ensures Suffix(Suffix(q, large), small) == Suffix(q, small)
  {
  }

  /** More memory never costs LRU a fault. */
  lemma {:induction false} LruFaultsMonotone(small: nat, large: nat, t: seq<int>)
    requires 0 < small <= large
    ensures Faults(LRU, large, t) <= Faults(LRU, small, t)
  {
    if t != [] {
      var p := t[..|t| - 1];
      LruFaultsMonotone(small, large, p);
      LruInclusion(small, large, p);
    }
  }
}
