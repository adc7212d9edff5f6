/** The trace loops of the simulator: each reads one address after another, keeps the
    linked list and the `present` table in step, and returns the number of faults. */
module PageReplacement {
  import opened Sequences
  import opened PageLists
  import Policies
  import LruFailure
  import Lfu

  datatype Outcome = Finished(faults: nat) | Trapped

  /** The table entry of an address says whether the address is in the list. */
  ghost predicate Agrees(present: seq<int>, q: seq<int>) {
    && (forall a :: 0 <= a < |present| ==> (present[a] != 0 <==> a in q))
    && (forall a :: a in q ==> 0 <= a < |present|)
  }

  predicate InTable(frames: nat, t: seq<int>) {
    forall i :: 0 <= i < |t| ==> 0 <= t[i] < frames + 5
  }

  lemma AgreesLoad(present: seq<int>, q: seq<int>, i: int)
    requires Agrees(present, q) && 0 <= i < |present|
    ensures Agrees(present[i := 1], q + [i]) && Agrees(present[i := 1], [i] + q)
  {
  }

  lemma AgreesEvict(present: seq<int>, q: seq<int>, i: int)
    requires Agrees(present, q) && 0 <= i < |present| && i !in q && |q| > 0 && Distinct(q)
    ensures 0 <= q[0] < |present| && Agrees(present[i := 1][q[0] := 0], q[1..] + [i]) && Agrees(present[i := 1][q[0] := 0], [i] + q[1..])
  {
    assert q[0] in q;
    forall a ensures a in q[1..] <==> a in q && a != q[0] {
      if a in q && a != q[0] {
        var j :| 0 <= j < |q| && q[j] == a;
        assert q[1..][j - 1] == a;
      }
    }
  }

  lemma AgreesMoved(present: seq<int>, q: seq<int>, k: nat)
    requires Agrees(present, q) && k < |q|
    ensures Agrees(present, Moved(q, k))
  {
    forall a ensures a in q <==> a in Moved(q, k) {
      if a in q {
        var j :| 0 <= j < |q| && q[j] == a;
        assert Moved(q, k)[if j < k then j else if j == k then |q| - 1 else j - 1] == a;
      }
    }
  }

  method SwapInTable(present: array<int>, i: int, rem: int)
    requires 0 <= i < present.Length && 0 <= rem < present.Length
    modifies present
    ensures present[..] == old(present[..])[i := 1][rem := 0]
  {
    present[i] := 1;
    present[rem] := 0;
  }

  /** Drops the head and appends `i`; with the head lost this traps. */
  method Replace(lst: LinkedList, i: int, ghost q: seq<int>) returns (r: Pop)
    requires lst.Chain() && lst.Tailed() && Named(lst.nodes, q) && |q| > 0
    modifies lst, lst.repr`next
    ensures r.Trap? <==> old(lst.headLost)
    ensures fresh(lst.repr - old(lst.repr))
    ensures r.Popped? ==> r.address == q[0]
    ensures r.Popped? ==> lst.Chain() && lst.Tailed() && !lst.headLost && Named(lst.nodes, q[1..] + [i])
  {
    NamedPopped(lst.nodes, q);
    r := lst.Pop();
    if r.Popped? {
      ghost var ns := lst.nodes;
      ghost var added := lst.Push(i);
      NamedPushed(ns, q[1..], added);
    }
  }

  /** The miss branch of FIFO and LRU when the list is full. */
  method Evict(lst: LinkedList, present: array<int>, i: int, ghost q: seq<int>) returns (trap: bool)
    requires lst.Chain() && lst.Tailed() && Named(lst.nodes, q) && |q| > 0
    requires Distinct(q) && Agrees(present[..], q) && 0 <= i < present.Length && i !in q
    modifies lst, lst.repr`next, present
    ensures trap <==> old(lst.headLost)
    ensures fresh(lst.repr - old(lst.repr))
    ensures !trap ==> lst.Chain() && lst.Tailed() && !lst.headLost
    ensures !trap ==> Named(lst.nodes, q[1..] + [i]) && Agrees(present[..], q[1..] + [i])
  {
    AgreesEvict(present[..], q, i);
    var rem := Replace(lst, i, q);
    trap := rem.Trap?;
    if !trap {
      SwapInTable(present, i, rem.address);
    }
  }

  /** The miss branch of FIFO and LRU while there is room. */
  method Fill(lst: LinkedList, present: array<int>, i: int, ghost q: seq<int>)
    requires lst.Chain() && lst.Tailed() && Named(lst.nodes, q)
    requires Agrees(present[..], q) && 0 <= i < present.Length
    modifies lst, lst.repr`next, present
    ensures fresh(lst.repr - old(lst.repr))
    ensures lst.Chain() && lst.Tailed() && lst.headLost == old(lst.headLost)
    ensures Named(lst.nodes, q + [i]) && Agrees(present[..], q + [i])
  {
    AgreesLoad(present[..], q, i);
    ghost var ns := lst.nodes;
    ghost var added := lst.Push(i);
    NamedPushed(ns, q, added);
    present[i] := 1;
  }

  method Fifo(pages: nat, frames: nat, t: seq<int>) returns (faults: nat)
    requires pages > 0 && InTable(frames, t)
    ensures faults == Policies.Faults(Policies.FIFO, pages, t)
  {
    var lst := new LinkedList();
    var present := new int[frames + 5](_ => 0);
    faults := 0;
    ghost var q: seq<int> := [];
    for n := 0 to |t|
      invariant fresh(lst) && fresh(lst.repr)
      invariant lst.Chain() && lst.Tailed() && !lst.headLost && Named(lst.nodes, q)
      invariant q == Policies.Resident(Policies.FIFO, pages, t[..n])
      invariant faults == Policies.Faults(Policies.FIFO, pages, t[..n])
      invariant Agrees(present[..], q)
    {
      var i := t[n];
      Policies.ResidentFacts(Policies.FIFO, pages, t[..n]);
      Policies.ResidentExtend(Policies.FIFO, pages, t, n);
      Policies.FaultsExtend(Policies.FIFO, pages, t, n);
      if lst.size == pages {
        if present[i] == 0 {
          var trap := Evict(lst, present, i, q);
          faults := faults + 1;
          q := q[1..] + [i];
        }
      } else {
        if present[i] == 0 {
          faults := faults + 1;
          Fill(lst, present, i, q);
          q := q + [i];
        }
      }
    }
    assert t[..|t|] == t;
  }

  /** One turn of the LRU loop. */
  method LruAccess(lst: LinkedList, present: array<int>, pages: nat, i: int, faults: nat, ghost q: seq<int>)
    returns (trap: bool, count: nat, ghost r: seq<int>)
    requires lst.Chain() && lst.Tailed() && Named(lst.nodes, q)
    requires pages > 0 && Distinct(q) && Agrees(present[..], q) && 0 <= i < present.Length
    modifies lst, lst.repr`next, present
    ensures fresh(lst.repr - old(lst.repr))
    ensures LruFailure.Step(pages, LruFailure.Running(q, old(lst.headLost), faults), i)
         == if trap then LruFailure.Trapped else LruFailure.Running(r, lst.headLost, count)
    ensures !trap ==> lst.Chain() && lst.Tailed() && Named(lst.nodes, r) && Agrees(present[..], r)
  {
    trap, count, r := false, faults, q;
    if lst.size == pages {
      if present[i] == 0 {
        trap := Evict(lst, present, i, q);
        count := count + 1;
        r := q[1..] + [i];
      } else {
        trap, r := Touch(lst, present, i, q);
      }
    } else {
      if present[i] == 0 {
        count := count + 1;
        Fill(lst, present, i, q);
        r := q + [i];
      } else {
        trap, r := Touch(lst, present, i, q);
      }
    }
  }

  /** The hit branch of LRU. */
  method Touch(lst: LinkedList, present: array<int>, i: int, ghost q: seq<int>) returns (trap: bool, ghost r: seq<int>)
    requires lst.Chain() && lst.Tailed() && Named(lst.nodes, q) && i in q && Agrees(present[..], q)
    modifies lst, lst.repr`next
    ensures lst.repr == old(lst.repr) && r == Policies.Without(q, i) + [i]
    ensures trap <==> old(lst.headLost)
    ensures !trap ==> lst.Chain() && lst.Tailed() && Named(lst.nodes, r) && lst.headLost == (|q| == 1)
    ensures Agrees(present[..], r)
  {
    ghost var k := Policies.IndexOf(q, i);
    AgreesMoved(present[..], q, k);
    r := Moved(q, k);
    trap, k := lst.MoveBack(i, q);
  }

  /** LRU ends with the fault count on the safe traces and traps on all others. */
  method Lru(pages: nat, frames: nat, t: seq<int>) returns (r: Outcome)
    requires pages > 0 && InTable(frames, t)
    ensures r == if LruFailure.Safe(pages, t) then Finished(Policies.Faults(Policies.LRU, pages, t)) else Trapped
  {
    var lst := new LinkedList();
    var present := new int[frames + 5](_ => 0);
    var faults := 0;
    ghost var q: seq<int> := [];
    for n := 0 to |t|
      invariant fresh(lst) && fresh(lst.repr)
      invariant lst.Chain() && lst.Tailed() && Named(lst.nodes, q)
      invariant LruFailure.RunLru(pages, t[..n]) == LruFailure.Running(q, lst.headLost, faults)
      invariant Agrees(present[..], q)
    {
      RunExtend(pages, t, n);
      var trap;
      trap, faults, q := LruAccess(lst, present, pages, t[n], faults, q);
      if trap {
        TrapStays(pages, t, n + 1);
        return Trapped;
      }
    }
    assert t[..|t|] == t;
    LruFailure.TrapsExactlyWhenUnsafe(pages, t);
    r := Finished(faults);
  }

  lemma RunExtend(pages: nat, t: seq<int>, n: nat)
    requires pages > 0 && n < |t|
    ensures LruFailure.RunLru(pages, t[..n + 1]) == LruFailure.Step(pages, LruFailure.RunLru(pages, t[..n]), t[n])
    ensures LruFailure.RunLru(pages, t[..n]).Running? ==>
      Distinct(LruFailure.RunLru(pages, t[..n]).queue) && |LruFailure.RunLru(pages, t[..n]).queue| <= pages
  {
    assert t[..n + 1][..n] == t[..n];
    LruFailure.TrapsExactlyWhenUnsafe(pages, t[..n]);
    Policies.ResidentFacts(Policies.LRU, pages, t[..n]);
  }

  /** A trapped run stays trapped. */
  lemma TrapStays(pages: nat, t: seq<int>, n: nat)
    requires pages > 0 && n <= |t| && LruFailure.RunLru(pages, t[..n]) == LruFailure.Trapped
    ensures !LruFailure.Safe(pages, t)
    decreases |t| - n
  {
    if n < |t| {
      assert t[..n + 1][..n] == t[..n];
      TrapStays(pages, t, n + 1);
    } else {
      assert t[..n] == t;
      LruFailure.TrapsExactlyWhenUnsafe(pages, t);
    }
  }

  /** The addresses of a counted queue. */
  function AddressesOf(q: seq<Lfu.Entry>): (a: seq<int>)
    ensures |a| == |q| && forall i :: 0 <= i < |q| ==> a[i] == q[i].address
  {
    if q == [] then [] else [q[0].address] + AddressesOf(q[1..])
  }

  lemma HasIsMember(q: seq<Lfu.Entry>, i: int)
    ensures Lfu.Has(q, i) <==> i in AddressesOf(q)
  {
    if i in AddressesOf(q) {
      var k :| 0 <= k < |q| && AddressesOf(q)[k] == i;
      assert q[k].address == i;
    }
    if Lfu.Has(q, i) {
      assert AddressesOf(q)[Lfu.Find(q, i)] == i;
    }
  }

  lemma AgreesBumped(present: seq<int>, q: seq<Lfu.Entry>, i: int)
    requires Agrees(present, AddressesOf(q)) && Lfu.Has(q, i) && Lfu.Proper(q)
    ensures Agrees(present, AddressesOf(Lfu.Bump(q, i)))
  {
    var r := Lfu.Bump(q, i);
    forall a ensures a in AddressesOf(q) <==> a in AddressesOf(r) {
      BumpMembers(q, i, a);
    }
  }

  lemma BumpMembers(q: seq<Lfu.Entry>, i: int, a: int)
    requires Lfu.Has(q, i) && Lfu.Proper(q)
    ensures a in AddressesOf(q) <==> a in AddressesOf(Lfu.Bump(q, i))
  {
    var m, r := Lfu.Find(q, i), Lfu.Bump(q, i);
    Lfu.BumpProper(q, m);
    if a in AddressesOf(r) {
      var k :| 0 <= k < |r| && AddressesOf(r)[k] == a;
      var from := Lfu.BumpAtAt(q, m, k);
      assert AddressesOf(q)[from] == a;
    }
    if a in AddressesOf(q) {
      var j :| 0 <= j < |q| && AddressesOf(q)[j] == a;
      var k := Lfu.BumpFrom(q, m, j);
      assert AddressesOf(r)[k] == a;
    }
  }

  /** One turn of the LFU loop. */
  method LfuAccess(lst: LinkedList, present: array<int>, pages: nat, i: int, faults: nat, ghost q: seq<Lfu.Entry>)
    returns (count: nat)
    requires lst.Chain() && !lst.headLost && Counted(lst.nodes, q)
    requires pages > 0 && Lfu.Proper(q) && Agrees(present[..], AddressesOf(q)) && 0 <= i < present.Length
    modifies lst, lst.repr`next, lst.repr`count, present
    ensures fresh(lst.repr - old(lst.repr))
    ensures count == faults + if Lfu.Has(q, i) then 0 else 1
    ensures lst.Chain() && !lst.headLost && Counted(lst.nodes, Lfu.Access(pages, q, i))
    ensures Agrees(present[..], AddressesOf(Lfu.Access(pages, q, i)))
  {
    count := faults;
    HasIsMember(q, i);
    if lst.size == pages {
      if present[i] == 0 {
        LfuEvict(lst, present, i, q);
        count := count + 1;
      } else {
        AgreesBumped(present[..], q, i);
        ghost var k, p := lst.UpdateCount(i, q);
      }
    } else {
      if present[i] == 0 {
        count := count + 1;
        LfuFill(lst, present, i, q);
      } else {
        AgreesBumped(present[..], q, i);
        ghost var k, p := lst.UpdateCount(i, q);
      }
    }
  }

  lemma ProperDistinct(q: seq<Lfu.Entry>)
    requires Lfu.Proper(q)
    ensures Distinct(AddressesOf(q))
  {
  }

  /** Drops the head and puts `i` in its place. */
  method LfuReplace(lst: LinkedList, i: int, ghost q: seq<Lfu.Entry>) returns (rem: int)
    requires lst.Chain() && !lst.headLost && Counted(lst.nodes, q) && |q| > 0
    modifies lst, lst.repr`next
    ensures fresh(lst.repr - old(lst.repr)) && rem == q[0].address
    ensures lst.Chain() && !lst.headLost && Counted(lst.nodes, [Lfu.Entry(i, 1)] + q[1..])
  {
    CountedPopped(lst.nodes, q);
    var popped := lst.Pop();
    rem := popped.address;
    ghost var ns := lst.nodes;
    ghost var added := lst.InsertFront(i);
    CountedFront(ns, q[1..], added);
  }

  method LfuEvict(lst: LinkedList, present: array<int>, i: int, ghost q: seq<Lfu.Entry>)
    requires lst.Chain() && !lst.headLost && Counted(lst.nodes, q) && |q| > 0
    requires Lfu.Proper(q) && Agrees(present[..], AddressesOf(q)) && 0 <= i < present.Length && i !in AddressesOf(q)
    modifies lst, lst.repr`next, present
    ensures fresh(lst.repr - old(lst.repr))
    ensures lst.Chain() && !lst.headLost && Counted(lst.nodes, [Lfu.Entry(i, 1)] + q[1..])
    ensures Agrees(present[..], AddressesOf([Lfu.Entry(i, 1)] + q[1..]))
  {
    assert AddressesOf([Lfu.Entry(i, 1)] + q[1..]) == [i] + AddressesOf(q)[1..];
    ProperDistinct(q);
    AgreesEvict(present[..], AddressesOf(q), i);
    var rem := LfuReplace(lst, i, q);
    SwapInTable(present, i, rem);
  }

  method LfuFill(lst: LinkedList, present: array<int>, i: int, ghost q: seq<Lfu.Entry>)
    requires lst.Chain() && !lst.headLost && Counted(lst.nodes, q)
    requires Agrees(present[..], AddressesOf(q)) && 0 <= i < present.Length
    modifies lst, lst.repr`next, present
    ensures fresh(lst.repr - old(lst.repr))
    ensures lst.Chain() && !lst.headLost && Counted(lst.nodes, [Lfu.Entry(i, 1)] + q)
    ensures Agrees(present[..], AddressesOf([Lfu.Entry(i, 1)] + q))
  {
    AgreesLoad(present[..], AddressesOf(q), i);
    assert AddressesOf([Lfu.Entry(i, 1)] + q) == [i] + AddressesOf(q);
    ghost var ns := lst.nodes;
    ghost var added := lst.InsertFront(i);
    CountedFront(ns, q, added);
    present[i] := 1;
  }

  method LfuRun(pages: nat, frames: nat, t: seq<int>) returns (faults: nat)
    requires pages > 0 && InTable(frames, t)
    ensures faults == Lfu.Faults(pages, t)
  {
    var lst := new LinkedList();
    var present := new int[frames + 5](_ => 0);
    faults := 0;
    LfuStart(pages, present[..]);
    assert Counted(lst.nodes, []);
    assert forall n :: 0 <= n < |t| ==> 0 <= t[n] < frames + 5;
    hide *;
    for n := 0 to |t|
      invariant fresh(lst) && fresh(lst.repr)
      invariant lst.Chain() && !lst.headLost && Counted(lst.nodes, Lfu.Resident(pages, t[..n]))
      invariant faults == Lfu.Faults(pages, t[..n])
      invariant Agrees(present[..], AddressesOf(Lfu.Resident(pages, t[..n])))
    {
      LfuStep(pages, t, n);
      Lfu.ResidentProper(pages, t[..n]);
      faults := LfuAccess(lst, present, pages, t[n], faults, Lfu.Resident(pages, t[..n]));
    }
    assert t[..|t|] == t;
  }

  lemma LfuStart(pages: nat, present: seq<int>)
    requires forall a :: 0 <= a < |present| ==> present[a] == 0
    ensures Lfu.Resident(pages, []) == [] && Lfu.Faults(pages, []) == 0 && Agrees(present, AddressesOf([]))
  {
  }

  lemma LfuStep(pages: nat, t: seq<int>, n: nat)
    requires n < |t|
    ensures Lfu.Resident(pages, t[..n + 1]) == Lfu.Access(pages, Lfu.Resident(pages, t[..n]), t[n])
    ensures Lfu.Faults(pages, t[..n + 1])
         == Lfu.Faults(pages, t[..n]) + if Lfu.Has(Lfu.Resident(pages, t[..n]), t[n]) then 0 else 1
  {
    hide Lfu.Access, Lfu.Has;
    assert t[..n + 1][..n] == t[..n];
  }
}
