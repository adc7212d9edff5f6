/** LRU as the program runs it.  A hit on a list with a single node unlinks the list
    from its head, and the next dereference of the head traps; this module says on
    exactly which traces that happens and that nothing else goes wrong. */
module LruFailure {
  import opened Sequences
  import opened Policies

  /** `headLost` records that `head` became null while nodes are still linked from `tail`. */
  datatype Run = Running(queue: seq<int>, headLost: bool, faults: nat) | Trapped

  function Step(pages: nat, run: Run, a: int): Run {
    match run
    case Trapped => Trapped
    case Running(q, headLost, faults) =>
      if a in q then
        if headLost then Trapped
        else Running(Without(q, a) + [a], |q| == 1, faults)
      else if |q| == pages then
        if headLost then Trapped
        else Running(OnMiss(pages, q, a), false, faults + 1)
      else Running(q + [a], headLost, faults + 1)
  }

  function RunLru(pages: nat, t: seq<int>): Run {
    if t == [] then Running([], false, 0)
    else Step(pages, RunLru(pages, t[..|t| - 1]), t[|t| - 1])
  }

  /** A test a caller can make on the trace alone.  With one page only the last two
      accesses may be equal; with more, if the first two accesses are equal then no
      address may come back and nothing may ever have to be evicted. */
  predicate Safe(pages: nat, t: seq<int>) {
    if pages == 1 then forall i :: 0 <= i < |t| - 2 ==> t[i] != t[i + 1]
    else |t| >= 2 && t[0] == t[1] ==> Distinct(t[1..]) && |t| - 1 <= pages
  }

  /** The head is lost right now: the one-node hit has happened. */
  predicate Lost(pages: nat, t: seq<int>) {
    && |t| >= 2
    && if pages == 1 then t[|t| - 2] == t[|t| - 1] else t[0] == t[1]
  }

  lemma ResidentAfterLoss(pages: nat, t: seq<int>)
    requires pages >= 2 && |t| >= 2 && t[0] == t[1] && Distinct(t[1..]) && |t| - 1 <= pages
    ensures Resident(LRU, pages, t) == t[1..]
    decreases |t|
  {
    var p, a := t[..|t| - 1], t[|t| - 1];
    if |t| == 2 {
      assert t[..1] == [t[0]] && t[..1][..0] == [];
      assert Resident(LRU, pages, t[..1]) == [t[0]];
    } else {
      assert p[1..] == t[1..][..|t| - 2];
      ResidentAfterLoss(pages, p);
      assert t[1..] == p[1..] + [a];
      assert a !in p[1..];
    }
  }

  lemma TwoDistinct(pages: nat, t: seq<int>)
    requires pages >= 2 && |t| >= 2 && t[0] != t[1]
    ensures |Resident(LRU, pages, t)| >= 2
    decreases |t|
  {
    var p, a := t[..|t| - 1], t[|t| - 1];
    ResidentFacts(LRU, pages, p);
    if |t| == 2 {
      assert t[..1] == [t[0]] && t[..1][..0] == [];
      assert Resident(LRU, pages, t[..1]) == [t[0]];
    } else {
      TwoDistinct(pages, p);
      if a in Resident(LRU, pages, p) {
        WithoutFacts(Resident(LRU, pages, p), a);
      }
    }
  }

  lemma OnePage(t: seq<int>)
    requires t != []
    ensures Resident(LRU, 1, t) == [t[|t| - 1]]
    decreases |t|
  {
    var p := t[..|t| - 1];
    if p != [] {
      OnePage(p);
    }
  }

  lemma SafePrefix(pages: nat, t: seq<int>)
    requires pages > 0 && t != [] && Safe(pages, t)
    ensures Safe(pages, t[..|t| - 1])
  {
    if pages >= 2 && |t| >= 3 && t[0] == t[1] {
      assert t[..|t| - 1][1..] == t[1..][..|t| - 2];
    }
  }

  /** When is the one more access unsafe? */
  lemma SafeExtend(pages: nat, t: seq<int>)
    requires pages > 0 && t != [] && Safe(pages, t[..|t| - 1])
    ensures var p, a := t[..|t| - 1], t[|t| - 1];
            Safe(pages, t) <==> !(Lost(pages, p) && (a in Resident(LRU, pages, p) || |Resident(LRU, pages, p)| == pages))
  {
    var p, a := t[..|t| - 1], t[|t| - 1];
    if pages == 1 {
      if p != [] {
        OnePage(p);
      }
    } else if Lost(pages, p) {
      ResidentAfterLoss(pages, p);
      assert t[1..] == p[1..] + [a];
      if a in p[1..] {
        var j :| 0 <= j < |p| - 1 && p[1..][j] == a;
        assert t[1..][j] == t[1..][|t| - 2];
      }
    }
  }

  lemma LostStep(pages: nat, t: seq<int>)
    requires pages > 0 && t != [] && Safe(pages, t)
    ensures var p, a := t[..|t| - 1], t[|t| - 1];
            var q := Resident(LRU, pages, p);
            Lost(pages, t) <==>
              if a in q then |q| == 1
              else if |q| == pages then false
              else Lost(pages, p)
  {
    var p, a := t[..|t| - 1], t[|t| - 1];
    if p != [] {
      if pages == 1 {
        OnePage(p);
      } else if |p| == 1 {
        assert p[..0] == [];
        assert Resident(LRU, pages, p) == [p[0]];
      } else if p[0] != p[1] {
        TwoDistinct(pages, p);
      } else {
        SafePrefix(pages, t);
        SafeExtend(pages, t);
        ResidentAfterLoss(pages, p);
        assert t[1..] == p[1..] + [a];
      }
    }
  }

  /** The program's LRU traps exactly on the unsafe traces; on every other trace it
      keeps the LRU queue and counts the LRU faults. */
  lemma {:induction false} TrapsExactlyWhenUnsafe(pages: nat, t: seq<int>)
    requires pages > 0
    ensures RunLru(pages, t) ==
            if Safe(pages, t) then Running(Resident(LRU, pages, t), Lost(pages, t), Faults(LRU, pages, t))
            else Trapped
  {
    if t != [] {
      var p := t[..|t| - 1];
      TrapsExactlyWhenUnsafe(pages, p);
      if Safe(pages, p) {
        SafeExtend(pages, t);
        if Safe(pages, t) {
          LostStep(pages, t);
        }
      } else if Safe(pages, t) {
        SafePrefix(pages, t);
      }
    }
  }

  /** Adding pages never makes a safe trace unsafe, so the comparison of fault
      counts below is between two runs that both finish. */
  lemma SafeMonotone(small: nat, large: nat, t: seq<int>)
    requires 0 < small <= large && Safe(small, t)
    ensures Safe(large, t)
  {
    if small == 1 && large >= 2 && |t| >= 2 && t[0] == t[1] {
      assert |t| == 2;
    }
  }

  /** What the program prints: more pages, no more faults. */
  lemma MorePagesNoMoreFaults(small: nat, large: nat, t: seq<int>)
    requires 0 < small <= large && RunLru(small, t).Running?
    ensures RunLru(large, t).Running? && RunLru(large, t).faults <= RunLru(small, t).faults
  {
    TrapsExactlyWhenUnsafe(small, t);
    TrapsExactlyWhenUnsafe(large, t);
    SafeMonotone(small, large, t);
    LruFaultsMonotone(small, large, t);
  }

  /** A concrete trace on which two pages and three accesses to one address trap. */
  lemma TrapExample()
    ensures RunLru(2, [7, 7, 7]) == Trapped
  {
    TrapsExactlyWhenUnsafe(2, [7, 7, 7]);
    assert [7, 7, 7][1..] == [7, 7];
  }
}
