/** LFU as a function on a queue of counted addresses, and what the counts mean. */
module Lfu {
  import Policies

  datatype Entry = Entry(address: int, count: int)

  predicate Has(q: seq<Entry>, a: int) {
    exists k :: 0 <= k < |q| && q[k].address == a
  }

  function Find(q: seq<Entry>, a: int): (k: nat)
    requires Has(q, a)
    ensures k < |q| && q[k].address == a && !Has(q[..k], a)
  {
    if q[0].address == a then 0 else
      assert Has(q[1..], a) by {
        var k :| 0 <= k < |q| && q[k].address == a;
        assert q[1..][k - 1].address == a;
      }
      1 + Find(q[1..], a)
  }

  /** The first position from `i` on whose entry is used at least `c` times. */
  function Place(q: seq<Entry>, i: nat, c: int): (p: nat)
    requires i <= |q|
    ensures i <= p <= |q|
    ensures forall k :: i <= k < p ==> q[k].count < c
    ensures p < |q| ==> q[p].count >= c
    decreases |q| - i
  {
    if i == |q| || q[i].count >= c then i else Place(q, i + 1, c)
  }

  /** Entry `k` leaves its place and is put back, as `e`, just before position `p`. */
  function Move(q: seq<Entry>, k: nat, p: nat, e: Entry): (r: seq<Entry>)
    requires k < p <= |q|
    ensures |r| == |q|
  {
    q[..k] + q[k + 1..p] + [e] + q[p..]
  }

  /** Counting a hit: the entry moves behind every entry with a smaller count. */
  function Bump(q: seq<Entry>, a: int): seq<Entry>
    requires Has(q, a)
  {
    BumpAt(q, Find(q, a))
  }

  function BumpAt(q: seq<Entry>, k: nat): seq<Entry>
    requires k < |q|
  {
    var e := Entry(q[k].address, q[k].count + 1);
    Move(q, k, Place(q, k + 1, e.count), e)
  }

  function Access(pages: nat, q: seq<Entry>, a: int): seq<Entry> {
    if Has(q, a) then Bump(q, a)
    else if |q| == pages && |q| > 0 then [Entry(a, 1)] + q[1..]
    else [Entry(a, 1)] + q
  }

  function Resident(pages: nat, t: seq<int>): seq<Entry> {
    if t == [] then [] else Access(pages, Resident(pages, t[..|t| - 1]), t[|t| - 1])
  }

  predicate FaultAt(pages: nat, t: seq<int>, i: nat)
    requires i < |t|
  {
    !Has(Resident(pages, t[..i]), t[i])
  }

  function Faults(pages: nat, t: seq<int>): nat {
    if t == [] then 0
    else Faults(pages, t[..|t| - 1]) + if FaultAt(pages, t, |t| - 1) then 1 else 0
  }

  ghost predicate Ascending(q: seq<Entry>) {
    forall i, j :: 0 <= i < j < |q| ==> q[i].count <= q[j].count
  }

  ghost predicate DistinctAddresses(q: seq<Entry>) {
    forall i, j :: 0 <= i < j < |q| ==> q[i].address != q[j].address
  }

  ghost predicate Proper(q: seq<Entry>) {
    Ascending(q) && DistinctAddresses(q) && forall k :: 0 <= k < |q| ==> q[k].count >= 1
  }

  lemma MoveAt(q: seq<Entry>, k: nat, p: nat, e: Entry, i: nat)
    requires k < p <= |q| && i < |q|
    ensures Move(q, k, p, e)[i] ==
            if i < k || i >= p then q[i] else if i == p - 1 then e else q[i + 1]
  {
  }

  /** Where entry `i` of the moved queue came from. */
  function Origin(k: nat, p: nat, i: nat): (j: nat)
    requires k < p
  {
    if i < k || i >= p then i else if i == p - 1 then k else i + 1
  }

  lemma MoveOrder(q: seq<Entry>, k: nat, p: nat, e: Entry, i: nat, j: nat)
    requires k < p <= |q| && i < j < |q|
    requires Proper(q) && e == Entry(q[k].address, q[k].count + 1)
    requires p == Place(q, k + 1, e.count)
    ensures var r := Move(q, k, p, e); r[i].count <= r[j].count && r[i].address != r[j].address && r[i].count >= 1
  {
    MoveAt(q, k, p, e, i);
    MoveAt(q, k, p, e, j);
  }

  lemma MoveProper(q: seq<Entry>, k: nat, p: nat, e: Entry)
    requires k < p <= |q|
    requires Proper(q) && e == Entry(q[k].address, q[k].count + 1)
    requires p == Place(q, k + 1, e.count)
    ensures Proper(Move(q, k, p, e))
  {
    var r := Move(q, k, p, e);
    forall i, j | 0 <= i < j < |r| ensures r[i].count <= r[j].count && r[i].address != r[j].address {
      MoveOrder(q, k, p, e, i, j);
    }
    forall i | 0 <= i < |r| ensures r[i].count >= 1 {
      MoveAt(q, k, p, e, i);
    }
  }

  lemma BumpProper(q: seq<Entry>, k: nat)
    requires Proper(q) && k < |q|
    ensures Proper(BumpAt(q, k)) && |BumpAt(q, k)| == |q|
  {
    var e := Entry(q[k].address, q[k].count + 1);
    MoveProper(q, k, Place(q, k + 1, e.count), e);
  }

  lemma LoadProper(pages: nat, q: seq<Entry>, a: int)
    requires Proper(q) && !Has(q, a)
    ensures Proper(Access(pages, q, a))
  {
    assert forall k :: 0 <= k < |q| ==> q[k].address != a;
    FrontProper(q, a);
    if |q| == pages && |q| > 0 {
      FrontProper(q[1..], a);
    }
  }

  lemma FrontProper(q: seq<Entry>, a: int)
    requires Proper(q) && forall k :: 0 <= k < |q| ==> q[k].address != a
    ensures Proper([Entry(a, 1)] + q)
  {
  }

  /** Every reachable queue is ascending in count and holds each address once. */
  lemma {:induction false} ResidentProper(pages: nat, t: seq<int>)
    ensures Proper(Resident(pages, t))
    ensures pages > 0 ==> |Resident(pages, t)| <= pages
  {
    if t != [] {
      var q, a := Resident(pages, t[..|t| - 1]), t[|t| - 1];
      ResidentProper(pages, t[..|t| - 1]);
      if Has(q, a) {
        BumpProper(q, Find(q, a));
      } else {
        LoadProper(pages, q, a);
      }
    }
  }

  /** Whoever is evicted has been used least often among all residents. */
  lemma VictimIsLeastUsed(pages: nat, t: seq<int>, a: int, k: nat)
    requires !Has(Resident(pages, t), a) && k < |Resident(pages, t)| == pages
    ensures Access(pages, Resident(pages, t), a) == [Entry(a, 1)] + Resident(pages, t)[1..]
    ensures Resident(pages, t)[0].count <= Resident(pages, t)[k].count
  {
    ResidentProper(pages, t);
  }

  /** The number of accesses to `a` from its last fault (inclusive) to the end of the trace. */
  function UsesSinceLoad(pages: nat, t: seq<int>, a: int): nat {
    if t == [] then 0
    else
      var p := t[..|t| - 1];
      if t[|t| - 1] != a then UsesSinceLoad(pages, p, a)
      else if FaultAt(pages, t, |t| - 1) then 1
      else UsesSinceLoad(pages, p, a) + 1
  }

  lemma BumpAtAt(q: seq<Entry>, m: nat, k: nat) returns (from: nat)
    requires Proper(q) && m < |q| && k < |q|
    ensures from < |q| && |BumpAt(q, m)| == |q|
    ensures BumpAt(q, m)[k] == Entry(q[from].address, q[from].count + if from == m then 1 else 0)
    ensures from == m <==> q[from].address == q[m].address
  {
    var e := Entry(q[m].address, q[m].count + 1);
    var p := Place(q, m + 1, e.count);
    MoveAt(q, m, p, e, k);
    from := Origin(m, p, k);
  }

  lemma BumpFrom(q: seq<Entry>, m: nat, j: nat) returns (k: nat)
    requires m < |q| && j < |q|
    ensures k < |q| && |BumpAt(q, m)| == |q| && BumpAt(q, m)[k].address == q[j].address
  {
    var e := Entry(q[m].address, q[m].count + 1);
    var p := Place(q, m + 1, e.count);
    k := if j < m || j >= p then j else if j == m then p - 1 else j - 1;
    MoveAt(q, m, p, e, k);
  }

  /** The accessed entry gains one use; every other entry is carried over as it was. */
  lemma AccessAt(pages: nat, q: seq<Entry>, a: int, k: nat) returns (from: nat)
    requires Proper(q) && k < |Access(pages, q, a)|
    ensures var e := Access(pages, q, a)[k];
            if e.address == a && !Has(q, a) then e.count == 1
            else from < |q| && q[from].address == e.address && e.count == q[from].count + if e.address == a then 1 else 0
  {
    if Has(q, a) {
      BumpProper(q, Find(q, a));
      from := BumpAtAt(q, Find(q, a), k);
    } else {
      from := if k == 0 then 0 else if |q| == pages && |q| > 0 then k else k - 1;
    }
  }

  /** The count field means what it says. */
  lemma {:induction false} CountIsUsesSinceLoad(pages: nat, t: seq<int>, k: nat)
    requires k < |Resident(pages, t)|
    ensures var e := Resident(pages, t)[k]; e.count == UsesSinceLoad(pages, t, e.address)
    decreases |t|
  {
    var p, a := t[..|t| - 1], t[|t| - 1];
    var q := Resident(pages, p);
    ResidentProper(pages, p);
    var from := AccessAt(pages, q, a, k);
    if Has(q, a) || Resident(pages, t)[k].address != a {
      CountIsUsesSinceLoad(pages, p, from);
    }
  }

  // ---------------------------------------------------------------- ties

  /** Entries stand in ascending order of their counts, and those with one count in the
      order of their last use, the latest first. */
  ghost predicate ByCountThenUse(t: seq<int>, q: seq<Entry>) {
    && (forall k :: 0 <= k < |q| ==> q[k].address in t)
    && (forall i, j :: 0 <= i < j < |q| ==> Before(t, q[i], q[j]))
  }

  ghost predicate Before(t: seq<int>, d: Entry, e: Entry)
    requires d.address in t && e.address in t
  {
    d.count < e.count || (d.count == e.count && Policies.LastUse(t, e.address) < Policies.LastUse(t, d.address))
  }

  /** Where an address not accessed now stands after an access. */
  lemma StillBefore(t: seq<int>, d: Entry, e: Entry)
    requires t != [] && d.address in t[..|t| - 1] && e.address in t[..|t| - 1]
    requires d.address != t[|t| - 1] && e.address != t[|t| - 1]
    ensures d.address in t && e.address in t && (Before(t[..|t| - 1], d, e) ==> Before(t, d, e))
  {
    Policies.SplitLast(t, d.address);
    Policies.SplitLast(t, e.address);
    Policies.LastUseExtend(t, d.address);
    Policies.LastUseExtend(t, e.address);
    hide Policies.LastUse;
  }

  /** The address accessed now comes before those that are used no less. */
  lemma LatestFirst(t: seq<int>, d: Entry, e: Entry)
    requires t != [] && d.address == t[|t| - 1] && e.address in t[..|t| - 1] && e.address != t[|t| - 1] && d.count <= e.count
    ensures d.address in t && e.address in t && Before(t, d, e)
  {
    Policies.SplitLast(t, e.address);
    Policies.SplitLast(t, d.address);
    Policies.LastUseExtend(t, e.address);
    Policies.LastUseExtend(t, d.address);
    hide Policies.LastUse;
  }

  lemma BumpOrder(t: seq<int>, q: seq<Entry>, m: nat, i: nat, j: nat)
    requires t != [] && Proper(q) && m < |q| && q[m].address == t[|t| - 1] && i < j < |q|
    requires ByCountThenUse(t[..|t| - 1], q)
    ensures |BumpAt(q, m)| == |q|
    ensures var r := BumpAt(q, m); r[i].address in t && r[j].address in t && Before(t, r[i], r[j])
  {
    var e := Entry(q[m].address, q[m].count + 1);
    var p := Place(q, m + 1, e.count);
    MoveAt(q, m, p, e, i);
    MoveAt(q, m, p, e, j);
    var oi, oj := Origin(m, p, i), Origin(m, p, j);
    hide Before, Place;
    if i == p - 1 {
      LatestFirst(t, e, q[oj]);
    } else if j == p - 1 {
      assert q[oi].count < e.count;
      Policies.SplitLast(t, q[oi].address);
      Policies.SplitLast(t, e.address);
      IsBefore(t, q[oi], e);
    } else {
      assert oi < oj && Before(t[..|t| - 1], q[oi], q[oj]);
      StillBefore(t, q[oi], q[oj]);
    }
  }

  lemma IsBefore(t: seq<int>, d: Entry, e: Entry)
    requires d.address in t && e.address in t && d.count < e.count
    ensures Before(t, d, e)
  {
  }

  lemma LoadOrder(t: seq<int>, q: seq<Entry>)
    requires t != [] && Proper(q) && ByCountThenUse(t[..|t| - 1], q)
    requires forall k :: 0 <= k < |q| ==> q[k].address != t[|t| - 1]
    ensures ByCountThenUse(t, [Entry(t[|t| - 1], 1)] + q)
  {
    var d := Entry(t[|t| - 1], 1);
    var r := [d] + q;
    Policies.SplitLast(t, d.address);
    hide Before, DistinctAddresses, Ascending;
    forall k | 0 <= k < |r| ensures r[k].address in t {
      if k > 0 {
        Policies.SplitLast(t, q[k - 1].address);
      }
    }
    forall i, j | 0 <= i < j < |r| ensures Before(t, r[i], r[j]) {
      if i == 0 {
        LatestFirst(t, d, q[j - 1]);
      } else {
        StillBefore(t, q[i - 1], q[j - 1]);
      }
    }
  }

  /** What LFU's list means: next to be evicted is the page with the fewest uses since it
      was loaded, and among these the one used last. */
  lemma {:induction false} ResidentOrder(pages: nat, t: seq<int>)
    ensures ByCountThenUse(t, Resident(pages, t))
  {
    if t != [] {
      var q, a := Resident(pages, t[..|t| - 1]), t[|t| - 1];
      ResidentOrder(pages, t[..|t| - 1]);
      ResidentProper(pages, t[..|t| - 1]);
      if Has(q, a) {
        BumpAllOrder(t, q, Find(q, a));
      } else {
        assert forall k :: 0 <= k < |q| ==> q[k].address != a;
        LoadOrder(t, q);
        assert |q| > 0 ==> ByCountThenUse(t[..|t| - 1], q[1..]) && Proper(q[1..]);
        if |q| > 0 {
          LoadOrder(t, q[1..]);
        }
      }
    }
  }

  lemma BumpAllOrder(t: seq<int>, q: seq<Entry>, m: nat)
    requires t != [] && Proper(q) && m < |q| && q[m].address == t[|t| - 1] && ByCountThenUse(t[..|t| - 1], q)
    ensures ByCountThenUse(t, BumpAt(q, m))
  {
    var r := BumpAt(q, m);
    BumpProper(q, m);
    forall k | 0 <= k < |r| ensures r[k].address in t {
      var from := BumpAtAt(q, m, k);
      Policies.SplitLast(t, q[from].address);
    }
    hide BumpAt, Before, Proper;
    forall i, j | 0 <= i < j < |r| ensures Before(t, r[i], r[j]) {
      BumpOrder(t, q, m, i, j);
    }
  }
}
