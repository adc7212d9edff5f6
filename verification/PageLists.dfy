/** The singly linked list of the page simulator, updated in place. */
module PageLists {
  import Policies
  import Lfu

  class Node {
    var address: int
    var count: int
    var next: Node?

    // Freshly allocated nodes are taken to start with a null link.
    constructor (address: int, count: int)
      ensures this.address == address && this.count == count && next == null
    {
      this.address := address;
      this.count := count;
      this.next := null;
    }
  }

  ghost function Successor(ns: seq<Node>, i: nat): Node?
    requires i < |ns|
  {
    if i + 1 < |ns| then ns[i + 1] else null
  }

  /** `ns` are distinct nodes, each linked to the one after it and the last to nothing. */
  ghost predicate Links(ns: seq<Node>)
    reads ns`next
  {
    && (forall i, j :: 0 <= i < j < |ns| ==> ns[i] != ns[j])
    && (forall i :: 0 <= i < |ns| ==> ns[i].next == Successor(ns, i))
  }

  ghost predicate Within(ns: seq<Node>, all: set<Node>) {
    forall i :: 0 <= i < |ns| ==> ns[i] in all
  }

  /** The addresses of `ns` in order. */
  ghost predicate Named(ns: seq<Node>, q: seq<int>)
    reads ns`address
  {
    |q| == |ns| && forall i :: 0 <= i < |q| ==> ns[i].address == q[i]
  }

  /** The addresses and counts of `ns` in order. */
  ghost predicate Counted(ns: seq<Node>, q: seq<Lfu.Entry>)
    reads ns`address, ns`count
  {
    |q| == |ns| && forall i :: 0 <= i < |q| ==> Lfu.Entry(ns[i].address, ns[i].count) == q[i]
  }

  /** The list `s` with element `k` moved to the end. */
  ghost function Moved<T>(s: seq<T>, k: nat): (r: seq<T>)
    requires k < |s|
    ensures |r| == |s|
  {
    s[..k] + s[k + 1..] + [s[k]]
  }

  /** The list without element `k`, and that element. */
  lemma RestOf(ns: seq<Node>, k: nat, rest: seq<Node>, all: set<Node>)
    requires Links(ns) && Within(ns, all) && 0 < k < |ns| && rest == ns[..k] + ns[k + 1..]
    ensures rest + [ns[k]] == Moved(ns, k)
    ensures |rest| == |ns| - 1 && rest[k - 1] == ns[k - 1] && ns[k] !in rest
    ensures rest[|rest| - 1] in all && ns[k - 1] in all && ns[k] in all
  {
    assert rest[|rest| - 1] == ns[if k == |ns| - 1 then k - 1 else |ns| - 1];
  }

  lemma CountedPopped(ns: seq<Node>, q: seq<Lfu.Entry>)
    requires Counted(ns, q) && |q| > 0
    ensures Counted(ns[1..], q[1..]) && ns[0].address == q[0].address
  {
  }

  lemma CountedFront(ns: seq<Node>, q: seq<Lfu.Entry>, added: Node)
    requires Counted(ns, q)
    ensures Counted([added] + ns, [Lfu.Entry(added.address, added.count)] + q)
  {
  }

  lemma NamedPushed(ns: seq<Node>, q: seq<int>, added: Node)
    requires Named(ns, q)
    ensures Named(ns + [added], q + [added.address])
  {
  }

  lemma NamedPopped(ns: seq<Node>, q: seq<int>)
    requires Named(ns, q) && |q| > 0
    ensures Named(ns[1..], q[1..])
  {
  }

  lemma NamedMoved(ns: seq<Node>, q: seq<int>, k: nat)
    requires Named(ns, q) && k < |ns|
    ensures Named(Moved(ns, k), Moved(q, k))
  {
  }

  method Unlink(before: Node, ghost ns: seq<Node>, ghost k: nat)
    requires Links(ns) && 0 < k < |ns| && before == ns[k - 1]
    modifies before`next
    ensures Links(ns[..k] + ns[k + 1..])
  {
    assert before.next == Successor(ns, k - 1) && ns[k].next == Successor(ns, k);
    before.next := before.next.next;
  }

  method Append(last: Node, bubble: Node, ghost ns: seq<Node>)
    requires Links(ns) && |ns| > 0 && last == ns[|ns| - 1] && bubble !in ns
    modifies last`next, bubble`next
    ensures Links(ns + [bubble])
  {
    last.next := bubble;
    bubble.next := null;
  }

  /** Links the first node behind the last one and makes it the new end. */
  method CloseBehind(last: Node, first: Node, ghost ns: seq<Node>) returns (tail: Node)
    requires Links(ns) && |ns| > 0 && first == ns[0] && last == ns[|ns| - 1]
    modifies last`next, first`next
    ensures Links(Moved(ns, 0)) && tail == first
  {
    last.next := first;
    tail := last.next;
    tail.next := null;
    assert Moved(ns, 0) == ns[1..] + [first];
  }

  /** What dereferencing `head` can do. */
  datatype Pop = Popped(address: int) | Trap

  class LinkedList {
    var head: Node?
    var tail: Node?
    var size: int
    /** The linked nodes in order, and whether `head` no longer reaches them. */
    ghost var nodes: seq<Node>
    ghost var headLost: bool
    /** Every node ever linked here. */
    ghost var repr: set<Node>

    ghost predicate Chain()
      reads this, nodes`next
    {
      && size == |nodes|
      && Links(nodes)
      && Within(nodes, repr)
      && (headLost ==> |nodes| > 0)
      && (|nodes| > 0 ==> head == if headLost then null else nodes[0])
    }

    lemma ChainOf()
      requires size == |nodes| && Links(nodes) && Within(nodes, repr) && (headLost ==> |nodes| > 0)
      requires |nodes| > 0 ==> head == if headLost then null else nodes[0]
      ensures Chain()
    {
    }

    lemma OfChain()
      requires Chain()
      ensures size == |nodes| && Links(nodes) && Within(nodes, repr) && (headLost ==> |nodes| > 0)
      ensures |nodes| > 0 ==> head == if headLost then null else nodes[0]
    {
    }

    ghost predicate Tailed()
      reads this
    {
      |nodes| > 0 ==> tail == nodes[|nodes| - 1]
    }

    lemma OfTailed()
      requires Tailed()
      ensures |nodes| > 0 ==> tail == nodes[|nodes| - 1]
    {
    }

    lemma IsTailed()
      requires |nodes| > 0 && tail == nodes[|nodes| - 1]
      ensures Tailed()
    {
    }

    constructor ()
      ensures Chain() && Tailed() && nodes == [] && !headLost && repr == {}
    {
      head, tail, size := null, null, 0;
      nodes, headLost, repr := [], false, {};
    }

    method Pop() returns (r: Pop)
      requires Chain()
      modifies this
      ensures repr == old(repr) && Chain() && (old(Tailed()) ==> Tailed())
      ensures old(nodes) == [] ==> r == Popped(-1) && nodes == [] && head == old(head) && tail == old(tail)
      ensures old(nodes) != [] ==> (r.Trap? <==> old(headLost))
      ensures r.Trap? ==> nodes == old(nodes) && headLost
      ensures old(nodes) != [] && r.Popped? ==> r.address == old(nodes[0].address) && nodes == old(nodes[1..]) && !headLost
    {
      if size == 0 {
        return Popped(-1);
      }
      if head == null {
        return Trap;
      }
      r := Popped(head.address);
      head := head.next;
      size := size - 1;
      nodes := nodes[1..];
    }

    method Push(i: int) returns (ghost added: Node)
      requires Chain() && Tailed()
      modifies this, repr`next
      ensures Chain() && Tailed() && headLost == old(headLost)
      ensures fresh(added) && repr == old(repr) + {added} && added.address == i && nodes == old(nodes) + [added]
    {
      var node := new Node(i, 0);
      if size == 0 {
        head := node;
        tail := node;
      } else {
        tail.next := node;
        tail := node;
      }
      size := size + 1;
      nodes := nodes + [node];
      repr := repr + {node};
      added := node;
    }

    method InsertFront(i: int) returns (ghost added: Node)
      requires Chain() && !headLost
      modifies this, repr`next
      ensures Chain() && !headLost
      ensures fresh(added) && repr == old(repr) + {added} && added.address == i && added.count == 1 && nodes == [added] + old(nodes)
    {
      var node := new Node(i, 1);
      if size == 0 {
        head := node;
        tail := node;
      } else {
        node.next := head;
        head := node;
      }
      size := size + 1;
      nodes := [node] + nodes;
      repr := repr + {node};
      added := node;
    }

    /** Moves the node of address `i` to the tail.  With a single node the list is cut
        off from `head`; with `head` already null the first dereference traps. */
    method MoveBack(i: int, ghost q: seq<int>) returns (trap: bool, ghost k: nat)
      requires Chain() && Tailed() && Named(nodes, q) && i in q
      modifies this, repr`next
      ensures repr == old(repr)
      ensures Chain() && Tailed()
      ensures trap <==> old(headLost)
      ensures trap ==> nodes == old(nodes) && Named(nodes, q) && headLost
      ensures k == Policies.IndexOf(q, i)
      ensures !trap ==> headLost == (|q| == 1)
      ensures !trap ==> nodes == Moved(old(nodes), k) && Named(nodes, Moved(q, k))
    {
      k := Policies.IndexOf(q, i);
      if head == null {
        return true, k;
      }
      trap := false;
      if head.address != i {
        assert forall m :: 0 <= m < k ==> q[m] in q[..k];
        var temp := Predecessor(i, k);
        Relink(temp, temp.next, k, q);
      } else {
        RotateHead(q);
      }
    }

    /** Counts one more use of `i` and moves its node behind all nodes used less often. */
    method UpdateCount(i: int, ghost q: seq<Lfu.Entry>) returns (ghost k: nat, ghost p: nat)
      requires Chain() && !headLost && Counted(nodes, q) && Lfu.Has(q, i)
      modifies this, repr`next, repr`count
      ensures repr == old(repr)
      ensures Chain() && !headLost
      ensures k < p <= |q| == |nodes| && nodes == MovedTo(old(nodes), k, p) && Counted(nodes, Lfu.Bump(q, i))
    {
      k := Lfu.Find(q, i);
      FindFirst(q, i);
      var temp := head;
      if temp.address == i {
        p := CountHead(q);
      } else {
        temp := Predecessor(i, k);
        p := CountBehind(temp, q, k);
      }
      BumpIsMove(q, i, p);
    }

    /** The branch of `update_count` for the head itself. */
    method CountHead(ghost q: seq<Lfu.Entry>) returns (ghost p: nat)
      requires Chain() && !headLost && Counted(nodes, q) && |q| > 0
      modifies this, repr`next, repr`count
      ensures repr == old(repr)
      ensures Chain() && !headLost
      ensures EndOfSmaller(q, 0, p) && |nodes| == |q|
      ensures nodes == MovedTo(old(nodes), 0, p) && Counted(nodes, Lfu.Move(q, 0, p, Used(q[0])))
    {
      var temp := head;
      ghost var q1 := q[0 := Used(q[0])];
      temp.count := temp.count + 1;
      assert Counted(nodes, q1);
      ghost var ns := nodes;
      p := SinkHead(temp, q1);
      CountedMoved(ns, q1, 0, p);
    }

    method SinkHead(temp: Node, ghost q: seq<Lfu.Entry>) returns (ghost p: nat)
      requires Chain() && !headLost && Counted(nodes, q) && |q| > 0 && temp == nodes[0]
      modifies this, repr`next
      ensures repr == old(repr)
      ensures Chain() && !headLost
      ensures SinksTo(q, 0, p) && |nodes| == |q| && nodes == MovedTo(old(nodes), 0, p)
    {
      hide *;
      OfChain();
      AtNode(nodes, q, 0);
      if temp.next != null && temp.next.count < temp.count {
        p := SinkHeadPast(temp, temp.next, q);
      } else {
        p := 1;
        StaysPut(nodes, 0);
        IsSink(q, 0, p, 0);
      }
    }

    /** The case of a head that leaves its place. */
    method SinkHeadPast(temp: Node, next: Node, ghost q: seq<Lfu.Entry>) returns (ghost p: nat)
      requires Chain() && !headLost && Counted(nodes, q) && 1 < |q| && temp == nodes[0] && next == nodes[1]
      requires q[1].count < q[0].count == temp.count
      modifies this, repr`next
      ensures repr == old(repr)
      ensures Chain() && !headLost
      ensures SinksTo(q, 0, p) && |nodes| == |q| && nodes == MovedTo(old(nodes), 0, p)
    {
      hide *;
      OfChain();
      AtNode(nodes, q, 0);
      head := next;
      var temp2;
      temp2, p := WalkBelow(next, temp.count, nodes, q, 1);
      IsSink(q, 0, p, 1);
      SpliceFront(temp, temp2, nodes, p);
      MovedToWithin(nodes, 0, p, repr);
      nodes := MovedTo(nodes, 0, p);
      ChainOf();
    }

    /** The branch of `update_count` for the node behind `temp`. */
    method CountBehind(temp: Node, ghost q: seq<Lfu.Entry>, ghost k: nat) returns (ghost p: nat)
      requires Chain() && !headLost && Counted(nodes, q) && 0 < k < |q| && temp == nodes[k - 1]
      modifies this, repr`next, repr`count
      ensures repr == old(repr)
      ensures Chain() && !headLost
      ensures EndOfSmaller(q, k, p) && |nodes| == |q|
      ensures nodes == MovedTo(old(nodes), k, p) && Counted(nodes, Lfu.Move(q, k, p, Used(q[k])))
    {
      assert temp.next == Successor(nodes, k - 1);
      ghost var q1 := q[k := Used(q[k])];
      var temp1 := temp.next;
      temp1.count := temp1.count + 1;
      assert Counted(nodes, q1);
      ghost var ns := nodes;
      p := SinkBehind(temp, temp1, q1, k);
      CountedMoved(ns, q1, k, p);
    }

    method SinkBehind(temp: Node, temp1: Node, ghost q: seq<Lfu.Entry>, ghost k: nat) returns (ghost p: nat)
      requires Chain() && !headLost && Counted(nodes, q) && 0 < k < |q| && temp == nodes[k - 1] && temp1 == nodes[k]
      modifies this, repr`next
      ensures repr == old(repr)
      ensures Chain() && !headLost
      ensures SinksTo(q, k, p) && |nodes| == |q| && nodes == MovedTo(old(nodes), k, p)
    {
      hide *;
      OfChain();
      AtNode(nodes, q, k);
      if temp1.next != null && temp1.next.count < temp1.count {
        p := SinkPast(temp, temp1, q, k);
      } else {
        p := k + 1;
        StaysPut(nodes, k);
        IsSink(q, k, p, k);
      }
    }

    /** The case of a node that leaves its place. */
    method SinkPast(temp: Node, temp1: Node, ghost q: seq<Lfu.Entry>, ghost k: nat) returns (ghost p: nat)
      requires Chain() && !headLost && Counted(nodes, q) && 0 < k < k + 1 < |q| && temp == nodes[k - 1] && temp1 == nodes[k]
      requires q[k + 1].count < q[k].count == temp1.count
      modifies this, repr`next
      ensures repr == old(repr)
      ensures Chain() && !headLost
      ensures SinksTo(q, k, p) && |nodes| == |q| && nodes == MovedTo(old(nodes), k, p)
    {
      hide *;
      OfChain();
      AtNode(nodes, q, k);
      var temp2;
      temp2, p := WalkBelow(temp1, temp1.count, nodes, q, k);
      if temp2.next == null {
        tail := temp1;
      }
      IsSink(q, k, p, k);
      SpliceBehind(temp, temp1, temp2, nodes, k, p);
      MovedToWithin(nodes, k, p, repr);
      nodes := MovedTo(nodes, k, p);
      ChainOf();
    }

    /** Walks to the node in front of the first one with address `i`. */
    method Predecessor(i: int, ghost k: nat) returns (temp: Node)
      requires Chain() && !headLost && 0 < k < |nodes| && nodes[k].address == i
      requires forall m :: 0 <= m < k ==> nodes[m].address != i
      ensures temp == nodes[k - 1]
    {
      temp := head;
      ghost var n := 0;
      while temp.next != null && temp.next.address != i
        invariant 0 <= n < k && temp == nodes[n]
        decreases k - n
      {
        temp := temp.next;
        n := n + 1;
      }
    }

    /** The branch of `move_back` for the head itself. */
    method RotateHead(ghost q: seq<int>)
      requires Chain() && Tailed() && !headLost && |nodes| > 0 && Named(nodes, q)
      modifies this, repr`next
      ensures repr == old(repr)
      ensures Chain() && Tailed() && headLost == (|nodes| == 1)
      ensures nodes == Moved(old(nodes), 0) && Named(nodes, Moved(q, 0))
    {
      hide *;
      OfChain();
      OfTailed();
      NextOf(nodes, 0);
      NamedMoved(nodes, q, 0);
      MovedWithin(nodes, 0, repr);
      var bubble := head;
      head := head.next;
      tail := CloseBehind(tail, bubble, nodes);
      headLost := |nodes| == 1;
      nodes := Moved(nodes, 0);
      ChainOf();
      IsTailed();
    }

    /** The splice of `move_back`: `bubble` leaves its place behind `before` and becomes the tail. */
    method Relink(before: Node, bubble: Node, ghost k: nat, ghost q: seq<int>)
      requires Chain() && Tailed() && !headLost && Named(nodes, q)
      requires 0 < k < |nodes| && before == nodes[k - 1] && bubble == nodes[k]
      modifies this, repr`next
      ensures repr == old(repr)
      ensures Chain() && Tailed() && !headLost
      ensures nodes == Moved(old(nodes), k) && Named(nodes, Moved(q, k))
    {
      OfChain();
      tail := MoveLinks(before, bubble, nodes, k, repr);
      NamedMoved(nodes, q, k);
      MovedWithin(nodes, k, repr);
      nodes := Moved(nodes, k);
      hide *;
      ChainOf();
      IsTailed();
    }
  }

  /** Takes `bubble` from behind `before` and links it behind the last node. */
  method MoveLinks(before: Node, bubble: Node, ghost ns: seq<Node>, ghost k: nat, ghost all: set<Node>)
    returns (tail: Node)
    requires Links(ns) && Within(ns, all) && 0 < k < |ns| && before == ns[k - 1] && bubble == ns[k]
    modifies all`next
    ensures Links(Moved(ns, k)) && tail == bubble
  {
    hide *;
    ghost var rest := ns[..k] + ns[k + 1..];
    RestOf(ns, k, rest, all);
    Unlink(before, ns, k);
    var last := WalkToEnd(before, rest, k - 1);
    Append(last, bubble, rest);
    tail := bubble;
  }

  /** The list `s` with element `k` moved just in front of position `p`. */
  ghost function MovedTo<T>(s: seq<T>, k: nat, p: nat): (r: seq<T>)
    requires k < p <= |s|
    ensures |r| == |s|
  {
    s[..k] + s[k + 1..p] + [s[k]] + s[p..]
  }

  lemma MovedToWithin(ns: seq<Node>, k: nat, p: nat, all: set<Node>)
    requires k < p <= |ns| && Within(ns, all)
    ensures Within(MovedTo(ns, k, p), all)
    ensures MovedTo(ns, k, p)[0] == if k > 0 then ns[0] else if p > 1 then ns[1] else ns[0]
  {
    MovedToAt(ns, k, p);
  }

  lemma MovedWithin(ns: seq<Node>, k: nat, all: set<Node>)
    requires k < |ns| && Within(ns, all)
    ensures Within(Moved(ns, k), all)
    ensures Moved(ns, k)[|ns| - 1] == ns[k]
    ensures Moved(ns, k)[0] == if k > 0 || |ns| == 1 then ns[0] else ns[1]
  {
    forall i | 0 <= i < |ns| ensures Moved(ns, k)[i] in all {
      assert Moved(ns, k)[i] == ns[if i < k then i else if i == |ns| - 1 then k else i + 1];
    }
  }

  lemma StaysPut<T>(s: seq<T>, k: nat)
    requires k < |s|
    ensures MovedTo(s, k, k + 1) == s
  {
  }

  lemma CountedMoved(ns: seq<Node>, q: seq<Lfu.Entry>, k: nat, p: nat)
    requires k < p <= |ns| && Counted(ns, q)
    ensures Counted(MovedTo(ns, k, p), Lfu.Move(q, k, p, q[k]))
  {
  }

  lemma PlaceUnique(q: seq<Lfu.Entry>, i: nat, c: int, p: nat)
    requires i <= p <= |q| && forall m :: i <= m < p ==> q[m].count < c
    requires p < |q| ==> q[p].count >= c
    ensures Lfu.Place(q, i, c) == p
  {
  }

  lemma FindFirst(q: seq<Lfu.Entry>, a: int)
    requires Lfu.Has(q, a)
    ensures forall m :: 0 <= m < Lfu.Find(q, a) ==> q[m].address != a
  {
    var k := Lfu.Find(q, a);
    forall m | 0 <= m < k ensures q[m].address != a {
      assert q[..k][m] == q[m];
    }
  }

  ghost function Used(e: Lfu.Entry): Lfu.Entry {
    Lfu.Entry(e.address, e.count + 1)
  }

  /** `p` ends the entries behind `k` that are used less often than `k` now is. */
  ghost predicate EndOfSmaller(q: seq<Lfu.Entry>, k: nat, p: nat) {
    && k < p <= |q|
    && (forall m :: k < m < p ==> q[m].count < q[k].count + 1)
    && (p < |q| ==> q[p].count >= q[k].count + 1)
  }

  /** The same for a queue in which entry `k` is already counted. */
  ghost predicate SinksTo(q: seq<Lfu.Entry>, k: nat, p: nat) {
    && k < p <= |q|
    && (forall m :: k < m < p ==> q[m].count < q[k].count)
    && (p < |q| ==> q[p].count >= q[k].count)
  }

  lemma IsSink(q: seq<Lfu.Entry>, k: nat, p: nat, s: nat)
    requires k < p <= |q| && (p == k + 1 || Below(q, s, p, q[k].count))
    requires s == k || (s == k + 1 < |q| && q[s].count < q[k].count)
    requires p < |q| ==> q[p].count >= q[k].count
    ensures SinksTo(q, k, p)
  {
  }

  lemma BumpIsMove(q: seq<Lfu.Entry>, a: int, p: nat)
    requires Lfu.Has(q, a) && EndOfSmaller(q, Lfu.Find(q, a), p)
    ensures var k := Lfu.Find(q, a);
            Lfu.Bump(q, a) == Lfu.Move(q, k, p, Used(q[k]))
  {
    hide Lfu.Find, Lfu.Has, Lfu.Place, Lfu.Move;
    var k := Lfu.Find(q, a);
    PlaceUnique(q, k + 1, q[k].count + 1, p);
  }

  lemma NextOf(ns: seq<Node>, k: nat)
    requires Links(ns) && k < |ns|
    ensures ns[k].next == if k + 1 < |ns| then ns[k + 1] else null
  {
  }

  lemma AtNode(ns: seq<Node>, q: seq<Lfu.Entry>, k: nat)
    requires Links(ns) && Counted(ns, q) && k < |q|
    ensures |q| == |ns| && ns[k].count == q[k].count
    ensures k + 1 == |ns| ==> ns[k].next == null
    ensures k + 1 < |ns| ==> ns[k].next == ns[k + 1] && ns[k + 1].count == q[k + 1].count
  {
  }

  ghost predicate Below(q: seq<Lfu.Entry>, s: nat, p: nat, c: int) {
    s < p <= |q| && forall m :: s < m < p ==> q[m].count < c
  }

  lemma BelowMore(q: seq<Lfu.Entry>, s: nat, p: nat, c: int)
    ensures s < |q| ==> Below(q, s, s + 1, c)
    ensures Below(q, s, p, c) && p < |q| && q[p].count < c ==> Below(q, s, p + 1, c)
  {
  }

  /** Walks on from `ns[s]` while the next node is used less often than `c`. */
  method WalkBelow(start: Node, c: int, ghost ns: seq<Node>, ghost q: seq<Lfu.Entry>, ghost s: nat)
    returns (temp2: Node, ghost p: nat)
    requires Links(ns) && Counted(ns, q) && s < |q| && start == ns[s]
    ensures s < p <= |ns| && temp2 == ns[p - 1]
    ensures Below(q, s, p, c) && (p < |ns| ==> q[p].count >= c)
  {
    temp2 := start;
    p := s + 1;
    hide *;
    AtNode(ns, q, s);
    BelowMore(q, s, p, c);
    while temp2.next != null && temp2.next.count < c
      invariant s < p <= |ns| && temp2 == ns[p - 1] && Below(q, s, p, c)
      invariant p == |ns| ==> temp2.next == null
      invariant p < |ns| ==> temp2.next == ns[p] && ns[p].count == q[p].count
      decreases |ns| - p
    {
      BelowMore(q, s, p, c);
      AtNode(ns, q, p);
      temp2 := temp2.next;
      p := p + 1;
    }
  }

  lemma MovedToIsInsert(ns: seq<Node>, rest: seq<Node>, k: nat, p: nat, j: nat)
    requires Links(ns) && k + 1 < p <= |ns| && j == p - 2 && rest == ns[..k] + ns[k + 1..]
    ensures MovedTo(ns, k, p) == rest[..j + 1] + [ns[k]] + rest[j + 1..]
    ensures ns[k] !in rest && rest[j] == ns[p - 1]
  {
  }

  method InsertAfter(temp2: Node, node: Node, ghost ns: seq<Node>, ghost j: nat)
    requires Links(ns) && j < |ns| && temp2 == ns[j] && node !in ns
    modifies node`next, temp2`next
    ensures Links(ns[..j + 1] + [node] + ns[j + 1..])
  {
    assert temp2.next == Successor(ns, j);
    node.next := temp2.next;
    temp2.next := node;
  }

  lemma MovedToDistinct(ns: seq<Node>, k: nat, p: nat)
    requires k < p <= |ns| && forall i, j :: 0 <= i < j < |ns| ==> ns[i] != ns[j]
    ensures var r := MovedTo(ns, k, p); forall i, j :: 0 <= i < j < |r| ==> r[i] != r[j]
  {
    MovedToAt(ns, k, p);
  }

  lemma MovedToAt<T>(s: seq<T>, k: nat, p: nat)
    requires k < p <= |s|
    ensures forall i :: 0 <= i < |s| ==>
      MovedTo(s, k, p)[i] == if i < k || i >= p then s[i] else if i == p - 1 then s[k] else s[i + 1]
  {
  }

  /** Links the first node behind `temp2`. */
  method SpliceFront(first: Node, temp2: Node, ghost ns: seq<Node>, ghost p: nat)
    requires Links(ns) && 1 < p <= |ns| && first == ns[0] && temp2 == ns[p - 1]
    modifies first`next, temp2`next
    ensures Links(MovedTo(ns, 0, p))
  {
    assert temp2.next == Successor(ns, p - 1);
    first.next := temp2.next;
    temp2.next := first;
    MovedToDistinct(ns, 0, p);
    ghost var r := MovedTo(ns, 0, p);
    MovedToAt(ns, 0, p);
    forall i | 0 <= i < |r| ensures r[i].next == Successor(r, i) {
      if i >= p {
        assert r[i] == ns[i] && ns[i] !in {first, temp2};
      } else if i < p - 2 {
        assert r[i] == ns[i + 1] && ns[i + 1] !in {first, temp2};
      }
    }
  }

  /** Takes `node` from behind `prev` and links it behind `temp2`. */
  method SpliceBehind(prev: Node, node: Node, temp2: Node, ghost ns: seq<Node>, ghost k: nat, ghost p: nat)
    requires Links(ns) && 0 < k && k + 1 < p <= |ns|
    requires prev == ns[k - 1] && node == ns[k] && temp2 == ns[p - 1]
    modifies prev`next, node`next, temp2`next
    ensures Links(MovedTo(ns, k, p))
  {
    ghost var rest, j := ns[..k] + ns[k + 1..], p - 2;
    MovedToIsInsert(ns, rest, k, p, j);
    Unlink(prev, ns, k);
    InsertAfter(temp2, node, rest, j);
  }

  method WalkToEnd(from: Node, ghost rest: seq<Node>, ghost n: nat) returns (temp: Node)
    requires n < |rest| && from == rest[n] && Links(rest)
    ensures temp == rest[|rest| - 1]
  {
    temp := from;
    ghost var j := n;
    while temp.next != null
      invariant n <= j < |rest| && temp == rest[j]
      decreases |rest| - j
    {
      temp := temp.next;
      j := j + 1;
    }
  }
}
