/** Every interleaving of threads on a lock and its condition variables. */
module MonitorRuns {
  import opened Bitmap
  import opened Semaphores
  import opened Monitors
  import opened MonitorSafety

  ghost predicate Inv(s: State) {
    LockInv(s.lock, s.holder, s.pc) && CondInv(s.conds, s.waits, s.pc)
  }

  /** No assertion failed and the invariant holds afterwards. */
  ghost predicate Good(r: Outcome<State>) {
    r.Ok? && Inv(r.s)
  }

  lemma Parts(s: State)
    requires Inv(s)
    ensures LockInv(s.lock, s.holder, s.pc) && CondInv(s.conds, s.waits, s.pc) && AtMostOneInside(s.pc)
    ensures forall t :: t in s.pc ==> (s.holder == Some(t) <==> PartOf(s.pc[t]) == Holds)
    ensures forall t :: t in s.pc && RoleOf(s.pc[t]).Waits? ==> t in s.waits && RoleOf(s.pc[t]).c < |s.conds|
    ensures forall t :: t in s.pc && RoleOf(s.pc[t]).Tests? ==> RoleOf(s.pc[t]).c < |s.conds|
  {
    hide LockQueueOk, AtMostOneInside, SomeInside, QueuesOk, ClaimsOk;
    forall t | t in s.pc && RoleOf(s.pc[t]).Waits? ensures t in s.waits && RoleOf(s.pc[t]).c < |s.conds| {
      assert WaiterOk(s.conds, s.waits, s.pc, t);
    }
  }

  lemma IsGood(r: Outcome<State>)
    requires r.Ok? && LockInv(r.s.lock, r.s.holder, r.s.pc) && CondInv(r.s.conds, r.s.waits, r.s.pc)
    ensures Good(r)
  {
  }

  /** One thread moves without touching its part in the lock. */
  lemma SamePart(pc: map<Tid, Pc>, t: Tid, next: Pc)
    requires t in pc && PartOf(pc[t]) == PartOf(next)
    ensures SameParts(pc, pc[t := next])
  {
  }

  lemma SameRole(pc: map<Tid, Pc>, t: Tid, next: Pc)
    requires t in pc && RoleOf(pc[t]) == RoleOf(next)
    ensures SameRoles(pc, pc[t := next])
  {
  }

  lemma TestLockGood(s: State, t: Tid)
    requires Inv(s) && t in s.pc && (s.pc[t] == Acquire || s.pc[t] == AcquireWoken)
    ensures Good(Ok(TestLock(s, t)))
  {
    Parts(s);
    TestLockKeeps(s, t);
    var s' := TestLock(s, t);
    SameRole(s.pc, t, s'.pc[t]);
    assert s'.pc == s.pc[t := s'.pc[t]];
    CondFrame(s.conds, s.waits, s.pc, s'.pc);
    hide *;
    TestLockRest(s, t);
    IsGood(Ok(s'));
  }

  lemma TestLockRest(s: State, t: Tid)
    ensures TestLock(s, t).conds == s.conds && TestLock(s, t).waits == s.waits
  {
  }

  lemma UpLockGood(s: State, t: Tid, next: Pc)
    requires Inv(s) && t in s.pc && PartOf(s.pc[t]) == Keeps && PartOf(next) == Apart && RoleOf(s.pc[t]) == RoleOf(next)
    ensures Good(UpLock(s, t, next))
  {
    Parts(s);
    hide LockInv, CondInv, Inv, UpLock;
    UpLockKeeps(s, t, next);
    var s' := UpLock(s, t, next).s;
    RolesAfterUp(s.pc, s'.pc, t);
    CondFrame(s.conds, s.waits, s.pc, s'.pc);
    IsGood(UpLock(s, t, next));
  }

  lemma RolesAfterUp(pc: map<Tid, Pc>, pc': map<Tid, Pc>, t: Tid)
    requires WakesAtMost(pc, pc', t) && t in pc && RoleOf(pc'[t]) == RoleOf(pc[t])
    ensures SameRoles(pc, pc')
  {
  }

  lemma TestWaitGood(s: State, t: Tid, c: nat)
    requires Inv(s) && t in s.pc && (s.pc[t] == Wait(c) || s.pc[t] == WaitWoken(c))
    ensures t in s.waits && Good(Ok(TestWait(s, t, c)))
  {
    Parts(s);
    hide LockInv, CondInv, Inv;
    TestWaitKeeps(s, t, c);
    var s' := TestWait(s, t, c);
    SamePart(s.pc, t, s'.pc[t]);
    LockFrame(s.lock, s.holder, s.pc, s'.pc);
    IsGood(Ok(s'));
  }

  lemma UpWaitGood(s: State, t: Tid, c: nat, w: Tid, all: bool)
    requires Inv(s) && t in s.pc && s.pc[t] == Signal(c, w, all)
    ensures w in s.waits && Good(UpWait(s, t, w, if all then Broadcast(c) else In))
  {
    Parts(s);
    hide LockInv, CondInv, Inv, UpWait, AtMostOneInside;
    var next := if all then Broadcast(c) else In;
    UpWaitKeeps(s, t, c, w, all, next);
    var s' := UpWait(s, t, w, next).s;
    var next' := if s.pc[w].WaitBlocked? then WaitWoken(c) else s.pc[w];
    SamePart(s.pc, w, next');
    LockFrame(s.lock, s.holder, s.pc, s.pc[w := next']);
    SamePart(s.pc[w := next'], t, next);
    LockFrame(s.lock, s.holder, s.pc[w := next'], s'.pc);
    IsGood(UpWait(s, t, w, next));
  }

  /** A move of one thread that changes neither queues nor semaphores. */
  lemma QuietGood(s: State, t: Tid, next: Pc)
    requires Inv(s) && t in s.pc && PartOf(next) == PartOf(s.pc[t])
    requires RoleOf(s.pc[t]).NoRole? || RoleOf(s.pc[t]).Tests?
    requires RoleOf(next).NoRole? || (RoleOf(next).Tests? && RoleOf(next).c < |s.conds|)
    ensures Good(Ok(At(s, t, next)))
  {
    Parts(s);
    hide LockInv, CondInv, Inv;
    SamePart(s.pc, t, next);
    LockFrame(s.lock, s.holder, s.pc, s.pc[t := next]);
    CondQuiet(s.conds, s.waits, s.pc, t, next);
    IsGood(Ok(At(s, t, next)));
  }

  lemma TakeGood(s: State, t: Tid, c: nat, all: bool)
    requires Inv(s) && t in s.pc && PartOf(s.pc[t]) == Holds && !s.pc[t].Signal? && c < |s.conds|
    ensures Good(TakeWaiter(s, t, c, all))
  {
    Parts(s);
    hide LockInv, CondInv, Inv;
    if s.conds[c] == [] {
      QuietGood(s, t, In);
    } else {
      var next := Signal(c, s.conds[c][0], all);
      TakeKeeps(s.conds, s.waits, s.pc, t, c, all);
      SamePart(s.pc, t, next);
      LockFrame(s.lock, s.holder, s.pc, s.pc[t := next]);
      IsGood(TakeWaiter(s, t, c, all));
    }
  }

  /** Setting or clearing the holder, with no part in the conditions. */
  lemma HolderGood(s: State, t: Tid, next: Pc)
    requires Inv(s) && t in s.pc && Inside(s.pc[t]) && Inside(next) && RoleOf(s.pc[t]).NoRole? && RoleOf(next).NoRole?
    ensures Good(Ok(At(s.(holder := if PartOf(next) == Holds then Some(t) else None), t, next)))
  {
    Parts(s);
    hide LockInv, CondInv, Inv;
    HolderKeeps(s, t, if PartOf(next) == Holds then Some(t) else None, next);
    CondQuiet(s.conds, s.waits, s.pc, t, next);
    IsGood(Ok(At(s.(holder := if PartOf(next) == Holds then Some(t) else None), t, next)));
  }

  lemma ContinueGood(s: State, t: Tid)
    requires Inv(s) && t in s.pc && Running(s.pc[t])
    ensures Good(Continue(s, t))
  {
    Parts(s);
    hide LockInv, CondInv, Inv, Good, UpLock, UpWait, TestLock, TestWait, TakeWaiter, AtMostOneInside;
    match s.pc[t]
    case Acquire => TestLockGood(s, t);
    case AcquireWoken => TestLockGood(s, t);
    case Acquired => HolderGood(s, t, In);
    case Release => UpLockGood(s, t, Out);
    case WaitRelease(c) => UpLockGood(s, t, Wait(c));
    case Wait(c) => TestWaitGood(s, t, c);
    case WaitWoken(c) => TestWaitGood(s, t, c);
    case Reacquire => QuietGood(s, t, Acquire);
    case Signal(c, w, all) => UpWaitGood(s, t, c, w, all);
    case Broadcast(c) => QuietGood(s, t, In); TakeGood(s, t, c, true);
  }

  lemma TryGood(s: State, t: Tid)
    requires Inv(s) && t in s.pc && s.pc[t] == Out
    ensures Good(Next(s, TryAcquire(t)))
  {
    Parts(s);
    TryKeeps(s, t);
    CondQuiet(s.conds, s.waits, s.pc, t, Acquired);
    hide LockInv, CondInv;
  }

  lemma WaitGood(s: State, t: Tid, c: nat)
    requires Inv(s) && t in s.pc && s.pc[t] == In && c < |s.conds|
    ensures Good(Next(s, StartWait(t, c)))
  {
    Parts(s);
    hide LockInv, CondInv, Inv;
    HolderKeeps(s, t, None, WaitRelease(c));
    WaitKeeps(s.conds, s.waits, s.pc, t, c);
    IsGood(Next(s, StartWait(t, c)));
  }

  /** Every enabled move meets its assertions and keeps the invariant. */
  lemma NextGood(s: State, m: Move)
    requires Inv(s) && Enabled(s, m)
    ensures Good(Next(s, m))
  {
    Parts(s);
    hide LockInv, CondInv, Inv, Good, TakeWaiter, Continue, AtMostOneInside;
    match m
    case Step(t) => ContinueGood(s, t);
    case TryAcquire(t) => TryGood(s, t);
    case StartAcquire(t) => QuietGood(s, t, Acquire);
    case StartRelease(t) => HolderGood(s, t, Release);
    case StartWait(t, c) => WaitGood(s, t, c);
    case StartSignal(t, c) => TakeGood(s, t, c, false);
    case StartBroadcast(t, c) => QuietGood(s, t, Broadcast(c));
  }

  // ---------------------------------------------------------------- runs

  /** All threads outside, the lock free, `n` condition variables without waiters. */
  function Initial(threads: set<Tid>, n: nat): State {
    State(Sema(1, []), None, seq(n, i => []), map[], map t | t in threads :: Out)
  }

  ghost predicate IsRun(threads: set<Tid>, n: nat, moves: seq<Move>, states: seq<State>) {
    && |states| == |moves| + 1
    && states[0] == Initial(threads, n)
    && forall i :: 0 <= i < |moves| ==> Follows(states[i], moves[i], states[i + 1])
  }

  predicate Follows(s: State, m: Move, s': State) {
    Enabled(s, m) && Next(s, m) == Ok(s')
  }

  lemma InitialInv(threads: set<Tid>, n: nat)
    ensures Inv(Initial(threads, n))
  {
  }

  lemma FollowsInv(s: State, m: Move, s': State)
    requires Inv(s) && Follows(s, m, s')
    ensures Inv(s')
  {
    hide Inv, Next;
    NextGood(s, m);
  }

  lemma {:induction false} RunInv(threads: set<Tid>, n: nat, moves: seq<Move>, states: seq<State>, i: nat)
    requires IsRun(threads, n, moves, states) && i < |states|
    ensures Inv(states[i])
  {
    hide Inv, Follows;
    if i == 0 {
      InitialInv(threads, n);
    } else {
      RunInv(threads, n, moves, states, i - 1);
      FollowsInv(states[i - 1], moves[i - 1], states[i]);
    }
  }

  /** In every interleaving at most one thread is between obtaining the lock's semaphore and
      raising it again, the semaphore is 0 or 1, the holder is the thread inside, and no
      assertion fails. */
  lemma MutualExclusion(threads: set<Tid>, n: nat, moves: seq<Move>, states: seq<State>, i: nat, t: Tid, u: Tid, m: Move)
    requires IsRun(threads, n, moves, states) && i < |states|
    requires t in states[i].pc && u in states[i].pc
    ensures Inside(states[i].pc[t]) && Inside(states[i].pc[u]) ==> t == u
    ensures states[i].lock.value == if SomeInside(states[i].pc) then 0 else 1
    ensures states[i].holder == Some(t) ==> Inside(states[i].pc[t])
    ensures states[i].pc[t] == In ==> states[i].holder == Some(t)
    ensures Enabled(states[i], m) ==> Next(states[i], m).Ok?
  {
    RunInv(threads, n, moves, states, i);
    Parts(states[i]);
    if Enabled(states[i], m) {
      NextGood(states[i], m);
    }
  }

  /** If a thread sleeps on the lock while it is free, another one has been woken and will
      test it. */
  lemma NoLostWakeup(threads: set<Tid>, n: nat, moves: seq<Move>, states: seq<State>, i: nat, t: Tid)
    requires IsRun(threads, n, moves, states) && i < |states|
    requires t in states[i].pc && states[i].pc[t] == AcquireBlocked && states[i].lock.value > 0
    ensures exists u :: u in states[i].pc && states[i].pc[u] == AcquireWoken
  {
    RunInv(threads, n, moves, states, i);
    var pc := states[i].pc;
    assert t in states[i].lock.waiters;
    var u :| u in pc && PartOf(pc[u]) == Wakes;
    assert pc[u] == AcquireWoken;
  }

  // ---------------------------------------------------------------- signals

  predicate Waiting(s: State, t: Tid) {
    t in s.pc && RoleOf(s.pc[t]).Waits?
  }

  /** The thread is in cond_wait with its semaphore raised. */
  predicate Released(s: State, t: Tid) {
    Waiting(s, t) && t in s.waits && s.waits[t].value > 0
  }

  /** At the test of its own semaphore. */
  predicate AtTest(s: State, t: Tid) {
    t in s.pc && (s.pc[t].Wait? || s.pc[t].WaitWoken?)
  }

  /** A waiter gets past its semaphore exactly when it was released before: a signal that
      lands between its lock_release and its sema_down is kept, and nobody wakes without. */
  lemma PassesIffReleased(s: State, t: Tid)
    requires Inv(s) && AtTest(s, t)
    ensures Enabled(s, Step(t)) && Next(s, Step(t)).Ok?
    ensures Next(s, Step(t)).s.pc[t] == Reacquire <==> Released(s, t)
    ensures Next(s, Step(t)).s.pc[t] != Reacquire ==> Next(s, Step(t)).s.pc[t].WaitBlocked?
  {
    TestWaitGood(s, t, s.pc[t].c);
  }

  /** cond_signal's sema_up releases the waiter taken off the queue, wherever it is. */
  lemma SignalReleases(s: State, t: Tid)
    requires Inv(s) && t in s.pc && s.pc[t].Signal?
    ensures Enabled(s, Step(t)) && Next(s, Step(t)).Ok?
    ensures !Released(s, s.pc[t].w) && Released(Next(s, Step(t)).s, s.pc[t].w)
  {
    Parts(s);
    var c, w, all := s.pc[t].c, s.pc[t].w, s.pc[t].all;
    ClaimedWaiter(s.conds, s.waits, s.pc, t, c, w, all);
    hide CondInv, LockInv, Inv, AtMostOneInside, UpWait, PartOf;
    UpWaitIs(s, t, c, w, if all then Broadcast(c) else In);
  }

  /** Once released a waiter stays so until its own test of the semaphore. */
  lemma ReleasedStays(s: State, m: Move, s': State, t: Tid)
    requires Inv(s) && Follows(s, m, s') && Released(s, t) && (m.t != t || !AtTest(s, t))
    ensures Released(s', t)
  {
    if m.Step? && PartOf(s.pc[m.t]) == Keeps && s.pc[m.t] != Acquired {
      StaysOverRelease(s, m.t, s', t);
    } else if m.Step? && s.pc[m.t].Signal? {
      StaysOverSignal(s, m.t, s', t);
    } else {
      hide CondInv, LockInv, Inv;
    }
  }

  lemma StaysOverRelease(s: State, u: Tid, s': State, t: Tid)
    requires Inv(s) && Follows(s, Step(u), s') && Released(s, t) && PartOf(s.pc[u]) == Keeps && s.pc[u] != Acquired
    ensures Released(s', t)
  {
    Parts(s);
    hide CondInv, LockInv, Inv, UpLock;
    UpLockKeeps(s, u, if s.pc[u] == Release then Out else Wait(s.pc[u].c));
  }

  lemma StaysOverSignal(s: State, u: Tid, s': State, t: Tid)
    requires Inv(s) && Follows(s, Step(u), s') && Released(s, t) && s.pc[u].Signal?
    ensures Released(s', t)
  {
    Parts(s);
    var c, w, all := s.pc[u].c, s.pc[u].w, s.pc[u].all;
    ClaimedWaiter(s.conds, s.waits, s.pc, u, c, w, all);
    hide CondInv, LockInv, Inv, UpWait;
    UpWaitIs(s, u, c, w, if all then Broadcast(c) else In);
  }

  /** The waiters that are off their queue: claimed by a signaller or released. */
  function OffQueue(s: State): set<Tid> {
    Off(s.conds, s.pc)
  }

  predicate IsOff(conds: seq<seq<Tid>>, pc: Pc, t: Tid) {
    RoleOf(pc).Waits? && RoleOf(pc).c < |conds| && t !in conds[RoleOf(pc).c]
  }

  function Off(conds: seq<seq<Tid>>, pc: map<Tid, Pc>): set<Tid> {
    set t | t in pc && IsOff(conds, pc[t], t)
  }

  /** The move is a cond_signal, or a turn of cond_broadcast, on a non-empty queue. */
  predicate Signals(s: State, m: Move)
    requires Enabled(s, m)
  {
    match m
    case StartSignal(_, c) => s.conds[c] != []
    case Step(t) => s.pc[t].Broadcast? && s.pc[t].c < |s.conds| && s.conds[s.pc[t].c] != []
    case _ => false
  }

  /** The move takes a waiter past its semaphore. */
  predicate Passes(s: State, m: Move)
    requires Enabled(s, m)
  {
    m.Step? && AtTest(s, m.t) && Released(s, m.t)
  }

  lemma MovedOff(conds: seq<seq<Tid>>, pc: map<Tid, Pc>, t: Tid, next: Pc)
    requires t in pc && IsOff(conds, next, t) == IsOff(conds, pc[t], t)
    ensures Off(conds, pc[t := next]) == Off(conds, pc)
  {
    hide IsOff;
  }

  lemma MovedPlace(s: State, s': State, t: Tid, next: Pc)
    requires s'.conds == s.conds && t in s.pc && s'.pc == s.pc[t := next]
    requires !RoleOf(next).Waits? && !RoleOf(s.pc[t]).Waits?
    ensures OffQueue(s') == OffQueue(s)
  {
    MovedOff(s.conds, s.pc, t, next);
  }

  lemma SameRolesOff(conds: seq<seq<Tid>>, pc: map<Tid, Pc>, pc': map<Tid, Pc>)
    requires SameRoles(pc, pc')
    ensures Off(conds, pc') == Off(conds, pc)
  {
    hide RoleOf;
  }

  lemma TakenOff(conds: seq<seq<Tid>>, pc: map<Tid, Pc>, t: Tid, c: nat, next: Pc)
    requires QueuesOk(conds, pc) && t in pc && c < |conds| && conds[c] != []
    requires !RoleOf(pc[t]).Waits? && !RoleOf(next).Waits?
    ensures conds[c][0] !in Off(conds, pc)
    ensures Off(conds[c := conds[c][1..]], pc[t := next]) == Off(conds, pc) + {conds[c][0]}
  {
    var w := conds[c][0];
    assert w in conds[c] && w in pc && RoleOf(pc[w]).Waits? && RoleOf(pc[w]).c == c && w !in conds[c][1..];
    assert forall u :: u in conds[c] <==> u == w || u in conds[c][1..];
    hide RoleOf, QueuesOk;
    var conds', pc' := conds[c := conds[c][1..]], pc[t := next];
    forall u ensures u in Off(conds', pc') <==> u in Off(conds, pc) || u == w {
    }
  }

  lemma TakeOff(s: State, t: Tid, c: nat, all: bool)
    requires Inv(s) && t in s.pc && PartOf(s.pc[t]) == Holds && !s.pc[t].Signal? && c < |s.conds| && s.conds[c] != []
    ensures TakeWaiter(s, t, c, all).Ok?
    ensures s.conds[c][0] !in OffQueue(s) && OffQueue(TakeWaiter(s, t, c, all).s) == OffQueue(s) + {s.conds[c][0]}
  {
    Parts(s);
    TakenOff(s.conds, s.pc, t, c, Signal(c, s.conds[c][0], all));
    hide Inv, LockInv, CondInv, Off;
  }

  lemma WaitOff(s: State, t: Tid, c: nat)
    requires Inv(s) && t in s.pc && s.pc[t] == In && c < |s.conds|
    ensures Next(s, StartWait(t, c)).Ok? && OffQueue(Next(s, StartWait(t, c)).s) == OffQueue(s)
  {
    Parts(s);
    QueuedOff(s.conds, s.pc, t, c);
    hide Inv, LockInv, CondInv, Off;
  }

  lemma QueuedOff(conds: seq<seq<Tid>>, pc: map<Tid, Pc>, t: Tid, c: nat)
    requires t in pc && pc[t] == In && c < |conds|
    ensures Off(conds[c := conds[c] + [t]], pc[t := WaitRelease(c)]) == Off(conds, pc)
  {
    var conds', pc' := conds[c := conds[c] + [t]], pc[t := WaitRelease(c)];
    assert t in conds'[c];
    forall u ensures u in Off(conds', pc') <==> u in Off(conds, pc) {
    }
  }

  lemma PassOff(s: State, t: Tid, c: nat)
    requires Inv(s) && t in s.pc && (s.pc[t] == Wait(c) || s.pc[t] == WaitWoken(c))
    ensures t in s.waits
    ensures if Released(s, t) then t in OffQueue(s) && OffQueue(TestWait(s, t, c)) == OffQueue(s) - {t}
            else OffQueue(TestWait(s, t, c)) == OffQueue(s)
  {
    Parts(s);
    assert WaiterOk(s.conds, s.waits, s.pc, t);
    hide Inv, LockInv, CondInv;
    if Released(s, t) {
      GoneOff(s.conds, s.pc, t, Reacquire);
    } else {
      MovedOff(s.conds, s.pc, t, WaitBlocked(c));
    }
  }

  lemma GoneOff(conds: seq<seq<Tid>>, pc: map<Tid, Pc>, t: Tid, next: Pc)
    requires t in pc && !RoleOf(next).Waits?
    ensures Off(conds, pc[t := next]) == Off(conds, pc) - {t}
  {
  }

  lemma UpLockOff(s: State, t: Tid, next: Pc)
    requires Inv(s) && t in s.pc && PartOf(s.pc[t]) == Keeps && PartOf(next) == Apart && RoleOf(s.pc[t]) == RoleOf(next)
    ensures UpLock(s, t, next).Ok? && OffQueue(UpLock(s, t, next).s) == OffQueue(s)
  {
    Parts(s);
    hide LockInv, CondInv, Inv, UpLock;
    UpLockKeeps(s, t, next);
    RolesAfterUp(s.pc, UpLock(s, t, next).s.pc, t);
    SameRolesOff(s.conds, s.pc, UpLock(s, t, next).s.pc);
  }

  lemma UpWaitOff(s: State, t: Tid, c: nat, w: Tid, all: bool)
    requires Inv(s) && t in s.pc && s.pc[t] == Signal(c, w, all)
    ensures w in s.waits
    ensures var next := if all then Broadcast(c) else In;
            UpWait(s, t, w, next).Ok? && OffQueue(UpWait(s, t, w, next).s) == OffQueue(s)
  {
    Parts(s);
    ClaimedWaiter(s.conds, s.waits, s.pc, t, c, w, all);
    var next := if all then Broadcast(c) else In;
    var next' := if s.pc[w].WaitBlocked? then WaitWoken(c) else s.pc[w];
    MovedOff(s.conds, s.pc, w, next');
    MovedOff(s.conds, s.pc[w := next'], t, next);
    hide *;
    UpWaitKeeps(s, t, c, w, all, next);
    OffQueueIs(s);
    OffQueueIs(UpWait(s, t, w, next).s);
  }

  lemma OffQueueIs(s: State)
    ensures OffQueue(s) == Off(s.conds, s.pc)
  {
  }

  /** Steps on the lock move no waiter. */
  lemma LockStepOff(s: State, t: Tid)
    requires Inv(s) && t in s.pc && Running(s.pc[t]) && !RoleOf(s.pc[t]).Signals? && !RoleOf(s.pc[t]).Tests? && !AtTest(s, t)
    ensures Continue(s, t).Ok? && OffQueue(Continue(s, t).s) == OffQueue(s)
  {
    Parts(s);
    ContinueGood(s, t);
    hide LockInv, CondInv, Inv, Good, UpLock, OffQueue, AtMostOneInside;
    match s.pc[t]
    case Acquire => MovedPlace(s, TestLock(s, t), t, TestLock(s, t).pc[t]);
    case AcquireWoken => MovedPlace(s, TestLock(s, t), t, TestLock(s, t).pc[t]);
    case Acquired => MovedPlace(s, Continue(s, t).s, t, In);
    case Release => UpLockOff(s, t, Out);
    case WaitRelease(c) => UpLockOff(s, t, Wait(c));
    case Reacquire => MovedPlace(s, Continue(s, t).s, t, Acquire);
  }

  lemma ContinueOff(s: State, t: Tid)
    requires Inv(s) && t in s.pc && Running(s.pc[t])
    ensures Continue(s, t).Ok?
    ensures |OffQueue(Continue(s, t).s)|
         == |OffQueue(s)| + (if Signals(s, Step(t)) then 1 else 0) - if Passes(s, Step(t)) then 1 else 0
  {
    Parts(s);
    hide LockInv, CondInv, Inv, Good, UpLock, UpWait, TestLock, TestWait, OffQueue, AtMostOneInside, Released;
    match s.pc[t]
    case Wait(c) => PassOff(s, t, c); Fewer(OffQueue(s), t);
    case WaitWoken(c) => PassOff(s, t, c); Fewer(OffQueue(s), t);
    case Signal(c, w, all) => UpWaitOff(s, t, c, w, all);
    case Broadcast(c) =>
      if s.conds[c] == [] {
        MovedPlace(s, Continue(s, t).s, t, In);
      } else {
        TakeOff(s, t, c, true);
      }
    case _ => LockStepOff(s, t);
  }

  lemma Fewer(q: set<Tid>, t: Tid)
    ensures t in q ==> |q - {t}| == |q| - 1
  {
    if t in q {
      assert q == (q - {t}) + {t};
    }
  }

  /** One waiter leaves its queue for each signal on a non-empty queue, and one waiter
      passes for each that left. */
  lemma NextOff(s: State, m: Move, s': State)
    requires Inv(s) && Follows(s, m, s')
    ensures |OffQueue(s')| == |OffQueue(s)| + (if Signals(s, m) then 1 else 0) - if Passes(s, m) then 1 else 0
  {
    Parts(s);
    hide LockInv, CondInv, Inv, OffQueue, AtMostOneInside, Continue;
    match m
    case Step(t) => ContinueOff(s, t);
    case TryAcquire(t) => if s' != s { MovedPlace(s, s', t, Acquired); }
    case StartAcquire(t) => MovedPlace(s, s', t, Acquire);
    case StartRelease(t) => MovedPlace(s, s', t, Release);
    case StartWait(t, c) => WaitOff(s, t, c);
    case StartSignal(t, c) =>
      if s.conds[c] == [] {
        MovedPlace(s, s', t, In);
      } else {
        TakeOff(s, t, c, false);
      }
    case StartBroadcast(t, c) => MovedPlace(s, s', t, Broadcast(c));
  }

  function CountSignals(moves: seq<Move>, states: seq<State>, i: nat): nat
    requires i <= |moves| <= |states|
  {
    if i == 0 then 0
    else CountSignals(moves, states, i - 1)
         + if Enabled(states[i - 1], moves[i - 1]) && Signals(states[i - 1], moves[i - 1]) then 1 else 0
  }

  function CountPasses(moves: seq<Move>, states: seq<State>, i: nat): nat
    requires i <= |moves| <= |states|
  {
    if i == 0 then 0
    else CountPasses(moves, states, i - 1)
         + if Enabled(states[i - 1], moves[i - 1]) && Passes(states[i - 1], moves[i - 1]) then 1 else 0
  }

  /** In every interleaving each signal on a non-empty queue lets exactly one waiter pass:
      the signals so far are the waiters that passed and those still on their way. */
  lemma {:induction false} SignalsBalance(threads: set<Tid>, n: nat, moves: seq<Move>, states: seq<State>, i: nat)
    requires IsRun(threads, n, moves, states) && i <= |moves|
    ensures CountSignals(moves, states, i) == CountPasses(moves, states, i) + |OffQueue(states[i])|
  {
    hide Inv, Follows, OffQueue, Signals, Passes, Enabled;
    if i == 0 {
      NobodyWaits(threads, n);
    } else {
      SignalsBalance(threads, n, moves, states, i - 1);
      RunInv(threads, n, moves, states, i - 1);
      EnabledIs(states[i - 1], moves[i - 1], states[i]);
      NextOff(states[i - 1], moves[i - 1], states[i]);
    }
  }

  lemma EnabledIs(s: State, m: Move, s': State)
    requires Follows(s, m, s')
    ensures Enabled(s, m)
  {
  }

  lemma NobodyWaits(threads: set<Tid>, n: nat)
    ensures OffQueue(Initial(threads, n)) == {}
  {
  }
}
