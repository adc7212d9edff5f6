/** What every step of every thread keeps: mutual exclusion, no lost wakeup on the lock, and
    one release for each signal. */
module MonitorSafety {
  import opened Sequences
  import opened Bitmap
  import opened Semaphores
  import opened Monitors

  // ---------------------------------------------------------------- the lock

  /** A thread's part in the lock: Keeps stands for past sema_down and not yet at sema_up
      with the holder not set, Holds for the same with the holder set. */
  datatype Part = Apart | Sleeps | Wakes | Keeps | Holds

  function PartOf(pc: Pc): Part {
    match pc
    case AcquireBlocked => Sleeps
    case AcquireWoken => Wakes
    case Acquired => Keeps
    case Release => Keeps
    case WaitRelease(_) => Keeps
    case In => Holds
    case Signal(_, _, _) => Holds
    case Broadcast(_) => Holds
    case _ => Apart
  }

  predicate Inside(pc: Pc) {
    PartOf(pc) == Keeps || PartOf(pc) == Holds
  }

  ghost predicate AtMostOneInside(pc: map<Tid, Pc>) {
    forall t, u :: t in pc && u in pc && Inside(pc[t]) && Inside(pc[u]) ==> t == u
  }

  ghost predicate SomeInside(pc: map<Tid, Pc>) {
    exists t :: t in pc && Inside(pc[t])
  }

  ghost predicate HolderOk(holder: Option<Tid>, pc: map<Tid, Pc>) {
    && (forall t :: t in pc ==> (holder == Some(t) <==> PartOf(pc[t]) == Holds))
    && (holder.Some? ==> holder.value in pc)
  }

  ghost predicate LockQueueOk(q: seq<Tid>, pc: map<Tid, Pc>) {
    Distinct(q) && forall t :: t in q <==> t in pc && PartOf(pc[t]) == Sleeps
  }

  ghost predicate LockInv(lock: Sema, holder: Option<Tid>, pc: map<Tid, Pc>) {
    && AtMostOneInside(pc)
    && lock.value == (if SomeInside(pc) then 0 else 1)
    && HolderOk(holder, pc)
    && LockQueueOk(lock.waiters, pc)
    && (lock.value > 0 && lock.waiters != [] ==> exists t :: t in pc && PartOf(pc[t]) == Wakes)
  }

  ghost predicate SameParts(pc: map<Tid, Pc>, pc': map<Tid, Pc>) {
    pc'.Keys == pc.Keys && forall t :: t in pc ==> PartOf(pc'[t]) == PartOf(pc[t])
  }

  lemma LockFrame(lock: Sema, holder: Option<Tid>, pc: map<Tid, Pc>, pc': map<Tid, Pc>)
    requires LockInv(lock, holder, pc) && SameParts(pc, pc')
    ensures LockInv(lock, holder, pc')
  {
    if SomeInside(pc) {
      var t :| t in pc && Inside(pc[t]);
      assert Inside(pc'[t]);
    }
    if lock.value > 0 && lock.waiters != [] {
      var t :| t in pc && PartOf(pc[t]) == Wakes;
      assert PartOf(pc'[t]) == Wakes;
    }
  }

  /** One test of the semaphore by a thread outside. */
  lemma TestLockKeeps(s: State, t: Tid)
    requires LockInv(s.lock, s.holder, s.pc) && t in s.pc && (PartOf(s.pc[t]) == Apart || PartOf(s.pc[t]) == Wakes)
    ensures var s' := TestLock(s, t); LockInv(s'.lock, s'.holder, s'.pc)
  {
    var s' := TestLock(s, t);
    if s.lock.value == 0 {
      var u :| u in s.pc && Inside(s.pc[u]);
      assert u in s'.pc && Inside(s'.pc[u]);
    } else {
      assert Inside(s'.pc[t]);
    }
  }

  /** The holder of the semaphore goes outside, with nobody waiting ... */
  lemma LeaveAlone(lock: Sema, holder: Option<Tid>, pc: map<Tid, Pc>, t: Tid, next: Pc)
    requires LockInv(lock, holder, pc) && t in pc && PartOf(pc[t]) == Keeps && PartOf(next) == Apart && lock.waiters == []
    ensures lock.value == 0 && LockInv(lock.(value := 1), holder, pc[t := next])
  {
    assert Inside(pc[t]);
  }

  /** ... or waking the first waiter. */
  lemma LeaveWaking(lock: Sema, holder: Option<Tid>, pc: map<Tid, Pc>, t: Tid, next: Pc)
    requires LockInv(lock, holder, pc) && t in pc && PartOf(pc[t]) == Keeps && PartOf(next) == Apart && lock.waiters != []
    ensures lock.value == 0 && lock.waiters[0] in pc && pc[lock.waiters[0]] == AcquireBlocked
    ensures LockInv(Sema(1, lock.waiters[1..]), holder, pc[lock.waiters[0] := AcquireWoken][t := next])
  {
    var q := lock.waiters;
    assert Inside(pc[t]);
    assert q[0] in q;
    assert forall u :: u in q <==> u == q[0] || u in q[1..];
    var pc' := pc[q[0] := AcquireWoken][t := next];
    assert PartOf(pc'[q[0]]) == Wakes;
  }

  /** Only the thread's own place changes, or that of one thread that it wakes. */
  ghost predicate WakesAtMost(pc: map<Tid, Pc>, pc': map<Tid, Pc>, t: Tid) {
    && pc'.Keys == pc.Keys
    && forall u :: u in pc && u != t ==> pc'[u] == pc[u] || (pc[u] == AcquireBlocked && pc'[u] == AcquireWoken)
  }

  lemma UpLockKeeps(s: State, t: Tid, next: Pc)
    requires LockInv(s.lock, s.holder, s.pc) && t in s.pc && PartOf(s.pc[t]) == Keeps && PartOf(next) == Apart
    ensures UpLock(s, t, next).Ok?
    ensures var s' := UpLock(s, t, next).s;
            && LockInv(s'.lock, s'.holder, s'.pc) && s'.conds == s.conds && s'.waits == s.waits
            && s'.pc[t] == next && WakesAtMost(s.pc, s'.pc, t)
  {
    hide LockInv;
    if s.lock.waiters == [] {
      LeaveAlone(s.lock, s.holder, s.pc, t, next);
    } else {
      LeaveWaking(s.lock, s.holder, s.pc, t, next);
    }
  }

  /** Setting and clearing the holder. */
  lemma HolderKeeps(s: State, t: Tid, holder: Option<Tid>, next: Pc)
    requires LockInv(s.lock, s.holder, s.pc) && t in s.pc && Inside(s.pc[t]) && Inside(next)
    requires holder == if PartOf(next) == Holds then Some(t) else None
    ensures LockInv(s.lock, holder, s.pc[t := next])
  {
    var pc' := s.pc[t := next];
    assert Inside(pc'[t]);
  }

  lemma TryKeeps(s: State, t: Tid)
    requires LockInv(s.lock, s.holder, s.pc) && t in s.pc && PartOf(s.pc[t]) == Apart
    ensures var (sema, passed) := TryDown(s.lock);
            passed ==> LockInv(sema, s.holder, s.pc[t := Acquired])
  {
    assert Inside(s.pc[t := Acquired][t]);
  }

  // ---------------------------------------------------------------- the condition variables

  /** A thread's part in the conditions: in cond_wait, asleep or woken on its own
      semaphore; or about to raise that of waiter `w`. */
  datatype Role = NoRole | Waits(c: nat, asleep: bool, woken: bool) | Signals(c: nat, w: Tid) | Tests(c: nat)

  function RoleOf(pc: Pc): Role {
    match pc
    case WaitRelease(c) => Waits(c, false, false)
    case Wait(c) => Waits(c, false, false)
    case WaitBlocked(c) => Waits(c, true, false)
    case WaitWoken(c) => Waits(c, false, true)
    case Signal(c, w, _) => Signals(c, w)
    case Broadcast(c) => Tests(c)
    case _ => NoRole
  }

  /** Waiter `w` is off the queue and some thread is about to raise its semaphore. */
  ghost predicate Claimed(pc: map<Tid, Pc>, w: Tid) {
    exists u :: u in pc && pc[u].Signal? && pc[u].w == w
  }

  ghost predicate QueuesOk(conds: seq<seq<Tid>>, pc: map<Tid, Pc>) {
    forall c :: 0 <= c < |conds| ==>
      Distinct(conds[c]) && forall t :: t in conds[c] ==> t in pc && RoleOf(pc[t]).Waits? && RoleOf(pc[t]).c == c
  }

  ghost predicate ClaimsOk(pc: map<Tid, Pc>) {
    forall u :: u in pc && pc[u].Signal? ==>
      pc[u].w in pc && RoleOf(pc[pc[u].w]).Waits? && RoleOf(pc[pc[u].w]).c == pc[u].c
  }

  /** A thread in cond_wait is queued, or claimed by a signaller, or released: exactly one
      of the three, and released means that its semaphore is at one. */
  ghost predicate WaiterOk(conds: seq<seq<Tid>>, waits: map<Tid, Sema>, pc: map<Tid, Pc>, t: Tid)
    requires t in pc && RoleOf(pc[t]).Waits?
  {
    var role := RoleOf(pc[t]);
    && role.c < |conds| && t in waits
    && waits[t].waiters == (if role.asleep then [t] else [])
    && (if t in conds[role.c] || Claimed(pc, t) then waits[t].value == 0 else waits[t].value == 1)
    && !(t in conds[role.c] && Claimed(pc, t))
    && (role.asleep ==> waits[t].value == 0)
    && (role.woken ==> waits[t].value == 1)
  }

  ghost predicate CondInv(conds: seq<seq<Tid>>, waits: map<Tid, Sema>, pc: map<Tid, Pc>) {
    && QueuesOk(conds, pc)
    && ClaimsOk(pc)
    && (forall t :: t in pc && RoleOf(pc[t]).Waits? ==> WaiterOk(conds, waits, pc, t))
    && (forall t :: t in pc && RoleOf(pc[t]).Tests? ==> RoleOf(pc[t]).c < |conds|)
  }

  ghost predicate SameRoles(pc: map<Tid, Pc>, pc': map<Tid, Pc>) {
    pc'.Keys == pc.Keys && forall t :: t in pc ==> RoleOf(pc'[t]) == RoleOf(pc[t])
  }

  lemma SameClaims(pc: map<Tid, Pc>, pc': map<Tid, Pc>, w: Tid)
    requires SameRoles(pc, pc')
    ensures Claimed(pc', w) <==> Claimed(pc, w)
  {
    forall u | u in pc ensures pc'[u].Signal? == pc[u].Signal? && (pc[u].Signal? ==> pc'[u].w == pc[u].w) {
      assert RoleOf(pc'[u]) == RoleOf(pc[u]);
    }
  }

  lemma CondFrame(conds: seq<seq<Tid>>, waits: map<Tid, Sema>, pc: map<Tid, Pc>, pc': map<Tid, Pc>)
    requires CondInv(conds, waits, pc) && SameRoles(pc, pc')
    ensures CondInv(conds, waits, pc')
  {
    forall t | t in pc' && RoleOf(pc'[t]).Waits? ensures WaiterOk(conds, waits, pc', t) {
      assert WaiterOk(conds, waits, pc, t);
      SameClaims(pc, pc', t);
    }
    forall u | u in pc' && pc'[u].Signal?
      ensures pc'[u].w in pc' && RoleOf(pc'[pc'[u].w]).Waits? && RoleOf(pc'[pc'[u].w]).c == pc'[u].c
    {
      assert RoleOf(pc'[u]) == RoleOf(pc[u]);
    }
  }

  /** A change of one thread that is neither waiting nor signalling before or after. */
  lemma CondQuiet(conds: seq<seq<Tid>>, waits: map<Tid, Sema>, pc: map<Tid, Pc>, t: Tid, next: Pc)
    requires CondInv(conds, waits, pc) && t in pc
    requires RoleOf(pc[t]).NoRole? || RoleOf(pc[t]).Tests?
    requires RoleOf(next).NoRole? || (RoleOf(next).Tests? && RoleOf(next).c < |conds|)
    ensures CondInv(conds, waits, pc[t := next])
  {
    var pc' := pc[t := next];
    forall w ensures Claimed(pc', w) <==> Claimed(pc, w) {
      ClaimsMoved(pc, t, next, w);
    }
    forall u | u in pc' && RoleOf(pc'[u]).Waits? ensures WaiterOk(conds, waits, pc', u) {
      assert WaiterOk(conds, waits, pc, u);
    }
  }

  lemma ClaimsMoved(pc: map<Tid, Pc>, t: Tid, next: Pc, w: Tid)
    requires t in pc && !pc[t].Signal?
    ensures Claimed(pc[t := next], w) <==> Claimed(pc, w) || (next.Signal? && next.w == w)
  {
    var pc' := pc[t := next];
    if Claimed(pc, w) {
      var u :| u in pc && pc[u].Signal? && pc[u].w == w;
      assert pc'[u] == pc[u];
    }
    if next.Signal? && next.w == w {
      assert pc'[t] == next;
    }
  }

  /** A thread that is not waiting is on no queue and unclaimed. */
  lemma NotWaiting(conds: seq<seq<Tid>>, waits: map<Tid, Sema>, pc: map<Tid, Pc>, t: Tid)
    requires CondInv(conds, waits, pc) && t in pc && !RoleOf(pc[t]).Waits?
    ensures !Claimed(pc, t) && forall c :: 0 <= c < |conds| ==> t !in conds[c]
  {
  }

  /** cond_wait: a fresh semaphore and a place at the end of the queue. */
  lemma WaitKeeps(conds: seq<seq<Tid>>, waits: map<Tid, Sema>, pc: map<Tid, Pc>, t: Tid, c: nat)
    requires CondInv(conds, waits, pc) && t in pc && pc[t] == In && c < |conds|
    ensures CondInv(conds[c := conds[c] + [t]], waits[t := Sema(0, [])], pc[t := WaitRelease(c)])
  {
    var conds', waits', pc' := conds[c := conds[c] + [t]], waits[t := Sema(0, [])], pc[t := WaitRelease(c)];
    NotWaiting(conds, waits, pc, t);
    forall w ensures Claimed(pc', w) <==> Claimed(pc, w) {
      ClaimsMoved(pc, t, WaitRelease(c), w);
    }
    forall u | u in pc' && RoleOf(pc'[u]).Waits? ensures WaiterOk(conds', waits', pc', u) {
      if u != t {
        assert WaiterOk(conds, waits, pc, u);
      } else {
        assert t in conds'[c];
      }
    }
  }

  /** The waiter passes its own semaphore exactly when it has been released. */
  lemma TestWaitKeeps(s: State, t: Tid, c: nat)
    requires CondInv(s.conds, s.waits, s.pc) && t in s.pc && (s.pc[t] == Wait(c) || s.pc[t] == WaitWoken(c))
    ensures t in s.waits && c < |s.conds|
    ensures var s' := TestWait(s, t, c);
            && CondInv(s'.conds, s'.waits, s'.pc) && s'.conds == s.conds && s'.lock == s.lock && s'.holder == s.holder
            && s'.pc == s.pc[t := s'.pc[t]] && (s'.pc[t] == Reacquire || s'.pc[t] == WaitBlocked(c))
            && (s'.pc[t] == Reacquire <==> t !in s.conds[c] && !Claimed(s.pc, t))
  {
    assert WaiterOk(s.conds, s.waits, s.pc, t);
    var s' := TestWait(s, t, c);
    forall w ensures Claimed(s'.pc, w) <==> Claimed(s.pc, w) {
      ClaimsMoved(s.pc, t, s'.pc[t], w);
    }
    forall u | u in s'.pc && RoleOf(s'.pc[u]).Waits? ensures WaiterOk(s'.conds, s'.waits, s'.pc, u) {
      assert WaiterOk(s.conds, s.waits, s.pc, u);
    }
  }

  /** The first waiter changes from queued to claimed. */
  lemma TakeKeeps(conds: seq<seq<Tid>>, waits: map<Tid, Sema>, pc: map<Tid, Pc>, t: Tid, c: nat, all: bool)
    requires CondInv(conds, waits, pc) && t in pc && PartOf(pc[t]) == Holds && !pc[t].Signal?
    requires c < |conds| && conds[c] != []
    ensures CondInv(conds[c := conds[c][1..]], waits, pc[t := Signal(c, conds[c][0], all)])
  {
    var w, next := conds[c][0], Signal(c, conds[c][0], all);
    var conds', pc' := conds[c := conds[c][1..]], pc[t := next];
    assert w in conds[c];
    assert forall u :: u in conds[c] <==> u == w || u in conds[c][1..];
    assert WaiterOk(conds, waits, pc, w);
    forall v ensures Claimed(pc', v) <==> Claimed(pc, v) || v == w {
      ClaimsMoved(pc, t, next, v);
    }
    forall u | u in pc' && RoleOf(pc'[u]).Waits? ensures WaiterOk(conds', waits, pc', u) {
      assert WaiterOk(conds, waits, pc, u);
    }
  }

  /** Raising the waiter's semaphore: from claimed to released, asleep or not. */
  lemma UpWaitKeeps(s: State, t: Tid, c: nat, w: Tid, all: bool, next: Pc)
    requires CondInv(s.conds, s.waits, s.pc) && AtMostOneInside(s.pc)
    requires t in s.pc && s.pc[t] == Signal(c, w, all) && next == if all then Broadcast(c) else In
    ensures c < |s.conds| && w in s.waits && w in s.pc && w != t && UpWait(s, t, w, next).Ok?
    ensures var s' := UpWait(s, t, w, next).s;
            && CondInv(s'.conds, s'.waits, s'.pc) && s'.conds == s.conds && s'.lock == s.lock && s'.holder == s.holder
            && s'.waits[w].value == 1
            && s'.pc == s.pc[w := if s.pc[w].WaitBlocked? then WaitWoken(c) else s.pc[w]][t := next]
  {
    ClaimedWaiter(s.conds, s.waits, s.pc, t, c, w, all);
    UpWaitIs(s, t, c, w, next);
    hide CondInv, AtMostOneInside, UpWait;
    ReleasedKeeps(s.conds, s.waits, s.pc, t, c, w, all, next);
  }

  lemma ClaimedWaiter(conds: seq<seq<Tid>>, waits: map<Tid, Sema>, pc: map<Tid, Pc>, t: Tid, c: nat, w: Tid, all: bool)
    requires CondInv(conds, waits, pc) && t in pc && pc[t] == Signal(c, w, all)
    ensures c < |conds| && w in pc && w != t && RoleOf(pc[w]).Waits? && RoleOf(pc[w]).c == c
    ensures w in waits && waits[w] == Sema(0, if RoleOf(pc[w]).asleep then [w] else []) && !RoleOf(pc[w]).woken
    ensures w !in conds[c]
  {
    assert Claimed(pc, w) by { assert pc[t].w == w; }
    assert pc[t].Signal?;
    assert WaiterOk(conds, waits, pc, w);
  }

  lemma UpWaitIs(s: State, t: Tid, c: nat, w: Tid, next: Pc)
    requires w in s.pc && w != t && RoleOf(s.pc[w]).Waits? && RoleOf(s.pc[w]).c == c
    requires w in s.waits && s.waits[w] == Sema(0, if RoleOf(s.pc[w]).asleep then [w] else [])
    ensures UpWait(s, t, w, next)
         == Ok(s.(waits := s.waits[w := Sema(1, [])],
                  pc := s.pc[w := if s.pc[w].WaitBlocked? then WaitWoken(c) else s.pc[w]][t := next]))
  {
    assert s.pc[w := s.pc[w]] == s.pc;
    assert [w][1..] == [] && [w][0] == w;
    if s.pc[w].WaitBlocked? {
      assert Up(s.waits[w]) == (Sema(1, []), Some(w));
    } else {
      assert !RoleOf(s.pc[w]).asleep;
      assert Up(s.waits[w]) == (Sema(1, []), None);
    }
  }

  lemma ReleasedKeeps(conds: seq<seq<Tid>>, waits: map<Tid, Sema>, pc: map<Tid, Pc>, t: Tid, c: nat, w: Tid, all: bool, next: Pc)
    requires CondInv(conds, waits, pc) && AtMostOneInside(pc) && t in pc && pc[t] == Signal(c, w, all)
    requires next == if all then Broadcast(c) else In
    requires c < |conds| && w in pc && w != t && RoleOf(pc[w]).Waits? && RoleOf(pc[w]).c == c && w !in conds[c]
    ensures CondInv(conds, waits[w := Sema(1, [])],
                    pc[w := if pc[w].WaitBlocked? then WaitWoken(c) else pc[w]][t := next])
  {
    var pc' := pc[w := if pc[w].WaitBlocked? then WaitWoken(c) else pc[w]][t := next];
    hide CondInv, AtMostOneInside;
    ReleasedPointwise(conds, waits, pc, pc', t, c, w);
  }

  lemma ReleasedPointwise(conds: seq<seq<Tid>>, waits: map<Tid, Sema>, pc: map<Tid, Pc>, pc': map<Tid, Pc>, t: Tid, c: nat, w: Tid)
    requires CondInv(conds, waits, pc) && AtMostOneInside(pc) && t in pc && pc[t].Signal? && pc[t].w == w
    requires c < |conds| && w in pc && w != t && RoleOf(pc[w]).Waits? && RoleOf(pc[w]).c == c && w !in conds[c]
    requires pc'.Keys == pc.Keys && (pc'[t] == Broadcast(c) || pc'[t] == In)
    requires pc'[w] == if pc[w].WaitBlocked? then WaitWoken(c) else pc[w]
    requires forall u :: u in pc && u != t && u != w ==> pc'[u] == pc[u]
    ensures CondInv(conds, waits[w := Sema(1, [])], pc')
  {
    NoSignalLeft(pc, pc', t);
    QueuesStay(conds, pc, pc');
    hide Claimed, ClaimsOk, QueuesOk, AtMostOneInside;
    forall u | u in pc' && RoleOf(pc'[u]).Waits? ensures WaiterOk(conds, waits[w := Sema(1, [])], pc', u) {
      assert WaiterOk(conds, waits, pc, u);
      OneClaim(pc, pc', t, w, u);
      OtherWaiter(conds, waits, pc, pc', u, w, c);
    }
  }

  lemma QueuesStay(conds: seq<seq<Tid>>, pc: map<Tid, Pc>, pc': map<Tid, Pc>)
    requires QueuesOk(conds, pc) && pc'.Keys == pc.Keys
    requires forall u :: u in pc && RoleOf(pc[u]).Waits? ==> RoleOf(pc'[u]).Waits? && RoleOf(pc'[u]).c == RoleOf(pc[u]).c
    ensures QueuesOk(conds, pc')
  {
  }

  lemma OtherWaiter(conds: seq<seq<Tid>>, waits: map<Tid, Sema>, pc: map<Tid, Pc>, pc': map<Tid, Pc>, u: Tid, w: Tid, c: nat)
    requires u in pc && RoleOf(pc[u]).Waits? && WaiterOk(conds, waits, pc, u) && u in pc'
    requires pc'[u] == if u == w && pc[w].WaitBlocked? then WaitWoken(c) else pc[u]
    requires u == w ==> RoleOf(pc[w]).c == c && w !in conds[c]
    requires Claimed(pc', u) <==> Claimed(pc, u) && u != w
    ensures WaiterOk(conds, waits[w := Sema(1, [])], pc', u)
  {
    hide Claimed;
  }

  lemma NoSignalLeft(pc: map<Tid, Pc>, pc': map<Tid, Pc>, t: Tid)
    requires AtMostOneInside(pc) && t in pc && pc[t].Signal? && pc'.Keys == pc.Keys && !pc'[t].Signal?
    requires forall u :: u in pc && u != t ==> pc'[u].Signal? == pc[u].Signal?
    ensures ClaimsOk(pc')
  {
    forall u | u in pc && pc[u].Signal? ensures u == t {
      assert Inside(pc[u]) && Inside(pc[t]);
    }
  }

  /** Only one thread signals at a time. */
  lemma OneClaim(pc: map<Tid, Pc>, pc': map<Tid, Pc>, t: Tid, w: Tid, v: Tid)
    requires AtMostOneInside(pc) && t in pc && pc[t].Signal? && pc[t].w == w
    requires pc'.Keys == pc.Keys && !pc'[t].Signal?
    requires forall u :: u in pc && u != t ==> pc'[u].Signal? == pc[u].Signal? && (pc[u].Signal? ==> pc'[u] == pc[u])
    ensures Claimed(pc', v) <==> Claimed(pc, v) && v != w
  {
    forall u | u in pc && pc[u].Signal? ensures u == t {
      assert Inside(pc[u]) && Inside(pc[t]);
    }
  }
}
