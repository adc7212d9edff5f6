/** A lock and the condition variables it protects, in every interleaving of any number of
    threads.  Interrupts are off only inside the semaphore operations, so setting and
    clearing the holder, queueing on a condition and waiting are steps of their own. */
module Monitors {
  import opened Bitmap
  import opened Semaphores

  /** Where a thread is.  `c` is a condition variable. */
  datatype Pc =
    | Out                                        // neither holds nor wants the lock
    | Acquire                                    // lock_acquire: before sema_down
    | AcquireBlocked                             // asleep in sema_down
    | AcquireWoken                               // unblocked, before testing again
    | Acquired                                   // past sema_down, holder not yet set
    | In                                         // holds the lock
    | Release                                    // lock_release: holder cleared, before sema_up
    | WaitRelease(c: nat)                        // the same within cond_wait
    | Wait(c: nat)                               // cond_wait: before sema_down on its own semaphore
    | WaitBlocked(c: nat)
    | WaitWoken(c: nat)
    | Reacquire                                  // cond_wait: before lock_acquire
    | Signal(c: nat, w: Tid, all: bool)          // has taken waiter w off the queue, before sema_up
    | Broadcast(c: nat)                          // cond_broadcast: before testing the queue again

  /** `waits` holds the semaphore of each thread's latest struct semaphore_elem. */
  datatype State = State(lock: Sema, holder: Option<Tid>, conds: seq<seq<Tid>>, waits: map<Tid, Sema>, pc: map<Tid, Pc>)

  datatype Move =
    | Step(t: Tid)                               // the thread's next step, where there is one only
    | TryAcquire(t: Tid)
    | StartAcquire(t: Tid)
    | StartRelease(t: Tid)
    | StartWait(t: Tid, c: nat)
    | StartSignal(t: Tid, c: nat)
    | StartBroadcast(t: Tid, c: nat)

  function At(s: State, t: Tid, pc: Pc): State {
    s.(pc := s.pc[t := pc])
  }

  /** Callers start an operation only where its header allows it: acquiring without the
      lock, the others with it. */
  predicate Enabled(s: State, m: Move) {
    && m.t in s.pc
    && match m
       case Step(t) => Running(s.pc[t])
       case TryAcquire(t) => s.pc[t] == Out
       case StartAcquire(t) => s.pc[t] == Out
       case StartRelease(t) => s.pc[t] == In
       case StartWait(t, c) => s.pc[t] == In && c < |s.conds|
       case StartSignal(t, c) => s.pc[t] == In && c < |s.conds|
       case StartBroadcast(t, c) => s.pc[t] == In && c < |s.conds|
  }

  predicate Running(pc: Pc) {
    pc != Out && pc != In && pc != AcquireBlocked && !pc.WaitBlocked?
  }

  // ---------------------------------------------------------------- steps

  /** One test of the lock's semaphore. */
  function TestLock(s: State, t: Tid): State {
    var (sema, passed) := Test(s.lock, t);
    At(s.(lock := sema), t, if passed then Acquired else AcquireBlocked)
  }

  /** sema_up on the lock's semaphore. */
  function UpLock(s: State, t: Tid, next: Pc): Outcome<State> {
    var (sema, woken) := Up(s.lock);
    match woken
    case None => Ok(At(s.(lock := sema), t, next))
    case Some(u) =>
      if u in s.pc && s.pc[u] == AcquireBlocked then Ok(At(At(s.(lock := sema), u, AcquireWoken), t, next)) else Fail
  }

  /** One test of a waiter's own semaphore. */
  function TestWait(s: State, t: Tid, c: nat): State
    requires t in s.waits
  {
    var (sema, passed) := Test(s.waits[t], t);
    At(s.(waits := s.waits[t := sema]), t, if passed then Reacquire else WaitBlocked(c))
  }

  /** sema_up on a waiter's semaphore. */
  function UpWait(s: State, t: Tid, w: Tid, next: Pc): Outcome<State>
    requires w in s.waits
  {
    var (sema, woken) := Up(s.waits[w]);
    match woken
    case None => Ok(At(s.(waits := s.waits[w := sema]), t, next))
    case Some(u) =>
      if u in s.pc && s.pc[u].WaitBlocked?
      then Ok(At(At(s.(waits := s.waits[w := sema]), u, WaitWoken(s.pc[u].c)), t, next))
      else Fail
  }

  /** The beginning of cond_signal: the assertion, and the first waiter taken off. */
  function TakeWaiter(s: State, t: Tid, c: nat, all: bool): Outcome<State>
    requires c < |s.conds|
  {
    if s.holder != Some(t) then Fail
    else if s.conds[c] == [] then Ok(At(s, t, In))
    else Ok(At(s.(conds := s.conds[c := s.conds[c][1..]]), t, Signal(c, s.conds[c][0], all)))
  }

  function Continue(s: State, t: Tid): Outcome<State>
    requires t in s.pc && Running(s.pc[t])
  {
    match s.pc[t]
    case Acquire => Ok(TestLock(s, t))
    case AcquireWoken => Ok(TestLock(s, t))
    case Acquired => Ok(At(s.(holder := Some(t)), t, In))
    case Release => UpLock(s, t, Out)
    case WaitRelease(c) => UpLock(s, t, Wait(c))
    case Wait(c) => if t in s.waits then Ok(TestWait(s, t, c)) else Fail
    case WaitWoken(c) => if t in s.waits then Ok(TestWait(s, t, c)) else Fail
    case Reacquire => if s.holder == Some(t) then Fail else Ok(At(s, t, Acquire))
    case Signal(c, w, all) => if w in s.waits then UpWait(s, t, w, if all then Broadcast(c) else In) else Fail
    case Broadcast(c) =>
      // list_empty ends the loop; otherwise cond_signal
      if c >= |s.conds| then Fail
      else if s.conds[c] == [] then Ok(At(s, t, In))
      else TakeWaiter(s, t, c, true)
  }

  function Next(s: State, m: Move): Outcome<State>
    requires Enabled(s, m)
  {
    match m
    case Step(t) => Continue(s, t)
    case TryAcquire(t) =>
      if s.holder == Some(t) then Fail
      else
        var (sema, passed) := TryDown(s.lock);
        Ok(if passed then At(s.(lock := sema), t, Acquired) else s)
    case StartAcquire(t) => if s.holder == Some(t) then Fail else Ok(At(s, t, Acquire))
    case StartRelease(t) => if s.holder != Some(t) then Fail else Ok(At(s.(holder := None), t, Release))
    case StartWait(t, c) =>
      // a new semaphore at zero, the queue, then lock_release up to its sema_up
      if s.holder != Some(t) then Fail
      else Ok(At(s.(waits := s.waits[t := Sema(0, [])], conds := s.conds[c := s.conds[c] + [t]], holder := None),
                 t, WaitRelease(c)))
    case StartSignal(t, c) => TakeWaiter(s, t, c, false)
    case StartBroadcast(t, c) => Ok(At(s, t, Broadcast(c)))
  }
}
