/** What whole calls do while other threads run: how they return, that a broadcast releases
    every waiter, and in which order threads are served. */
module MonitorCalls {
  import opened Sequences
  import opened Bitmap
  import opened Semaphores
  import opened Monitors
  import opened MonitorSafety
  import opened MonitorRuns

  // ---------------------------------------------------------------- how calls return

  /** Between calls. */
  predicate Idle(pc: Pc) {
    pc == Out || pc == In
  }

  /** The state between calls that a thread is on its way to. */
  function Toward(pc: Pc): Pc {
    if pc == Out || pc == Release then Out else In
  }

  /** `states[k]` is the first state after `i` in which the thread is between calls again. */
  predicate ReturnsAt(states: seq<State>, i: nat, k: nat, t: Tid) {
    && i < k < |states| && (forall j :: i < j <= k ==> t in states[j].pc)
    && (forall j :: i < j < k ==> !Idle(states[j].pc[t])) && Idle(states[k].pc[t])
  }

  /** A step that is not the thread's first of a call leaves it on its way. */
  lemma TowardKept(s: State, m: Move, s': State, t: Tid)
    requires Inv(s) && Follows(s, m, s') && t in s.pc && (m.t == t ==> !Idle(s.pc[t]))
    ensures t in s'.pc && Toward(s'.pc[t]) == Toward(s.pc[t])
  {
    hide *;
    MoverExists(s, m, s');
    if m.t == t {
      OwnMove(s, m);
    }
    if m.Step? && s.pc[m.t].Signal? {
      TowardOverSignal(s, m.t, s', t);
    } else if m.Step? && (s.pc[m.t] == Release || s.pc[m.t].WaitRelease?) {
      TowardOverRelease(s, m.t, s', t);
    } else {
      OneMoves(s, m, s');
      if m.t == t {
        OnItsWay(s, t, s');
      }
    }
  }

  lemma MoverExists(s: State, m: Move, s': State)
    requires Follows(s, m, s')
    ensures m.t in s.pc && Enabled(s, m)
  {
    hide Next;
  }

  lemma OwnMove(s: State, m: Move)
    requires Enabled(s, m) && !Idle(s.pc[m.t])
    ensures m == Step(m.t)
  {
  }

  lemma TowardOverSignal(s: State, u: Tid, s': State, t: Tid)
    requires Inv(s) && Follows(s, Step(u), s') && s.pc[u].Signal? && t in s.pc
    ensures t in s'.pc && Toward(s'.pc[t]) == Toward(s.pc[t])
  {
    SignalStep(s, u, s');
    hide Inv, Follows;
  }

  lemma TowardOverRelease(s: State, u: Tid, s': State, t: Tid)
    requires Inv(s) && Follows(s, Step(u), s') && (s.pc[u] == Release || s.pc[u].WaitRelease?) && t in s.pc
    ensures t in s'.pc && Toward(s'.pc[t]) == Toward(s.pc[t])
  {
    ReleaseStep(s, u, s');
    hide Inv, Follows;
  }

  /** Any other move is of one thread only. */
  lemma OneMoves(s: State, m: Move, s': State)
    requires Follows(s, m, s') && !(m.Step? && (s.pc[m.t].Signal? || s.pc[m.t] == Release || s.pc[m.t].WaitRelease?))
    ensures m.t in s.pc && s'.pc.Keys == s.pc.Keys && forall u :: u in s.pc && u != m.t ==> s'.pc[u] == s.pc[u]
  {
    hide UpLock, UpWait, Test, TryDown;
  }

  lemma OnItsWay(s: State, t: Tid, s': State)
    requires Follows(s, Step(t), s') && !s.pc[t].Signal? && s.pc[t] != Release && !s.pc[t].WaitRelease?
    ensures t in s'.pc && Toward(s'.pc[t]) == In == Toward(s.pc[t])
  {
    hide UpLock, UpWait, Test;
  }

  /** cond_signal's sema_up moves the signaller on and wakes its waiter if that sleeps. */
  lemma SignalStep(s: State, t: Tid, s': State)
    requires Inv(s) && Follows(s, Step(t), s') && s.pc[t].Signal?
    ensures var c, w := s.pc[t].c, s.pc[t].w;
            && w in s.pc && w != t && (s.pc[w].WaitBlocked? ==> s.pc[w].c == c) && s'.conds == s.conds
            && s'.pc == s.pc[w := if s.pc[w].WaitBlocked? then WaitWoken(c) else s.pc[w]][t := if s.pc[t].all then Broadcast(c) else In]
  {
    Parts(s);
    var c, w, all := s.pc[t].c, s.pc[t].w, s.pc[t].all;
    ClaimedWaiter(s.conds, s.waits, s.pc, t, c, w, all);
    hide CondInv, LockInv, Inv, UpWait, AtMostOneInside;
    UpWaitIs(s, t, c, w, if all then Broadcast(c) else In);
  }

  /** Raising the lock's semaphore moves its thread on and wakes at most one other. */
  lemma ReleaseStep(s: State, t: Tid, s': State)
    requires Inv(s) && Follows(s, Step(t), s') && (s.pc[t] == Release || s.pc[t].WaitRelease?)
    ensures WakesAtMost(s.pc, s'.pc, t) && t in s'.pc && s'.conds == s.conds
    ensures s'.pc[t] == if s.pc[t] == Release then Out else Wait(s.pc[t].c)
  {
    Parts(s);
    hide CondInv, LockInv, Inv, UpLock, AtMostOneInside;
    UpLockKeeps(s, t, if s.pc[t] == Release then Out else Wait(s.pc[t].c));
  }

  /** The first step of a call. */
  lemma TowardStarts(s: State, m: Move, s': State)
    requires Inv(s) && Follows(s, m, s') && !m.Step?
    ensures m.t in s.pc && m.t in s'.pc && Idle(s.pc[m.t])
    ensures Toward(s'.pc[m.t]) == Out <==> m.StartRelease? || (m.TryAcquire? && SomeInside(s.pc))
    ensures m.TryAcquire? && SomeInside(s.pc) ==> s' == s
  {
    Parts(s);
    hide CondInv, HolderOk, LockQueueOk, AtMostOneInside;
  }

  lemma {:induction false} TowardThrough(threads: set<Tid>, n: nat, moves: seq<Move>, states: seq<State>, i: nat, j: nat, t: Tid)
    requires IsRun(threads, n, moves, states) && i < j < |states|
    requires forall k :: i < k <= j ==> t in states[k].pc
    requires forall k :: i < k < j ==> !Idle(states[k].pc[t])
    ensures Toward(states[j].pc[t]) == Toward(states[i + 1].pc[t])
    decreases j
  {
    hide Inv, Follows, Toward, Idle;
    if j > i + 1 {
      TowardThrough(threads, n, moves, states, i, j - 1, t);
      RunInv(threads, n, moves, states, j - 1);
      assert Follows(states[j - 1], moves[j - 1], states[j]);
      TowardKept(states[j - 1], moves[j - 1], states[j], t);
    }
  }

  /** Every call returns as its header says, whatever other threads do meanwhile: holding
      the lock from lock_acquire, cond_wait, cond_signal and cond_broadcast; without it from
      lock_release; and from lock_try_acquire holding it exactly if nobody was inside. */
  lemma CallsReturn(threads: set<Tid>, n: nat, moves: seq<Move>, states: seq<State>, i: nat, k: nat)
    requires IsRun(threads, n, moves, states) && i < |moves| && !moves[i].Step? && ReturnsAt(states, i, k, moves[i].t)
    ensures states[k].pc[moves[i].t] == In
       <==> !moves[i].StartRelease? && !(moves[i].TryAcquire? && SomeInside(states[i].pc))
    ensures states[k].pc[moves[i].t] == In <==> states[k].holder == Some(moves[i].t)
  {
    var t := moves[i].t;
    assert Follows(states[i], moves[i], states[i + 1]);
    RunInv(threads, n, moves, states, i);
    TowardStarts(states[i], moves[i], states[i + 1]);
    TowardThrough(threads, n, moves, states, i, k, t);
    RunInv(threads, n, moves, states, k);
    Parts(states[k]);
    hide Inv, LockInv, CondInv, AtMostOneInside, Follows, SomeInside;
    assert PartOf(In) == Holds && PartOf(Out) == Apart;
  }

  /** lock_try_acquire by a thread outside takes a lock that nobody holds or is about to,
      and leaves any other lock as it is. */
  lemma TryExactly(s: State, t: Tid)
    requires Inv(s) && t in s.pc && s.pc[t] == Out
    ensures Enabled(s, TryAcquire(t)) && Next(s, TryAcquire(t)).Ok?
    ensures var s' := Next(s, TryAcquire(t)).s;
            if SomeInside(s.pc) then s' == s else t in s'.pc && s'.pc[t] == Acquired
  {
    TryGood(s, t);
    hide CondInv, HolderOk, LockQueueOk, AtMostOneInside;
  }

  // ---------------------------------------------------------------- broadcast

  /** Neither the queues nor the thread's place change. */
  predicate Undisturbed(s: State, t: Tid, s': State) {
    s'.conds == s.conds && t in s.pc && t in s'.pc && s'.pc[t] == s.pc[t]
  }

  /** While a thread is inside with the holder set, the steps of others change neither the
      queues nor its place. */
  lemma OthersKeep(s: State, m: Move, s': State, t: Tid)
    requires Inv(s) && Follows(s, m, s') && t in s.pc && PartOf(s.pc[t]) == Holds && m.t != t
    ensures t in s'.pc && Undisturbed(s, t, s')
  {
    Parts(s);
    assert Inside(s.pc[t]) && !Inside(s.pc[m.t]);
    hide CondInv, LockInv, Inv, AtMostOneInside;
  }

  /** Thread `w` was released in some state after `i` and up to `j`. */
  ghost predicate WasReleased(states: seq<State>, i: nat, j: nat, w: Tid) {
    exists k :: i < k <= j < |states| && Released(states[k], w)
  }

  /** cond_broadcast on `c`, begun in state `i`, is under way in state `j`. */
  ghost predicate Midway(states: seq<State>, i: nat, j: nat, t: Tid, c: nat)
    requires i < j < |states|
  {
    var s, was := states[j], states[i].conds;
    && t in s.pc && c < |was| && c < |s.conds| && s.conds == was[c := s.conds[c]]
    && (s.pc[t] == Broadcast(c) || (s.pc[t].Signal? && s.pc[t].c == c && s.pc[t].all))
    && forall w :: w in was[c] ==>
         w in s.conds[c] || (s.pc[t].Signal? && s.pc[t].w == w) || WasReleased(states, i, j, w)
  }

  /** cond_broadcast on `c`, begun in state `i`, has returned in state `j`. */
  ghost predicate AllReleased(states: seq<State>, i: nat, j: nat, t: Tid, c: nat)
    requires i < j < |states|
  {
    && t in states[j].pc && c < |states[i].conds| && states[j].conds == states[i].conds[c := []]
    && forall w :: w in states[i].conds[c] ==> WasReleased(states, i, j, w)
  }

  lemma StillReleased(states: seq<State>, i: nat, j: nat, w: Tid)
    requires j + 1 < |states| && WasReleased(states, i, j, w)
    ensures WasReleased(states, i, j + 1, w)
  {
  }

  /** A step of cond_broadcast itself: out if nobody is left, on to the next waiter, or back
      to its test with that waiter released. */
  predicate Turn(s: State, t: Tid, c: nat, s': State)
    requires t in s.pc && c < |s.conds|
  {
    && t in s'.pc && c < |s'.conds| && s'.conds == s.conds[c := s'.conds[c]]
    && (s.pc[t].Signal? ==> s'.conds == s.conds && s'.pc[t] == Broadcast(c) && Released(s', s.pc[t].w))
    && (s.pc[t].Broadcast? && s.conds[c] == [] ==> s'.conds == s.conds && s'.pc[t] == In)
    && (s.pc[t].Broadcast? && s.conds[c] != [] ==>
          && s'.pc[t] == Signal(c, s.conds[c][0], true)
          && forall w :: w in s.conds[c] ==> w in s'.conds[c] || w == s.conds[c][0])
  }

  lemma OwnStep(s: State, t: Tid, s': State, c: nat)
    requires Inv(s) && Follows(s, Step(t), s') && c < |s.conds|
    requires s.pc[t] == Broadcast(c) || (s.pc[t].Signal? && s.pc[t].c == c && s.pc[t].all)
    ensures t in s'.pc && Turn(s, t, c, s')
  {
    if s.pc[t].Signal? {
      SignalStep(s, t, s');
      SignalReleases(s, t);
      hide Inv, Released, Follows;
      assert s.conds[c := s.conds[c]] == s.conds;
    } else {
      hide Inv, Released;
      assert s.conds[c := s.conds[c]] == s.conds;
      assert s.conds[c] != [] ==> s.conds[c] == [s.conds[c][0]] + s.conds[c][1..];
    }
  }

  lemma ReleasedMore(states: seq<State>, i: nat, j: nat)
    requires i < j < j + 1 < |states|
    ensures forall w :: WasReleased(states, i, j, w) || Released(states[j + 1], w) ==> WasReleased(states, i, j + 1, w)
  {
    forall w | WasReleased(states, i, j, w) ensures WasReleased(states, i, j + 1, w) {
      StillReleased(states, i, j, w);
    }
    hide Released;
  }

  lemma BroadcastStep(threads: set<Tid>, n: nat, moves: seq<Move>, states: seq<State>, i: nat, j: nat, t: Tid, c: nat)
    requires IsRun(threads, n, moves, states) && i < j < |moves| && Midway(states, i, j, t, c)
    ensures t in states[j + 1].pc
    ensures if Idle(states[j + 1].pc[t]) then AllReleased(states, i, j + 1, t, c) else Midway(states, i, j + 1, t, c)
  {
    var s, m, s' := states[j], moves[j], states[j + 1];
    hide *;
    RunStep(threads, n, moves, states, j);
    RunInv(threads, n, moves, states, j);
    MidwayIs(states, i, j, t, c);
    if m.t != t {
      OthersKeep(s, m, s', t);
    } else {
      OwnMove(s, m);
      OwnStep(s, t, s', c);
    }
    MidwayOn(states, i, j, t, c);
  }

  lemma RunStep(threads: set<Tid>, n: nat, moves: seq<Move>, states: seq<State>, j: nat)
    requires IsRun(threads, n, moves, states) && j < |moves|
    ensures |states| == |moves| + 1 && Follows(states[j], moves[j], states[j + 1])
    ensures Enabled(states[j], moves[j]) && moves[j].t in states[j].pc
  {
    hide Next;
  }

  lemma MidwayIs(states: seq<State>, i: nat, j: nat, t: Tid, c: nat)
    requires i < j < |states| && Midway(states, i, j, t, c)
    ensures t in states[j].pc && c < |states[j].conds| && PartOf(states[j].pc[t]) == Holds && !Idle(states[j].pc[t])
    ensures states[j].pc[t] == Broadcast(c) || (states[j].pc[t].Signal? && states[j].pc[t].c == c && states[j].pc[t].all)
  {
    hide WasReleased;
  }

  /** What the steps of others, and each step of its own, leave of a broadcast. */
  lemma MidwayOn(states: seq<State>, i: nat, j: nat, t: Tid, c: nat)
    requires i < j < j + 1 < |states| && Midway(states, i, j, t, c)
    requires t in states[j].pc && c < |states[j].conds|
    requires Turn(states[j], t, c, states[j + 1]) || Undisturbed(states[j], t, states[j + 1])
    ensures if Idle(states[j + 1].pc[t]) then AllReleased(states, i, j + 1, t, c) else Midway(states, i, j + 1, t, c)
  {
    ReleasedMore(states, i, j);
    hide WasReleased, Released;
  }

  lemma BroadcastStarts(states: seq<State>, i: nat, m: Move)
    requires i + 1 < |states| && m.StartBroadcast? && Follows(states[i], m, states[i + 1])
    ensures m.t in states[i + 1].pc && !Idle(states[i + 1].pc[m.t]) && Midway(states, i, i + 1, m.t, m.c)
  {
    hide WasReleased;
    assert states[i].conds[m.c := states[i].conds[m.c]] == states[i].conds;
  }

  /** cond_broadcast releases every thread that waits on its condition when it is called,
      and has emptied the queue when it returns; the other queues stay as they were. */
  lemma BroadcastReleasesAll(threads: set<Tid>, n: nat, moves: seq<Move>, states: seq<State>, i: nat, k: nat)
    requires IsRun(threads, n, moves, states) && i < |moves| && moves[i].StartBroadcast?
    requires ReturnsAt(states, i, k, moves[i].t)
    ensures var c := moves[i].c;
            && c < |states[i].conds| && states[k].conds == states[i].conds[c := []]
            && forall w :: w in states[i].conds[c] ==> exists j :: i < j <= k && Released(states[j], w)
  {
    var t, c := moves[i].t, moves[i].c;
    BroadcastEnds(threads, n, moves, states, i, k);
    hide IsRun, ReturnsAt, Released;
    forall w | w in states[i].conds[c] ensures exists j :: i < j <= k && Released(states[j], w) {
      assert WasReleased(states, i, k, w);
    }
  }

  lemma BroadcastEnds(threads: set<Tid>, n: nat, moves: seq<Move>, states: seq<State>, i: nat, k: nat)
    requires IsRun(threads, n, moves, states) && i < |moves| && moves[i].StartBroadcast?
    requires ReturnsAt(states, i, k, moves[i].t)
    ensures i < k < |states| && AllReleased(states, i, k, moves[i].t, moves[i].c)
  {
    hide *;
    var t, c := moves[i].t, moves[i].c;
    NotBefore(states, i, k, t);
    RunStep(threads, n, moves, states, i);
    BroadcastStarts(states, i, moves[i]);
    StaysMidway(threads, n, moves, states, i, k - 1, t, c);
    LastMove(threads, n, moves, states, k);
    BroadcastStep(threads, n, moves, states, i, k - 1, t, c);
  }

  lemma NotBefore(states: seq<State>, i: nat, k: nat, t: Tid)
    requires ReturnsAt(states, i, k, t)
    ensures i < k < |states| && t in states[k].pc && Idle(states[k].pc[t])
    ensures forall j :: i < j < k ==> t in states[j].pc && !Idle(states[j].pc[t])
  {
    hide Idle;
  }

  lemma {:induction false} StaysMidway(threads: set<Tid>, n: nat, moves: seq<Move>, states: seq<State>, i: nat, j: nat, t: Tid, c: nat)
    requires IsRun(threads, n, moves, states) && i < j < |states| && Midway(states, i, i + 1, t, c)
    requires forall k :: i < k <= j ==> t in states[k].pc && !Idle(states[k].pc[t])
    ensures Midway(states, i, j, t, c)
    decreases j
  {
    hide *;
    if j > i + 1 {
      StaysMidway(threads, n, moves, states, i, j - 1, t, c);
      LastMove(threads, n, moves, states, j);
      BroadcastStep(threads, n, moves, states, i, j - 1, t, c);
    }
  }

  lemma LastMove(threads: set<Tid>, n: nat, moves: seq<Move>, states: seq<State>, j: nat)
    requires IsRun(threads, n, moves, states) && j < |states|
    ensures j <= |moves|
  {
  }

  // ---------------------------------------------------------------- signal

  /** cond_signal takes off the longest waiting thread and releases it before it returns;
      with nobody waiting it leaves no trace. */
  lemma SignalReleasesFirst(threads: set<Tid>, n: nat, moves: seq<Move>, states: seq<State>, i: nat, k: nat)
    requires IsRun(threads, n, moves, states) && i < |moves| && moves[i].StartSignal?
    requires ReturnsAt(states, i, k, moves[i].t)
    ensures var c := moves[i].c;
            && c < |states[i].conds|
            && if states[i].conds[c] == [] then states[k].conds == states[i].conds
               else states[k].conds == states[i].conds[c := states[i].conds[c][1..]] && Released(states[k], states[i].conds[c][0])
  {
    hide *;
    var t, c := moves[i].t, moves[i].c;
    NotBefore(states, i, k, t);
    RunStep(threads, n, moves, states, i);
    SignalStarts(states[i], moves[i], states[i + 1]);
    if states[i].conds[c] == [] {
      AtOnce(states, i, k, t);
    } else {
      var w := states[i].conds[c][0];
      assert !Idle(states[i + 1].pc[t]) by { SignalIsBusy(c, w); }
      StaysSignal(threads, n, moves, states, i, k, t, c, w);
      RunStep(threads, n, moves, states, k - 1);
      RunInv(threads, n, moves, states, k - 1);
      SignalEnds(states[k - 1], moves[k - 1], states[k], t, c, w);
    }
  }

  lemma SignalIsBusy(c: nat, w: Tid)
    ensures !Idle(Signal(c, w, false)) && PartOf(Signal(c, w, false)) == Holds
  {
  }

  lemma AtOnce(states: seq<State>, i: nat, k: nat, t: Tid)
    requires ReturnsAt(states, i, k, t) && Idle(states[i + 1].pc[t])
    ensures k == i + 1
  {
  }

  lemma SignalStarts(s: State, m: Move, s': State)
    requires Follows(s, m, s') && m.StartSignal?
    ensures m.t in s'.pc && m.c < |s.conds|
    ensures if s.conds[m.c] == [] then s'.conds == s.conds && Idle(s'.pc[m.t])
            else s'.conds == s.conds[m.c := s.conds[m.c][1..]] && s'.pc[m.t] == Signal(m.c, s.conds[m.c][0], false)
  {
  }

  lemma {:induction false} StaysSignal(threads: set<Tid>, n: nat, moves: seq<Move>, states: seq<State>,
                                       i: nat, k: nat, t: Tid, c: nat, w: Tid)
    requires IsRun(threads, n, moves, states) && i + 1 < k < |states|
    requires forall j :: i < j < k ==> t in states[j].pc && !Idle(states[j].pc[t])
    requires states[i + 1].pc[t] == Signal(c, w, false)
    ensures states[k - 1].pc[t] == Signal(c, w, false) && states[k - 1].conds == states[i + 1].conds
    decreases k
  {
    hide *;
    if k > i + 2 {
      StaysSignal(threads, n, moves, states, i, k - 1, t, c, w);
      LastMove(threads, n, moves, states, k);
      RunStep(threads, n, moves, states, k - 2);
      RunInv(threads, n, moves, states, k - 2);
      StillSignal(states[k - 2], moves[k - 2], states[k - 1], t, c, w);
    }
  }

  lemma StillSignal(s: State, m: Move, s': State, t: Tid, c: nat, w: Tid)
    requires Inv(s) && Follows(s, m, s') && t in s.pc && s.pc[t] == Signal(c, w, false) && t in s'.pc && !Idle(s'.pc[t])
    ensures s'.pc[t] == Signal(c, w, false) && s'.conds == s.conds
  {
    if m.t == t {
      MoverExists(s, m, s');
      OwnMove(s, m);
      SignalStep(s, t, s');
    } else {
      OthersKeep(s, m, s', t);
    }
    hide Inv, Follows;
  }

  lemma SignalEnds(s: State, m: Move, s': State, t: Tid, c: nat, w: Tid)
    requires Inv(s) && Follows(s, m, s') && t in s.pc && s.pc[t] == Signal(c, w, false) && t in s'.pc && Idle(s'.pc[t])
    ensures s'.conds == s.conds && Released(s', w)
  {
    if m.t == t {
      MoverExists(s, m, s');
      OwnMove(s, m);
      SignalStep(s, t, s');
      SignalReleases(s, t);
    } else {
      OthersKeep(s, m, s', t);
    }
    hide Inv, Released;
  }

  // ---------------------------------------------------------------- no wakeup without a signal

  /** The move is a signaller's sema_up for waiter `w`. */
  predicate SignalsTo(s: State, m: Move, w: Tid) {
    m.Step? && m.t in s.pc && s.pc[m.t].Signal? && s.pc[m.t].w == w
  }

  /** In cond_wait and not released. */
  predicate Unreleased(s: State, t: Tid) {
    Waiting(s, t) && !Released(s, t)
  }

  lemma UnreleasedStays(s: State, m: Move, s': State, t: Tid)
    requires Inv(s) && Follows(s, m, s') && Unreleased(s, t) && !SignalsTo(s, m, t)
    ensures Unreleased(s', t)
  {
    hide *;
    MoverExists(s, m, s');
    UnreleasedIs(s, t);
    if m.Step? && s.pc[m.t].Signal? {
      OtherSignalled(s, m.t, s', t);
    } else if m.Step? && (s.pc[m.t] == Release || s.pc[m.t].WaitRelease?) {
      ReleaseStep(s, m.t, s');
      WaitsKept(s, m.t, s');
      StillUnreleased(s, m.t, s', t);
    } else if m.t == t {
      OwnMove(s, m);
      BlockedWaits(s, t);
      AtTestStays(s, t, s');
    } else {
      OneMoves(s, m, s');
      OtherWaits(s, m, s', t);
      SameUnreleased(s, s', t);
    }
  }

  lemma UnreleasedIs(s: State, t: Tid)
    requires Unreleased(s, t)
    ensures t in s.pc && !Idle(s.pc[t]) && !Released(s, t)
    ensures s.pc[t].WaitRelease? || s.pc[t].WaitBlocked? || AtTest(s, t)
  {
    hide Released;
  }

  lemma OtherSignalled(s: State, u: Tid, s': State, t: Tid)
    requires Inv(s) && Follows(s, Step(u), s') && s.pc[u].Signal? && Unreleased(s, t) && !SignalsTo(s, Step(u), t)
    ensures Unreleased(s', t)
  {
    Parts(s);
    var c, w, all := s.pc[u].c, s.pc[u].w, s.pc[u].all;
    ClaimedWaiter(s.conds, s.waits, s.pc, u, c, w, all);
    hide CondInv, LockInv, Inv, UpWait, AtMostOneInside;
    UpWaitIs(s, u, c, w, if all then Broadcast(c) else In);
  }

  lemma WaitsKept(s: State, t: Tid, s': State)
    requires Follows(s, Step(t), s') && (s.pc[t] == Release || s.pc[t].WaitRelease?)
    ensures s'.waits == s.waits
  {
  }

  lemma StillUnreleased(s: State, u: Tid, s': State, t: Tid)
    requires Unreleased(s, t) && s'.waits == s.waits && u in s.pc && (s.pc[u] == Release || s.pc[u].WaitRelease?)
    requires WakesAtMost(s.pc, s'.pc, u) && u in s'.pc && s'.pc[u] == if s.pc[u] == Release then Out else Wait(s.pc[u].c)
    ensures Unreleased(s', t)
  {
  }

  lemma BlockedWaits(s: State, t: Tid)
    requires Enabled(s, Step(t))
    ensures !s.pc[t].WaitBlocked?
  {
  }

  lemma AtTestStays(s: State, t: Tid, s': State)
    requires Inv(s) && Follows(s, Step(t), s') && AtTest(s, t) && !Released(s, t)
    ensures Unreleased(s', t)
  {
    PassesIffReleased(s, t);
    Parts(s);
    TestWaitGood(s, t, s.pc[t].c);
    hide Inv, CondInv, LockInv, AtMostOneInside, Good;
  }

  lemma OtherWaits(s: State, m: Move, s': State, t: Tid)
    requires Follows(s, m, s') && m.t != t && !(m.Step? && s.pc[m.t].Signal?)
    ensures (t in s'.waits <==> t in s.waits) && (t in s.waits ==> s'.waits[t] == s.waits[t])
  {
    hide Test, TryDown, Up;
  }

  lemma SameUnreleased(s: State, s': State, t: Tid)
    requires Unreleased(s, t) && t in s'.pc && s'.pc[t] == s.pc[t]
    requires (t in s'.waits <==> t in s.waits) && (t in s.waits ==> s'.waits[t] == s.waits[t])
    ensures Unreleased(s', t)
  {
  }

  lemma WaitStarts(s: State, m: Move, s': State)
    requires Follows(s, m, s') && m.StartWait?
    ensures Unreleased(s', m.t)
  {
  }

  lemma {:induction false} UnreleasedUntil(threads: set<Tid>, n: nat, moves: seq<Move>, states: seq<State>, i: nat, j: nat, t: Tid)
    requires IsRun(threads, n, moves, states) && i < j < |states| && Unreleased(states[i + 1], t)
    requires forall k :: i < k < j && k < |moves| ==> !SignalsTo(states[k], moves[k], t)
    ensures Unreleased(states[j], t)
    decreases j
  {
    hide *;
    if j > i + 1 {
      UnreleasedUntil(threads, n, moves, states, i, j - 1, t);
      LastMove(threads, n, moves, states, j);
      RunStep(threads, n, moves, states, j - 1);
      RunInv(threads, n, moves, states, j - 1);
      UnreleasedStays(states[j - 1], moves[j - 1], states[j], t);
    }
  }

  /** cond_wait returns only after a signaller has raised the semaphore of this very wait. */
  lemma WaitReturnsSignalled(threads: set<Tid>, n: nat, moves: seq<Move>, states: seq<State>, i: nat, k: nat)
    requires IsRun(threads, n, moves, states) && i < |moves| && moves[i].StartWait? && ReturnsAt(states, i, k, moves[i].t)
    ensures exists j :: i < j < k && j < |moves| && SignalsTo(states[j], moves[j], moves[i].t)
  {
    hide *;
    var t := moves[i].t;
    NotBefore(states, i, k, t);
    RunStep(threads, n, moves, states, i);
    WaitStarts(states[i], moves[i], states[i + 1]);
    if forall j :: i < j < k && j < |moves| ==> !SignalsTo(states[j], moves[j], t) {
      UnreleasedUntil(threads, n, moves, states, i, k, t);
      UnreleasedIs(states[k], t);
      assert false;
    }
  }

  // ---------------------------------------------------------------- first come, first served

  /** The threads that have called cond_wait on `c`, in order. */
  function Waited(moves: seq<Move>, c: nat, i: nat): seq<Tid>
    requires i <= |moves|
  {
    if i == 0 then [] else Waited(moves, c, i - 1) + Waits(moves[i - 1], c)
  }

  function Waits(m: Move, c: nat): seq<Tid> {
    if m.StartWait? && m.c == c then [m.t] else []
  }

  /** The threads that signallers of `c` have taken off, in order. */
  function Taken(moves: seq<Move>, states: seq<State>, c: nat, i: nat): seq<Tid>
    requires i <= |moves| < |states|
  {
    if i == 0 then [] else Taken(moves, states, c, i - 1) + Takes(states[i - 1], moves[i - 1], states[i], c)
  }

  function Takes(s: State, m: Move, s': State, c: nat): seq<Tid> {
    if m.t in s.pc && m.t in s'.pc && !s.pc[m.t].Signal? && s'.pc[m.t].Signal? && s'.pc[m.t].c == c then [s'.pc[m.t].w] else []
  }

  lemma OneTaken(s: State, m: Move, s': State, c: nat)
    requires Inv(s) && Follows(s, m, s') && c < |s.conds|
    ensures c < |s'.conds| && s.conds[c] + Waits(m, c) == Takes(s, m, s', c) + s'.conds[c]
  {
    hide *;
    MoverExists(s, m, s');
    if m.Step? && s.pc[m.t].Signal? {
      SignalStep(s, m.t, s');
      NoneTaken(s, m, s', c);
    } else if m.Step? && (s.pc[m.t] == Release || s.pc[m.t].WaitRelease?) {
      ReleaseStep(s, m.t, s');
      NoneTaken(s, m, s', c);
    } else {
      TakenNow(s, m, s', c);
    }
  }

  lemma NoneTaken(s: State, m: Move, s': State, c: nat)
    requires m.Step? && m.t in s.pc && m.t in s'.pc && (s.pc[m.t].Signal? || !s'.pc[m.t].Signal?)
    ensures Waits(m, c) == [] == Takes(s, m, s', c)
  {
  }

  lemma TakenNow(s: State, m: Move, s': State, c: nat)
    requires Follows(s, m, s') && c < |s.conds|
    requires !(m.Step? && (s.pc[m.t].Signal? || s.pc[m.t] == Release || s.pc[m.t].WaitRelease?))
    ensures c < |s'.conds| && s.conds[c] + Waits(m, c) == Takes(s, m, s', c) + s'.conds[c]
  {
    hide UpLock, UpWait, Test, TryDown;
    assert s.conds[c] != [] ==> s.conds[c] == [s.conds[c][0]] + s.conds[c][1..];
  }

  /** Signals serve the waiters of a condition in the order in which they called cond_wait;
      those still queued are the latest ones. */
  lemma {:induction false} FirstWaitedFirstTaken(threads: set<Tid>, n: nat, moves: seq<Move>, states: seq<State>, c: nat, i: nat)
    requires IsRun(threads, n, moves, states) && i < |states| && c < n
    ensures |moves| < |states| && c < |states[i].conds|
    ensures Waited(moves, c, i) == Taken(moves, states, c, i) + states[i].conds[c]
  {
    hide Inv, Follows, Waits, Takes;
    if i > 0 {
      FirstWaitedFirstTaken(threads, n, moves, states, c, i - 1);
      RunInv(threads, n, moves, states, i - 1);
      assert Follows(states[i - 1], moves[i - 1], states[i]);
      OneTaken(states[i - 1], moves[i - 1], states[i], c);
      Regroup(Taken(moves, states, c, i - 1), states[i - 1].conds[c], Waits(moves[i - 1], c),
              Takes(states[i - 1], moves[i - 1], states[i], c), states[i].conds[c]);
    }
  }

  lemma Regroup(before: seq<Tid>, q: seq<Tid>, came: seq<Tid>, went: seq<Tid>, q': seq<Tid>)
    requires q + came == went + q'
    ensures (before + q) + came == (before + went) + q'
  {
    assert (before + q) + came == before + (q + came);
  }

  /** The threads that have gone to sleep on the lock, in order. */
  function Slept(moves: seq<Move>, states: seq<State>, i: nat): seq<Tid>
    requires i <= |moves| < |states|
  {
    if i == 0 then [] else Slept(moves, states, i - 1) + FallsAsleep(moves[i - 1], states[i])
  }

  function FallsAsleep(m: Move, s': State): seq<Tid> {
    if m.t in s'.pc && s'.pc[m.t] == AcquireBlocked then [m.t] else []
  }

  /** The threads that have been woken for the lock, in order. */
  ghost function Awakened(states: seq<State>, i: nat): seq<Tid>
    requires i < |states|
  {
    if i == 0 then [] else Awakened(states, i - 1) + Wakened(states[i - 1].pc, states[i].pc)
  }

  ghost predicate IsWoken(pc: map<Tid, Pc>, pc': map<Tid, Pc>, t: Tid) {
    t in pc && t in pc' && pc[t] == AcquireBlocked && pc'[t] == AcquireWoken
  }

  ghost function Wakened(pc: map<Tid, Pc>, pc': map<Tid, Pc>): seq<Tid> {
    if t: Tid :| IsWoken(pc, pc', t) then [t] else []
  }

  lemma NobodyWakes(s: State, m: Move, s': State)
    requires Inv(s) && Follows(s, m, s') && !(m.Step? && (s.pc[m.t] == Release || s.pc[m.t].WaitRelease?))
    ensures Wakened(s.pc, s'.pc) == []
    ensures s.lock.waiters + FallsAsleep(m, s') == s'.lock.waiters
  {
    MoverExists(s, m, s');
    if m.Step? && s.pc[m.t].Signal? {
      SignalStep(s, m.t, s');
      LockKept(s, m.t, s');
      hide Inv, Follows;
      assert forall t :: !IsWoken(s.pc, s'.pc, t);
    } else {
      OneMoves(s, m, s');
      QueuedNow(s, m, s');
      hide Inv, Follows;
      assert forall t :: !IsWoken(s.pc, s'.pc, t);
    }
  }

  lemma LockKept(s: State, t: Tid, s': State)
    requires Follows(s, Step(t), s') && s.pc[t].Signal?
    ensures s'.lock == s.lock
  {
  }

  lemma QueuedNow(s: State, m: Move, s': State)
    requires Inv(s) && Follows(s, m, s') && !(m.Step? && (s.pc[m.t].Signal? || s.pc[m.t] == Release || s.pc[m.t].WaitRelease?))
    ensures s.lock.waiters + FallsAsleep(m, s') == s'.lock.waiters
    ensures !IsWoken(s.pc, s'.pc, m.t)
  {
    hide Inv, UpLock, UpWait;
  }

  lemma FirstWakes(s: State, t: Tid, s': State)
    requires Inv(s) && Follows(s, Step(t), s') && (s.pc[t] == Release || s.pc[t].WaitRelease?)
    ensures FallsAsleep(Step(t), s') == [] && s.lock.waiters == Wakened(s.pc, s'.pc) + s'.lock.waiters
  {
    hide *;
    Parts(s);
    var next := Raises(s, t, s');
    if s.lock.waiters == [] {
      RaisesOnly(s, t, s', next);
      WokenBy(s.pc, t, next, None);
    } else {
      LeaveWaking(s.lock, s.holder, s.pc, t, next);
      RaisesWaking(s, t, s', next);
      WokenBy(s.pc, t, next, Some(s.lock.waiters[0]));
      assert s.lock.waiters == [s.lock.waiters[0]] + s.lock.waiters[1..];
    }
    NotAsleep(t, s', next);
  }

  lemma Raises(s: State, t: Tid, s': State) returns (next: Pc)
    requires Follows(s, Step(t), s') && (s.pc[t] == Release || s.pc[t].WaitRelease?)
    ensures t in s.pc && PartOf(s.pc[t]) == Keeps && PartOf(next) == Apart && next != AcquireWoken && next != AcquireBlocked
    ensures UpLock(s, t, next) == Ok(s')
  {
    hide UpLock;
    next := if s.pc[t] == Release then Out else Wait(s.pc[t].c);
  }

  lemma RaisesOnly(s: State, t: Tid, s': State, next: Pc)
    requires UpLock(s, t, next) == Ok(s') && s.lock.waiters == []
    ensures s'.pc == s.pc[t := next] && s'.lock.waiters == []
  {
  }

  lemma RaisesWaking(s: State, t: Tid, s': State, next: Pc)
    requires UpLock(s, t, next) == Ok(s') && s.lock.waiters != []
    ensures s'.pc == s.pc[s.lock.waiters[0] := AcquireWoken][t := next] && s'.lock.waiters == s.lock.waiters[1..]
  {
  }

  lemma WokenBy(pc: map<Tid, Pc>, t: Tid, next: Pc, w: Option<Tid>)
    requires t in pc && next != AcquireWoken
    requires w.Some? ==> w.value in pc && pc[w.value] == AcquireBlocked && w.value != t
    ensures w.None? ==> Wakened(pc, pc[t := next]) == []
    ensures w.Some? ==> Wakened(pc, pc[w.value := AcquireWoken][t := next]) == [w.value]
  {
    if w.None? {
      var pc' := pc[t := next];
      assert forall u :: !IsWoken(pc, pc', u);
    } else {
      var pc' := pc[w.value := AcquireWoken][t := next];
      assert IsWoken(pc, pc', w.value) && forall u :: IsWoken(pc, pc', u) ==> u == w.value;
    }
  }

  lemma NotAsleep(t: Tid, s': State, next: Pc)
    requires t in s'.pc && s'.pc[t] == next && next != AcquireBlocked
    ensures FallsAsleep(Step(t), s') == []
  {
  }

  /** The lock wakes threads in the order in which they went to sleep on it; those still
      asleep are the latest ones, and are queued in this order. */
  lemma {:induction false} FirstAsleepFirstWoken(threads: set<Tid>, n: nat, moves: seq<Move>, states: seq<State>, i: nat)
    requires IsRun(threads, n, moves, states) && i < |states|
    ensures |moves| < |states| && Slept(moves, states, i) == Awakened(states, i) + states[i].lock.waiters
  {
    hide Inv, Follows, FallsAsleep, Wakened;
    if i > 0 {
      FirstAsleepFirstWoken(threads, n, moves, states, i - 1);
      RunInv(threads, n, moves, states, i - 1);
      var s, m, s' := states[i - 1], moves[i - 1], states[i];
      assert Follows(s, m, s');
      MoverExists(s, m, s');
      if m.Step? && (s.pc[m.t] == Release || s.pc[m.t].WaitRelease?) {
        FirstWakes(s, m.t, s');
      } else {
        NobodyWakes(s, m, s');
      }
      Regroup(Awakened(states, i - 1), s.lock.waiters, FallsAsleep(m, s'), Wakened(s.pc, s'.pc), s'.lock.waiters);
    }
  }
}
