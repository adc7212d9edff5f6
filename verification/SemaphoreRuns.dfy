/** Any number of threads on one semaphore, in every interleaving. */
module SemaphoreRuns {
  import opened Sequences
  import opened Bitmap
  import opened Semaphores

  /** A woken thread has been unblocked but has not tested the value again. */
  datatype Phase = Away | Blocked | Woken

  /** `downs` and `ups` count the completed operations. */
  datatype System = System(sema: Sema, phase: map<Tid, Phase>, downs: nat, ups: nat)

  datatype Move = Down(t: Tid) | Retest(t: Tid) | Try(t: Tid) | Raise

  predicate Enabled(s: System, m: Move) {
    match m
    case Down(t) => t in s.phase && s.phase[t] == Away
    case Retest(t) => t in s.phase && s.phase[t] == Woken
    case Try(t) => t in s.phase && s.phase[t] == Away
    case Raise => true
  }

  function Tested(s: System, t: Tid): System {
    var (sema, passed) := Test(s.sema, t);
    if passed then s.(sema := sema, phase := s.phase[t := Away], downs := s.downs + 1)
    else s.(sema := sema, phase := s.phase[t := Blocked])
  }

  function Step(s: System, m: Move): Outcome<System> {
    match m
    case Down(t) => Ok(Tested(s, t))
    case Retest(t) => Ok(Tested(s, t))
    case Try(t) =>
      var (sema, passed) := TryDown(s.sema);
      Ok(s.(sema := sema, downs := s.downs + if passed then 1 else 0))
    case Raise =>
      var (sema, woken) := Up(s.sema);
      match woken
      case None => Ok(s.(sema := sema, ups := s.ups + 1))
      case Some(t) =>
        // thread_unblock asserts that the thread is blocked
        if t in s.phase && s.phase[t] == Blocked
        then Ok(s.(sema := sema, phase := s.phase[t := Woken], ups := s.ups + 1))
        else Fail
  }

  function InPhase(phase: map<Tid, Phase>, p: Phase): set<Tid> {
    set t | t in phase && phase[t] == p
  }

  /** The queue holds exactly the blocked threads, each once. */
  ghost predicate QueueOk(q: seq<Tid>, phase: map<Tid, Phase>) {
    Distinct(q) && forall t :: t in q <==> t in phase && phase[t] == Blocked
  }

  /** If threads are queued, the value is spoken for by threads already woken. */
  ghost predicate NoLostWakeup(s: System) {
    s.sema.waiters != [] ==> s.sema.value <= |InPhase(s.phase, Woken)|
  }

  ghost predicate Inv(s: System, init: nat) {
    && QueueOk(s.sema.waiters, s.phase)
    && NoLostWakeup(s)
    && s.sema.value + s.downs == init + s.ups
  }

  lemma Counted(phase: map<Tid, Phase>, t: Tid, p: Phase)
    requires t in phase && phase[t] != p
    ensures |InPhase(phase[t := p], p)| == |InPhase(phase, p)| + 1
    ensures forall q :: q != p && q != phase[t] ==> InPhase(phase[t := p], q) == InPhase(phase, q)
    ensures |InPhase(phase[t := p], phase[t])| == |InPhase(phase, phase[t])| - 1
  {
    assert InPhase(phase[t := p], p) == InPhase(phase, p) + {t};
    assert InPhase(phase, phase[t]) == InPhase(phase[t := p], phase[t]) + {t};
  }

  lemma QueueMore(q: seq<Tid>, phase: map<Tid, Phase>, t: Tid)
    requires QueueOk(q, phase) && t in phase && phase[t] != Blocked
    ensures QueueOk(q + [t], phase[t := Blocked])
  {
  }

  lemma QueueLess(q: seq<Tid>, phase: map<Tid, Phase>)
    requires QueueOk(q, phase) && q != []
    ensures q[0] in phase && phase[q[0]] == Blocked && QueueOk(q[1..], phase[q[0] := Woken])
  {
    assert q[0] in q;
    assert forall t :: t in q <==> t == q[0] || t in q[1..];
  }

  lemma TestKeeps(s: System, t: Tid, init: nat)
    requires Inv(s, init) && t in s.phase && s.phase[t] != Blocked
    requires s.phase[t] == Woken || s.phase[t] == Away
    ensures Inv(Tested(s, t), init)
  {
    if s.sema.value == 0 {
      QueueMore(s.sema.waiters, s.phase, t);
    } else if s.phase[t] == Woken {
      Counted(s.phase, t, Away);
    } else {
      assert s.phase[t := Away] == s.phase;
    }
  }

  lemma UpKeeps(s: System, init: nat)
    requires Inv(s, init)
    ensures Step(s, Raise).Ok? && Inv(Step(s, Raise).s, init)
  {
    if s.sema.waiters != [] {
      QueueLess(s.sema.waiters, s.phase);
      Counted(s.phase, s.sema.waiters[0], Woken);
    }
  }

  lemma StepKeeps(s: System, m: Move, init: nat)
    requires Inv(s, init) && Enabled(s, m)
    ensures Step(s, m).Ok? && Inv(Step(s, m).s, init)
  {
    hide Inv, Tested;
    match m
    case Down(t) => TestKeeps(s, t, init);
    case Retest(t) => TestKeeps(s, t, init);
    case Try(t) => TryKeeps(s, t, init);
    case Raise => UpKeeps(s, init);
  }

  lemma TryKeeps(s: System, t: Tid, init: nat)
    requires Inv(s, init)
    ensures Step(s, Try(t)).Ok? && Inv(Step(s, Try(t)).s, init)
  {
  }

  ghost predicate IsRun(init: nat, threads: set<Tid>, moves: seq<Move>, states: seq<System>) {
    && |states| == |moves| + 1
    && states[0] == System(Sema(init, []), map t | t in threads :: Away, 0, 0)
    && forall i :: 0 <= i < |moves| ==> Enabled(states[i], moves[i]) && Step(states[i], moves[i]) == Ok(states[i + 1])
  }

  /** In every interleaving: no wakeup is lost, value and completed operations balance, and
      no assertion fails. */
  lemma {:induction false} EveryInterleaving(init: nat, threads: set<Tid>, moves: seq<Move>, states: seq<System>, i: nat, m: Move)
    requires IsRun(init, threads, moves, states) && i < |states|
    ensures Inv(states[i], init)
    ensures Enabled(states[i], m) ==> Step(states[i], m).Ok?
  {
    hide Inv, Enabled, Step;
    if i == 0 {
      InitInv(init, threads);
    } else {
      EveryInterleaving(init, threads, moves, states, i - 1, m);
      StepKeeps(states[i - 1], moves[i - 1], init);
    }
    if Enabled(states[i], m) {
      StepKeeps(states[i], m, init);
    }
  }

  lemma InitInv(init: nat, threads: set<Tid>)
    ensures Inv(System(Sema(init, []), map t | t in threads :: Away, 0, 0), init)
  {
  }

  /** Once every woken thread has tested again, nobody sleeps on a positive value. */
  lemma NobodySleepsInVain(init: nat, threads: set<Tid>, moves: seq<Move>, states: seq<System>, i: nat)
    requires IsRun(init, threads, moves, states) && i < |states|
    requires InPhase(states[i].phase, Woken) == {} && states[i].sema.value > 0
    ensures InPhase(states[i].phase, Blocked) == {}
  {
    EveryInterleaving(init, threads, moves, states, i, Raise);
  }

  /** sema_try_down never sleeps and completes a down, and sema_down completes one without
      sleeping, exactly if fewer downs are complete than the start value and the ups allow. */
  lemma DownsExactly(init: nat, threads: set<Tid>, moves: seq<Move>, states: seq<System>, i: nat, t: Tid)
    requires IsRun(init, threads, moves, states) && i < |states| && t in states[i].phase && states[i].phase[t] == Away
    ensures var s, tried := states[i], Step(states[i], Try(t));
            && tried.Ok? && tried.s.phase == s.phase && tried.s.sema.waiters == s.sema.waiters
            && tried.s.downs == s.downs + if s.downs < init + s.ups then 1 else 0
    ensures var s, down := states[i], Step(states[i], Down(t));
            && down.Ok? && t in down.s.phase
            && (down.s.phase[t] == Away && down.s.downs == s.downs + 1 <==> s.downs < init + s.ups)
            && (down.s.phase[t] == Blocked && down.s.downs == s.downs <==> s.downs == init + s.ups)
  {
    EveryInterleaving(init, threads, moves, states, i, Raise);
  }

  // ---------------------------------------------------------------- the order of wakeups

  /** The threads that have gone to sleep, in order. */
  function Slept(moves: seq<Move>, states: seq<System>, i: nat): seq<Tid>
    requires i <= |moves| < |states|
  {
    if i == 0 then []
    else Slept(moves, states, i - 1) + FallsAsleep(moves[i - 1], states[i])
  }

  function FallsAsleep(m: Move, s': System): seq<Tid> {
    if (m.Down? || m.Retest?) && m.t in s'.phase && s'.phase[m.t] == Blocked then [m.t] else []
  }

  /** The threads that have been woken, in order. */
  ghost function Awakened(states: seq<System>, i: nat): seq<Tid>
    requires i < |states|
  {
    if i == 0 then [] else Awakened(states, i - 1) + Wakes(states[i - 1].phase, states[i].phase)
  }

  ghost predicate IsWoken(phase: map<Tid, Phase>, phase': map<Tid, Phase>, t: Tid) {
    t in phase && t in phase' && phase[t] == Blocked && phase'[t] == Woken
  }

  ghost function Wakes(phase: map<Tid, Phase>, phase': map<Tid, Phase>): seq<Tid> {
    if t: Tid :| IsWoken(phase, phase', t) then [t] else []
  }

  lemma OneStepOrder(s: System, m: Move, s': System, init: nat)
    requires Inv(s, init) && Enabled(s, m) && Step(s, m) == Ok(s')
    ensures s.sema.waiters + FallsAsleep(m, s') == Wakes(s.phase, s'.phase) + s'.sema.waiters
  {
    if m.Raise? && s.sema.waiters != [] {
      var u := s.sema.waiters[0];
      assert u in s.sema.waiters;
      assert IsWoken(s.phase, s'.phase, u) && forall t :: IsWoken(s.phase, s'.phase, t) ==> t == u;
      assert s.sema.waiters == [u] + s'.sema.waiters;
    } else {
      assert forall t :: !IsWoken(s.phase, s'.phase, t);
    }
  }

  /** Threads are woken in the order in which they went to sleep; those still asleep are
      the last ones, and are queued in this order. */
  lemma {:induction false} FirstAsleepFirstWoken(init: nat, threads: set<Tid>, moves: seq<Move>, states: seq<System>, i: nat)
    requires IsRun(init, threads, moves, states) && i < |states|
    ensures Slept(moves, states, i) == Awakened(states, i) + states[i].sema.waiters
  {
    hide Inv, Enabled, Step, FallsAsleep, Wakes;
    if i > 0 {
      FirstAsleepFirstWoken(init, threads, moves, states, i - 1);
      EveryInterleaving(init, threads, moves, states, i - 1, Raise);
      OneStepOrder(states[i - 1], moves[i - 1], states[i], init);
      Regroup(Awakened(states, i - 1), states[i - 1].sema.waiters, FallsAsleep(moves[i - 1], states[i]),
              Wakes(states[i - 1].phase, states[i].phase), states[i].sema.waiters);
    }
  }

  lemma Regroup(awake: seq<Tid>, q: seq<Tid>, slept: seq<Tid>, woken: seq<Tid>, q': seq<Tid>)
    requires q + slept == woken + q'
    ensures (awake + q) + slept == (awake + woken) + q'
  {
    assert (awake + q) + slept == awake + (q + slept);
  }
}
