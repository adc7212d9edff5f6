/** Threads that take chunks of a range from a shared counter and test them for primes, in
    every interleaving. */
module PrimeSharing {
  import opened Bitmap

  const CHUNK: nat := 100

  // ---------------------------------------------------------------- the test

  ghost predicate Prime(n: nat) {
    n >= 2 && forall d :: 2 <= d < n ==> !Divides(d, n)
  }

  predicate Divides(d: nat, n: nat) {
    d > 0 && n % d == 0
  }

  /** A divisor above the root has a partner below it. */
  lemma SmallDivisor(n: nat, d: nat, root: nat)
    requires n < (root + 1) * (root + 1) && 2 <= d < n && Divides(d, n) && d > root
    ensures var e := n / d; 2 <= e <= root && Divides(e, n)
  {
    var e := n / d;
    assert n == d * e;
    if e > root {
      Bigger(root + 1, d, root + 1, e);
    }
    if e <= 1 {
      Bigger(d, d, e, 1);
    }
    ExactQuotient(n, e, d);
  }

  lemma Bigger(a: nat, b: nat, c: nat, d: nat)
    requires a <= b && c <= d
    ensures a * c <= b * d
  {
    assert a * c <= b * c;
    assert b * c <= b * d;
  }

  lemma ExactQuotient(n: nat, e: nat, d: nat)
    requires e > 0 && n == d * e
    ensures n % e == 0
  {
    var q, r := n / e, n % e;
    assert n == q * e + r;
    if q < d {
      Bigger(q + 1, d, e, e);
    } else if q > d {
      Bigger(d + 1, q, e, e);
    }
    assert (q + 1) * e == q * e + e && (d + 1) * e == d * e + e;
  }

  /** isPrime; `root` is floor(sqrt(n)). */
  method IsPrime(n: nat, root: nat) returns (prime: bool)
    requires n >= 1 && root * root <= n < (root + 1) * (root + 1)
    ensures prime == Prime(n)
  {
    if n == 1 {
      return false;
    }
    assert root < n by {
      if root >= n {
        Bigger(2, root, n, root);
      }
    }
    var i := 2;
    while i <= root
      invariant 2 <= i
      invariant forall d :: 2 <= d < i && d <= root ==> !Divides(d, n)
    {
      if n % i == 0 {
        assert Divides(i, n);
        return false;
      }
      i := i + 1;
    }
    forall d | 2 <= d < n ensures !Divides(d, n) {
      if d > root && Divides(d, n) {
        SmallDivisor(n, d, root);
      }
    }
    return true;
  }

  // ---------------------------------------------------------------- the threads

  type Tid = nat

  datatype Pc =
    | Guard                          // reads the counter without the mutex
    | Want                           // before pthread_mutex_lock
    | Locked                         // before local = global
    | HasLocal(local: nat)           // before global = global + CHUNK
    | Updated(local: nat)            // before pthread_mutex_unlock
    | Work(local: nat, top: nat)
    | Done

  datatype Test = Test(t: Tid, n: nat)

  /** `log` records the tests in the order in which they happen. */
  datatype State = State(limit: nat, global: nat, mutex: Option<Tid>, pc: seq<Pc>,
                         primeF: set<nat>, counts: seq<nat>, log: seq<Test>)

  predicate Enabled(s: State, t: Tid) {
    t < |s.pc| && s.pc[t] != Done && (s.pc[t] == Want ==> s.mutex.None?)
  }

  function At(s: State, t: Tid, pc: Pc): State
    requires t < |s.pc|
  {
    s.(pc := s.pc[t := pc])
  }

  /** One number of a chunk. */
  ghost function Tested(s: State, t: Tid): State
    requires t < |s.pc| == |s.counts| && s.pc[t].Work?
  {
    var n := s.pc[t].local;
    var s1 := s.(log := s.log + [Test(t, n)]);
    var s2 := if Prime(n) then s1.(primeF := s1.primeF + {n}, counts := s1.counts[t := s1.counts[t] + 1]) else s1;
    At(s2, t, Work(n + 1, s.pc[t].top))
  }

  ghost function Step(s: State, t: Tid): State
    requires Enabled(s, t) && |s.counts| == |s.pc|
  {
    match s.pc[t]
    case Guard => At(s, t, if s.global < s.limit then Want else Done)
    case Want => At(s.(mutex := Some(t)), t, Locked)
    case Locked => At(s, t, HasLocal(s.global))
    case HasLocal(local) => At(s.(global := s.global + CHUNK), t, Updated(local))
    case Updated(local) => At(s.(mutex := None), t, Work(local, local + CHUNK))
    case Work(local, top) => if local < top && local < s.limit then Tested(s, t) else At(s, t, Guard)
  }

  // ---------------------------------------------------------------- the invariant

  /** The numbers that a thread has taken and not yet tested. */
  predicate Claims(pc: Pc, n: nat) {
    match pc
    case Updated(local) => local <= n < local + CHUNK
    case Work(local, top) => local <= n < top
    case _ => false
  }

  predicate InMutex(pc: Pc) {
    pc.Locked? || pc.HasLocal? || pc.Updated?
  }

  ghost predicate MutexOk(s: State) {
    && (forall t :: 0 <= t < |s.pc| ==> (InMutex(s.pc[t]) <==> s.mutex == Some(t)))
    && (s.mutex.Some? ==> s.mutex.value < |s.pc|)
    && (forall t :: 0 <= t < |s.pc| && s.pc[t].HasLocal? ==> s.pc[t].local == s.global)
  }

  ghost predicate Logged(log: seq<Test>, n: nat) {
    exists k :: 0 <= k < |log| && log[k].n == n
  }

  ghost predicate ClaimsOk(s: State) {
    && (forall t, n: nat :: 0 <= t < |s.pc| && Claims(s.pc[t], n) ==> 1 <= n < s.global)
    && (forall t, n: nat :: 0 <= t < |s.pc| && Logged(s.log, n) ==> !Claims(s.pc[t], n))
    && (forall t, u, n: nat :: 0 <= t < |s.pc| && 0 <= u < |s.pc| && Claims(s.pc[t], n) && Claims(s.pc[u], n) ==> t == u)
  }

  ghost predicate Claimed(s: State, n: nat) {
    exists t :: 0 <= t < |s.pc| && Claims(s.pc[t], n)
  }

  ghost predicate Covered(s: State) {
    forall n: nat :: 1 <= n < s.global && n < s.limit ==> Logged(s.log, n) || Claimed(s, n)
  }

  ghost predicate LogOk(s: State) {
    && (forall j, k :: 0 <= j < k < |s.log| ==> s.log[j].n != s.log[k].n)
    && (forall k :: 0 <= k < |s.log| ==> s.log[k].t < |s.pc| && 1 <= s.log[k].n < s.limit && s.log[k].n < s.global)
  }

  function Sum(c: seq<nat>): nat {
    if c == [] then 0 else c[0] + Sum(c[1..])
  }

  /** The numbers of the primes that thread `t` tested. */
  ghost function PrimesBy(log: seq<Test>, t: Tid): nat {
    if log == [] then 0
    else PrimesBy(log[..|log| - 1], t)
         + if log[|log| - 1].t == t && Prime(log[|log| - 1].n) then 1 else 0
  }

  ghost predicate ResultsOk(s: State) {
    && |s.counts| == |s.pc|
    && (forall n :: n in s.primeF <==> Logged(s.log, n) && Prime(n))
    && (forall t :: 0 <= t < |s.counts| ==> s.counts[t] == PrimesBy(s.log, t))
    && Sum(s.counts) == |s.primeF|
  }

  ghost predicate Inv(s: State) {
    && s.global >= 1
    && MutexOk(s) && ClaimsOk(s) && Covered(s) && LogOk(s) && ResultsOk(s)
    && (forall t :: 0 <= t < |s.pc| && s.pc[t] == Done ==> s.global >= s.limit)
  }

  // ---------------------------------------------------------------- every step keeps it

  lemma LoggedMore(log: seq<Test>, e: Test, n: nat)
    ensures Logged(log + [e], n) <==> Logged(log, n) || n == e.n
  {
    var r := log + [e];
    if Logged(log, n) {
      var k :| 0 <= k < |log| && log[k].n == n;
      assert r[k].n == n;
    }
    assert r[|log|] == e;
  }

  lemma {:induction false} SumMore(c: seq<nat>, t: nat)
    requires t < |c|
    ensures Sum(c[t := c[t] + 1]) == Sum(c) + 1
  {
    var r := c[t := c[t] + 1];
    if t == 0 {
      assert r[1..] == c[1..];
    } else {
      assert r[1..] == c[1..][t - 1 := c[1..][t - 1] + 1];
      SumMore(c[1..], t - 1);
    }
  }

  /** A move that neither tests nor changes anybody's claim. */
  lemma SameClaims(s: State, s': State, t: Tid, next: Pc)
    requires ClaimsOk(s) && Covered(s) && t < |s.pc| && s'.pc == s.pc[t := next]
    requires s'.log == s.log && s'.limit == s.limit && s'.global == s.global
    requires forall n: nat :: (Claims(next, n) && n < s.limit ==> Claims(s.pc[t], n)) && (Claims(s.pc[t], n) && n < s.limit ==> Claims(next, n))
    requires forall n: nat :: Claims(next, n) ==> Claims(s.pc[t], n)
    ensures ClaimsOk(s') && Covered(s')
  {
    hide Logged;
    forall u, n: nat | 0 <= u < |s'.pc| && Claims(s'.pc[u], n) ensures Claims(s.pc[u], n) {
      if u == t {
        assert Claims(next, n);
      }
    }
    forall n: nat | 1 <= n < s'.global && n < s'.limit ensures Logged(s'.log, n) || Claimed(s', n) {
      if !Logged(s.log, n) {
        var u :| 0 <= u < |s.pc| && Claims(s.pc[u], n);
        assert Claims(s'.pc[u], n);
      }
    }
  }

  /** The counter moves on: its old range belongs to the thread that moved it. */
  lemma TakeChunk(s: State, s': State, t: Tid)
    requires ClaimsOk(s) && Covered(s) && s.global >= 1 && LogOk(s)
    requires t < |s.pc| && s.pc[t] == HasLocal(s.global) && s'.pc == s.pc[t := Updated(s.global)]
    requires s'.log == s.log && s'.limit == s.limit && s'.global == s.global + CHUNK
    ensures ClaimsOk(s') && Covered(s')
  {
    forall n: nat | s.global <= n ensures !Logged(s.log, n) {
    }
    hide Logged;
    forall u, n: nat | 0 <= u < |s'.pc| && Claims(s'.pc[u], n)
      ensures if u == t then s.global <= n < s'.global else Claims(s.pc[u], n)
    {
    }
    forall n: nat | 1 <= n < s'.global && n < s'.limit ensures Logged(s'.log, n) || Claimed(s', n) {
      if n >= s.global {
        assert Claims(s'.pc[t], n);
      } else if !Logged(s.log, n) {
        var u :| 0 <= u < |s.pc| && Claims(s.pc[u], n);
        assert Claims(s'.pc[u], n);
      }
    }
  }

  /** A test moves one number from the thread's claim to the log. */
  lemma TestClaims(s: State, s': State, t: Tid, n0: nat, top: nat)
    requires ClaimsOk(s) && Covered(s) && t < |s.pc| && s.pc[t] == Work(n0, top) && n0 < top
    requires s'.pc == s.pc[t := Work(n0 + 1, top)] && s'.log == s.log + [Test(t, n0)]
    requires s'.limit == s.limit && s'.global == s.global
    ensures ClaimsOk(s') && Covered(s')
  {
    assert Claims(s.pc[t], n0);
    forall n: nat ensures Logged(s'.log, n) <==> Logged(s.log, n) || n == n0 {
      LoggedMore(s.log, Test(t, n0), n);
    }
    hide Logged;
    forall u, n: nat | 0 <= u < |s'.pc| && Claims(s'.pc[u], n) ensures Claims(s.pc[u], n) && n != n0 {
    }
    forall n: nat | 1 <= n < s'.global && n < s'.limit ensures Logged(s'.log, n) || Claimed(s', n) {
      if !Logged(s.log, n) && n != n0 {
        var u :| 0 <= u < |s.pc| && Claims(s.pc[u], n);
        assert Claims(s'.pc[u], n);
      }
    }
  }

  lemma TestLog(s: State, t: Tid, n0: nat, top: nat)
    requires LogOk(s) && ClaimsOk(s) && t < |s.pc| && s.pc[t] == Work(n0, top) && n0 < top && n0 < s.limit
    ensures !Logged(s.log, n0)
    ensures LogOk(s.(log := s.log + [Test(t, n0)], pc := s.pc[t := Work(n0 + 1, top)]))
  {
    assert Claims(s.pc[t], n0);
    assert !Logged(s.log, n0);
  }

  lemma PrimesByMore(log: seq<Test>, e: Test, t: Tid)
    ensures PrimesBy(log + [e], t) == PrimesBy(log, t) + if e.t == t && Prime(e.n) then 1 else 0
  {
    assert (log + [e])[..|log|] == log;
  }

  lemma TestResults(s: State, t: Tid)
    requires ResultsOk(s) && t < |s.pc| && s.pc[t].Work? && !Logged(s.log, s.pc[t].local)
    ensures ResultsOk(Tested(s, t))
  {
    var n0 := s.pc[t].local;
    var s' := Tested(s, t);
    forall n: nat ensures Logged(s'.log, n) <==> Logged(s.log, n) || n == n0 {
      LoggedMore(s.log, Test(t, n0), n);
    }
    forall u | 0 <= u < |s.counts| ensures s'.counts[u] == PrimesBy(s'.log, u) {
      PrimesByMore(s.log, Test(t, n0), u);
    }
    hide Prime, Logged, PrimesBy;
    if Prime(n0) {
      SumMore(s.counts, t);
    }
  }

  lemma TestedKeeps(s: State, t: Tid)
    requires Inv(s) && t < |s.pc| && s.pc[t].Work? && s.pc[t].local < s.pc[t].top && s.pc[t].local < s.limit
    ensures |s.counts| == |s.pc| && Inv(Tested(s, t))
  {
    var n0, top := s.pc[t].local, s.pc[t].top;
    hide *;
    InvParts(s);
    TestShape(s, t);
    var s' := Tested(s, t);
    TestLog(s, t, n0, top);
    LogShape(s.(log := s.log + [Test(t, n0)], pc := s.pc[t := Work(n0 + 1, top)]), s');
    TestClaims(s, s', t, n0, top);
    TestResults(s, t);
    Assemble(s, s', t);
  }

  lemma InvParts(s: State)
    requires Inv(s)
    ensures ClaimsOk(s) && Covered(s) && LogOk(s) && ResultsOk(s) && |s.counts| == |s.pc|
  {
    hide ClaimsOk, Covered, LogOk;
  }

  lemma LogShape(s: State, s': State)
    requires LogOk(s) && s'.log == s.log && s'.pc == s.pc && s'.limit == s.limit && s'.global == s.global
    ensures LogOk(s')
  {
  }

  lemma TestShape(s: State, t: Tid)
    requires t < |s.pc| == |s.counts| && s.pc[t].Work?
    ensures var n0, s' := s.pc[t].local, Tested(s, t);
            && s'.pc == s.pc[t := Work(n0 + 1, s.pc[t].top)] && s'.log == s.log + [Test(t, n0)]
            && s'.limit == s.limit && s'.global == s.global && s'.mutex == s.mutex
  {
  }

  lemma Assemble(s: State, s': State, t: Tid)
    requires Inv(s) && t < |s.pc| && s.pc[t].Work?
    requires s'.limit == s.limit && s'.global == s.global && s'.mutex == s.mutex
    requires exists n, top :: s'.pc == s.pc[t := Work(n, top)]
    requires ClaimsOk(s') && Covered(s') && LogOk(s') && ResultsOk(s')
    ensures Inv(s')
  {
    hide ClaimsOk, Covered, LogOk, ResultsOk;
  }

  lemma QuietKeeps(s: State, t: Tid)
    requires Inv(s) && Enabled(s, t) && !s.pc[t].Work? && !s.pc[t].HasLocal?
    ensures |s.counts| == |s.pc| && Inv(Step(s, t))
  {
    var s' := Step(s, t);
    SameClaims(s, s', t, s'.pc[t]);
    hide ClaimsOk, Covered, Prime, Sum, PrimesBy, Logged;
  }

  lemma WorkEnds(s: State, t: Tid)
    requires Inv(s) && t < |s.pc| && s.pc[t].Work? && !(s.pc[t].local < s.pc[t].top && s.pc[t].local < s.limit)
    ensures Inv(At(s, t, Guard))
  {
    SameClaims(s, At(s, t, Guard), t, Guard);
    hide ClaimsOk, Covered, Prime, Sum, PrimesBy, Logged;
  }

  lemma TakeKeeps(s: State, t: Tid)
    requires Inv(s) && t < |s.pc| && s.pc[t].HasLocal?
    ensures |s.counts| == |s.pc| && Enabled(s, t) && Inv(Step(s, t))
  {
    TakeChunk(s, Step(s, t), t);
    hide ClaimsOk, Covered, Prime, Sum, PrimesBy, Logged;
  }

  lemma StepKeeps(s: State, t: Tid)
    requires Inv(s) && Enabled(s, t)
    ensures |s.counts| == |s.pc| && Inv(Step(s, t))
  {
    hide Inv, Tested;
    if s.pc[t].HasLocal? {
      TakeKeeps(s, t);
    } else if !s.pc[t].Work? {
      QuietKeeps(s, t);
    } else {
      Sizes(s);
      if s.pc[t].local < s.pc[t].top && s.pc[t].local < s.limit {
        TestedKeeps(s, t);
      } else {
        WorkEnds(s, t);
      }
    }
  }

  lemma Sizes(s: State)
    requires Inv(s)
    ensures |s.counts| == |s.pc|
  {
  }

  // ---------------------------------------------------------------- termination

  function Least(a: int, b: int): int {
    if a < b then a else b
  }

  /** Numbers below the limit that a thread still has to go through. */
  function Left(local: nat, top: nat, limit: nat): nat {
    if local < Least(top, limit) then Least(top, limit) - local else 0
  }

  /** How far a thread is from the end; a pass through the loop counts only while the
      counter is below the limit. */
  function Weight(pc: Pc, limit: nat, below: bool): nat {
    match pc
    case Done => 0
    case Guard => if below then 7 else 1
    case Want => 6
    case Locked => 5
    case HasLocal(_) => 4
    case Updated(local) => Left(local, local + CHUNK, limit) + if below then 9 else 3
    case Work(local, top) => Left(local, top, limit) + if below then 8 else 2
  }

  function Weights(pc: seq<Pc>, limit: nat, below: bool): nat {
    if pc == [] then 0 else Weight(pc[0], limit, below) + Weights(pc[1..], limit, below)
  }

  function Remaining(s: State): nat {
    if s.global < s.limit then s.limit - s.global else 0
  }

  function Measure(s: State): nat {
    Weights(s.pc, s.limit, s.global < s.limit) + 300 * Remaining(s)
  }

  lemma {:induction false} WeightChange(pc: seq<Pc>, t: nat, next: Pc, limit: nat, below: bool)
    requires t < |pc|
    ensures Weights(pc[t := next], limit, below) == Weights(pc, limit, below) - Weight(pc[t], limit, below) + Weight(next, limit, below)
  {
    var r := pc[t := next];
    hide Weight;
    if t == 0 {
      assert r[1..] == pc[1..];
    } else {
      assert r[1..] == pc[1..][t - 1 := next];
      WeightChange(pc[1..], t - 1, next, limit, below);
    }
  }

  lemma {:induction false} WeightsFall(pc: seq<Pc>, limit: nat)
    ensures Weights(pc, limit, false) <= Weights(pc, limit, true)
  {
    if pc != [] {
      WeightsFall(pc[1..], limit);
    }
  }

  /** The counter passes a chunk. */
  lemma TakeFalls(s: State, t: Tid)
    requires Inv(s) && Enabled(s, t) && s.pc[t].HasLocal?
    ensures |s.counts| == |s.pc| && Measure(Step(s, t)) < Measure(s)
  {
    var s' := Step(s, t);
    var below, below' := s.global < s.limit, s'.global < s'.limit;
    WeightChange(s.pc, t, Updated(s.global), s.limit, below');
    assert s.pc[t].local == s.global;
    hide Inv, Weights;
    if below && !below' {
      WeightsFall(s.pc, s.limit);
    }
  }

  /** Every step brings the end closer, so every run is finite. */
  lemma StepFalls(s: State, t: Tid)
    requires Inv(s) && Enabled(s, t)
    ensures |s.counts| == |s.pc| && Measure(Step(s, t)) < Measure(s)
  {
    Sizes(s);
    if s.pc[t].HasLocal? {
      TakeFalls(s, t);
    } else {
      hide Inv, Weights;
      WeightChange(s.pc, t, Step(s, t).pc[t], s.limit, s.global < s.limit);
    }
  }

  /** Until all threads are done some thread can move: the mutex is never stuck. */
  lemma NeverStuck(s: State, t: Tid)
    requires Inv(s) && t < |s.pc| && s.pc[t] != Done
    ensures exists u :: Enabled(s, u)
  {
    if s.pc[t] == Want && s.mutex.Some? {
      var u := s.mutex.value;
      assert InMutex(s.pc[u]);
      assert Enabled(s, u);
    } else {
      assert Enabled(s, t);
    }
  }

  // ---------------------------------------------------------------- runs

  /** The counter at 1, all threads before the guard of their loop. */
  function Initial(limit: nat, threads: nat): State {
    State(limit, 1, None, seq(threads, i => Guard), {}, seq(threads, i => 0), [])
  }

  ghost predicate IsRun(limit: nat, threads: nat, moves: seq<Tid>, states: seq<State>) {
    && |states| == |moves| + 1 && states[0] == Initial(limit, threads)
    && forall i :: 0 <= i < |moves| ==> Follows(states[i], moves[i], states[i + 1])
  }

  ghost predicate Follows(s: State, t: Tid, s': State) {
    Enabled(s, t) && |s.counts| == |s.pc| && s' == Step(s, t)
  }

  lemma {:induction false} SumZeros(c: seq<nat>)
    requires forall i :: 0 <= i < |c| ==> c[i] == 0
    ensures Sum(c) == 0
  {
    if c != [] {
      SumZeros(c[1..]);
    }
  }

  lemma InitialInv(limit: nat, threads: nat)
    ensures Inv(Initial(limit, threads))
  {
    SumZeros(seq(threads, i => 0));
  }

  lemma {:induction false} RunInv(limit: nat, threads: nat, moves: seq<Tid>, states: seq<State>, i: nat)
    requires IsRun(limit, threads, moves, states) && i < |states|
    ensures Inv(states[i]) && states[i].limit == limit && |states[i].pc| == threads
    ensures Measure(states[i]) + i <= Measure(Initial(limit, threads))
  {
    hide Inv, Step, Measure, Enabled;
    if i == 0 {
      InitialInv(limit, threads);
    } else {
      RunInv(limit, threads, moves, states, i - 1);
      assert Follows(states[i - 1], moves[i - 1], states[i]);
      StepKeeps(states[i - 1], moves[i - 1]);
      StepFalls(states[i - 1], moves[i - 1]);
      SameShape(states[i - 1], moves[i - 1]);
    }
  }

  lemma SameShape(s: State, t: Tid)
    requires Enabled(s, t) && |s.counts| == |s.pc|
    ensures Step(s, t).limit == s.limit && |Step(s, t).pc| == |s.pc|
  {
  }

  ghost predicate AllDone(s: State) {
    forall t :: 0 <= t < |s.pc| ==> s.pc[t] == Done
  }

  /** No interleaving has more steps than the measure of the start. */
  lemma RunsAreFinite(limit: nat, threads: nat, moves: seq<Tid>, states: seq<State>)
    requires IsRun(limit, threads, moves, states)
    ensures |moves| <= Measure(Initial(limit, threads))
  {
    hide Measure, Follows;
    RunInv(limit, threads, moves, states, |moves|);
  }

  /** The last state of a run that cannot go on: every number from 1 to below the limit was
      tested exactly once, primeF holds exactly the primes among them, each thread's count is
      the number of primes it tested, and the counts add up to the number of primes. */
  lemma EveryInterleaving(limit: nat, threads: nat, moves: seq<Tid>, states: seq<State>)
    requires IsRun(limit, threads, moves, states) && threads > 0
    requires forall u: Tid :: !Enabled(states[|moves|], u)
    ensures AllDone(states[|moves|])
    ensures forall n: nat :: TestedOnce(states[|moves|].log, n) <==> 1 <= n < limit
    ensures forall n: nat :: Logged(states[|moves|].log, n) ==> 1 <= n < limit
    ensures forall n: nat :: n in states[|moves|].primeF <==> n < limit && Prime(n)
    ensures |states[|moves|].counts| == threads
    ensures forall t: Tid :: t < threads ==> states[|moves|].counts[t] == PrimesBy(states[|moves|].log, t)
    ensures Sum(states[|moves|].counts) == |states[|moves|].primeF|
  {
    RunInv(limit, threads, moves, states, |moves|);
    var s := states[|moves|];
    hide Follows, Measure, PrimesBy, Sum, Enabled;
    forall t | 0 <= t < |s.pc| ensures s.pc[t] == Done {
      if s.pc[t] != Done {
        NeverStuck(s, t);
      }
    }
    AtTheEnd(s);
  }

  /** The number occurs exactly once in the log. */
  ghost predicate TestedOnce(log: seq<Test>, n: nat) {
    exists k :: 0 <= k < |log| && log[k].n == n && forall j :: 0 <= j < |log| && j != k ==> log[j].n != n
  }

  lemma AtTheEnd(s: State)
    requires Inv(s) && AllDone(s) && |s.pc| > 0
    ensures forall n: nat :: TestedOnce(s.log, n) <==> 1 <= n < s.limit
    ensures forall n: nat :: Logged(s.log, n) ==> 1 <= n < s.limit
    ensures forall n: nat :: n in s.primeF <==> n < s.limit && Prime(n)
  {
    LogAtTheEnd(s);
    hide MutexOk, ClaimsOk, Covered, LogOk, Logged, Prime, PrimesBy, TestedOnce;
  }

  lemma LogAtTheEnd(s: State)
    requires Inv(s) && AllDone(s) && |s.pc| > 0
    ensures forall n: nat :: TestedOnce(s.log, n) <==> 1 <= n < s.limit
    ensures forall n: nat :: Logged(s.log, n) <==> 1 <= n < s.limit
  {
    assert s.pc[0] == Done;
    hide Prime, PrimesBy, ResultsOk, MutexOk;
    forall n: nat ensures TestedOnce(s.log, n) <==> 1 <= n < s.limit {
      if 1 <= n < s.limit {
        assert Logged(s.log, n);
        var k :| 0 <= k < |s.log| && s.log[k].n == n;
        assert forall j :: 0 <= j < |s.log| && j != k ==> s.log[j].n != n;
      }
    }
  }
}
