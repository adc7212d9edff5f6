/** Semaphores as their atomic segments: what runs with interrupts off is one step. */
module Semaphores {
  import opened Sequences
  import opened Bitmap

  type Tid = nat

  datatype Sema = Sema(value: nat, waiters: seq<Tid>)

  /** One test of the loop in sema_down: pass and decrement, or queue up and block. */
  function Test(s: Sema, t: Tid): (r: (Sema, bool)) {
    if s.value == 0 then (s.(waiters := s.waiters + [t]), false)
    else (s.(value := s.value - 1), true)
  }

  /** sema_try_down */
  function TryDown(s: Sema): (Sema, bool) {
    if s.value > 0 then (s.(value := s.value - 1), true) else (s, false)
  }

  /** sema_up: the thread that is woken, if any. */
  function Up(s: Sema): (Sema, Option<Tid>) {
    if s.waiters != [] then (Sema(s.value + 1, s.waiters[1..]), Some(s.waiters[0]))
    else (s.(value := s.value + 1), None)
  }

  /** A failed assertion ends every run. */
  datatype Outcome<S> = Ok(s: S) | Fail

}
