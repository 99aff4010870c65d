/** Counting semaphores (proj-pregame/src/threads/synch.c).

    An interrupt-off region is atomic, so `sema_down` is a sequence of passes through its loop test:
    a pass either takes the semaphore or puts the thread on the wait list. A woken thread makes
    another pass, and may find that somebody else was faster. */
module Semaphores {
  import opened Basics

  type Tid = nat

  datatype Semaphore = Semaphore(value: nat, waiters: seq<Tid>)

  /** Removing the front of a list without repetitions removes exactly that element. */
  lemma PopFront(q: seq<Tid>)
    requires Distinct(q) && q != []
    ensures Distinct(q[1..]) && forall t :: t in q[1..] <==> t in q && t != q[0]
  {
    assert q == [q[0]] + q[1..];
  }

  /** One pass of thread `t` through the loop of `sema_down`. */
  function DownPass(s: Semaphore, t: Tid): Semaphore {
    if s.value > 0 then s.(value := s.value - 1) else s.(waiters := s.waiters + [t])
  }

  /** `sema_up`: the front waiter, if there is one, leaves the list before the value grows. */
  function Up(s: Semaphore): Semaphore {
    Semaphore(s.value + 1, if s.waiters == [] then [] else s.waiters[1..])
  }

  /** The thread that `sema_up` makes ready. */
  function Woken(s: Semaphore): Option<Tid> {
    if s.waiters == [] then None else Some(s.waiters[0])
  }
}
