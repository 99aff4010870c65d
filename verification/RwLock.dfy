/** The writer-preferring readers-writers lock (proj-pregame/src/threads/synch.c:222-358) with the
    guard lock and the Mesa condition variables under it, as a step system.

    Every interrupt-off region and every access to the lock's fields is one step of one thread, and any
    thread that is not asleep on a wait list may take the next step. Any number of threads may use
    the lock, and a thread may hold several accesses at once. */
module RwLock {
  import opened Basics
  import opened Semaphores

  /** Why a thread is acquiring the guard lock. */
  datatype Goal = Enter | Rewait | Leave

  /** What a thread does once it has released the guard lock. */
  datatype Next = Entered | Waiting | Left

  /** Where a thread is in `rw_lock_acquire` or `rw_lock_release`. */
  datatype PC =
    | Outside               // in neither call
    | Lock(goal: Goal)      // in `sema_down` of the guard's semaphore
    | Own(goal: Goal)       // has the semaphore, about to set `holder`
    | Check                 // at the `while` test of the acquire loop
    | Park                  // counted as waiting, about to queue itself in `cond_wait`
    | Unlock(next: Next)    // about to clear `holder`
    | Post(next: Next)      // about to `sema_up` the guard's semaphore
    | Sleep                 // in `sema_down` of its own waiter semaphore
    | Resume                // has the guard again after a wait
    | Drop                  // in release, about to give up its access
    | Signal                // about to `cond_signal` the write queue
    | Broadcast             // in the loop of `cond_broadcast` on the read queue

  /** `sema` is the `semaphore_elem` that `cond_wait` keeps on the thread's stack. */
  datatype Thread = Thread(pc: PC, reader: bool, sema: Semaphore)

  /** Auxiliary: `owner` is the thread that took the guard's semaphore and has not put it back;
      `readers` and `writers` hold one element for each read or write access that a thread has;
      `rwait` and `wwait` are the threads between the two updates of WR or WW around a wait. */
  datatype State = State(
    th: map<Tid, Thread>,
    guard: Semaphore, holder: Option<Tid>, owner: Option<Tid>,
    rq: seq<Tid>, wq: seq<Tid>,
    AR: int, WR: int, AW: int, WW: int,
    readers: multiset<Tid>, writers: multiset<Tid>, rwait: set<Tid>, wwait: set<Tid>)

  /** What a thread outside the lock calls next. */
  datatype Call = Acquire(reader: bool) | Release(reader: bool)

  ghost predicate Initial(s: State) {
    && (forall t <- s.th :: s.th[t].pc == Outside)
    && s.guard == Semaphore(1, []) && s.holder == None && s.owner == None
    && s.rq == [] && s.wq == []
    && s.AR == s.WR == s.AW == s.WW == 0
    && s.readers == multiset{} && s.writers == multiset{} && s.rwait == {} && s.wwait == {}
  }

  ghost predicate Asleep(s: State, t: Tid) requires t in s.th {
    || (s.th[t].pc.Lock? && t in s.guard.waiters)
    || (s.th[t].pc.Sleep? && t in s.th[t].sema.waiters)
  }

  /** A thread may step when it is awake; it releases only an access that it has. */
  ghost predicate Enabled(s: State, t: Tid, call: Call) {
    && t in s.th
    && !Asleep(s, t)
    && (s.th[t].pc == Outside && call.Release? ==> t in (if call.reader then s.readers else s.writers))
  }

  function Goto(s: State, t: Tid, pc: PC): State requires t in s.th {
    s.(th := s.th[t := s.th[t].(pc := pc)])
  }

  /** Must an acquiring reader or writer wait (lines 236 and 244)? */
  predicate MustWait(s: State, reader: bool) {
    if reader then s.AW + s.WW > 0 else s.AR + s.AW > 0
  }

  function StepCheck(s: State, t: Tid): State requires t in s.th {
    var reader := s.th[t].reader;
    if MustWait(s, reader) then
      Goto(if reader then s.(WR := s.WR + 1, rwait := s.rwait + {t})
           else s.(WW := s.WW + 1, wwait := s.wwait + {t}), t, Park)
    else if reader then
      Goto(s.(AR := s.AR + 1, readers := s.readers + multiset{t}), t, Unlock(Entered))
    else
      Goto(s.(AW := s.AW + 1, writers := s.writers + multiset{t}), t, Unlock(Entered))
  }

  function StepPark(s: State, t: Tid): State requires t in s.th {
    var s1 := s.(th := s.th[t := s.th[t].(pc := Unlock(Waiting), sema := Semaphore(0, []))]);
    if s.th[t].reader then s1.(rq := s.rq + [t]) else s1.(wq := s.wq + [t])
  }

  function StepSleep(s: State, t: Tid): State requires t in s.th {
    var sema := s.th[t].sema;
    s.(th := s.th[t := s.th[t].(pc := if sema.value > 0 then Lock(Rewait) else Sleep, sema := DownPass(sema, t))])
  }

  function StepDrop(s: State, t: Tid): State requires t in s.th {
    if s.th[t].reader then
      Goto(s.(AR := s.AR - 1, readers := s.readers - multiset{t}), t,
           if s.AR - 1 == 0 && s.WW > 0 then Signal else Unlock(Left))
    else
      Goto(s.(AW := s.AW - 1, writers := s.writers - multiset{t}), t,
           if s.WW > 0 then Signal else if s.WR > 0 then Broadcast else Unlock(Left))
  }

  function Queue(s: State, reader: bool): seq<Tid> {
    if reader then s.rq else s.wq
  }

  /** `cond_signal`: the front waiter, if there is one, leaves the queue and its semaphore goes up. */
  function CondSignal(s: State, reader: bool): State
    requires forall u <- Queue(s, reader) :: u in s.th
  {
    var q := Queue(s, reader);
    if q == [] then s else
      var s1 := s.(th := s.th[q[0] := s.th[q[0]].(sema := Up(s.th[q[0]].sema))]);
      if reader then s1.(rq := q[1..]) else s1.(wq := q[1..])
  }

  /** The next step of thread `t`; `call` matters only when `t` is outside the lock. */
  function Step(s: State, t: Tid, call: Call): State
    requires t in s.th && (forall u <- s.rq :: u in s.th) && (forall u <- s.wq :: u in s.th)
  {
    match s.th[t].pc
    case Outside =>
      s.(th := s.th[t := s.th[t].(pc := Lock(if call.Acquire? then Enter else Leave), reader := call.reader)])
    case Lock(g) =>
      (if s.guard.value > 0 then Goto(s, t, Own(g)).(owner := Some(t)) else s).(guard := DownPass(s.guard, t))
    case Own(g) =>
      Goto(s, t, match g case Enter => Check case Rewait => Resume case Leave => Drop).(holder := Some(t))
    case Check => StepCheck(s, t)
    case Park => StepPark(s, t)
    case Unlock(k) => Goto(s, t, Post(k)).(holder := None)
    case Post(k) => Goto(s, t, if k == Waiting then Sleep else Outside).(guard := Up(s.guard), owner := None)
    case Sleep => StepSleep(s, t)
    case Resume =>
      Goto(if s.th[t].reader then s.(WR := s.WR - 1, rwait := s.rwait - {t})
           else s.(WW := s.WW - 1, wwait := s.wwait - {t}), t, Check)
    case Drop => StepDrop(s, t)
    case Signal => Goto(CondSignal(s, false), t, Unlock(Left))
    case Broadcast => if s.rq == [] then Goto(s, t, Unlock(Left)) else CondSignal(s, true)
  }

  /* ---- The invariant ---- */

  /** Does a thread at `pc` own the guard's semaphore? */
  predicate Inside(pc: PC) {
    !pc.Outside? && !pc.Lock? && !pc.Sleep?
  }

  /** Is a thread at `pc` between the increment and the decrement of WR or WW? */
  predicate Waits(pc: PC) {
    || pc == Park || pc == Unlock(Waiting) || pc == Post(Waiting) || pc == Sleep
    || pc == Lock(Rewait) || pc == Own(Rewait) || pc == Resume
  }

  /** May a thread at `pc` be on a condition queue? */
  predicate Queues(pc: PC) {
    pc == Unlock(Waiting) || pc == Post(Waiting) || pc == Sleep
  }

  /** Is a thread at `pc` about to give up an access? */
  predicate Leaving(pc: PC) {
    pc == Lock(Leave) || pc == Own(Leave) || pc == Drop
  }

  /** What holds of one thread, whatever the others do. */
  ghost predicate ThreadOk(s: State, t: Tid) requires t in s.th {
    var Thread(pc, reader, sema) := s.th[t];
    && (Inside(pc) <==> s.owner == Some(t))
    && (t in s.guard.waiters ==> pc.Lock?)
    // A thread is queued only while it waits unsignalled; one that was signalled before it slept has its signal banked.
    && (t in s.rq ==> reader) && (t in s.wq ==> !reader)
    && (t in s.rq || t in s.wq ==> Queues(pc) && sema.value == 0)
    && (Queues(pc) && t !in s.rq && t !in s.wq ==> sema == Semaphore(1, []))
    && (Queues(pc) ==> sema.waiters == [] || (sema.waiters == [t] && pc == Sleep))
    && (t in s.rwait <==> reader && Waits(pc)) && (t in s.wwait <==> !reader && Waits(pc))
    && (Leaving(pc) ==> t in (if reader then s.readers else s.writers))
    && (pc == Park ==> MustWait(s, reader))
  }

  /** All queues and sets hold known threads, each at most once. */
  ghost predicate Known(s: State) {
    && (s.owner.Some? ==> s.owner.value in s.th)
    && (forall t <- s.guard.waiters :: t in s.th)
    && (forall t <- s.rq :: t in s.th) && (forall t <- s.wq :: t in s.th)
    && (forall t <- s.rwait :: t in s.th) && (forall t <- s.wwait :: t in s.th)
    && Distinct(s.guard.waiters) && Distinct(s.rq) && Distinct(s.wq)
  }

  /** Counters count, the guard's value and `holder` follow its owner, readers and writers exclude
      each other. */
  ghost predicate CountInv(s: State) {
    && s.guard.value == (if s.owner == None then 1 else 0)
    && s.holder == (if s.owner.Some? && s.owner.value in s.th && Inside(s.th[s.owner.value].pc) &&
                       !s.th[s.owner.value].pc.Own? && !s.th[s.owner.value].pc.Post? then s.owner else None)
    && s.AR == |s.readers| && s.AW == |s.writers| && s.WR == |s.rwait| && s.WW == |s.wwait|
    && s.AW <= 1 && (s.AW == 1 ==> s.AR == 0)
  }

  ghost predicate OwnerAt(s: State, pc: PC) {
    s.owner.Some? && s.owner.value in s.th && s.th[s.owner.value].pc == pc
  }

  /** The owner is a writer that is about to test again whether it must wait. */
  ghost predicate WriterChecks(s: State) {
    OwnerAt(s, Check) && !s.th[s.owner.value].reader
  }

  /** Thread `u` is awake and about to test the guard's semaphore. */
  ghost predicate Contends(s: State, u: Tid) {
    u in s.th && s.th[u].pc.Lock? && u !in s.guard.waiters
  }

  /** No wake-up is lost. While the guard is free, a sleeper on it is matched by a contender. When
      nobody is active, a writer that waits is out of the queue or about to be signalled. When no
      writer is active or waiting, the read queue is empty or being emptied. */
  ghost predicate WakeInv(s: State) {
    && (s.guard.waiters != [] && s.owner == None ==> exists u :: Contends(s, u))
    && (s.wq != [] && s.AR + s.AW == 0 ==> |s.wq| < s.WW || WriterChecks(s) || OwnerAt(s, Signal))
    && (s.rq != [] && s.AW + s.WW == 0 ==> WriterChecks(s) || OwnerAt(s, Broadcast))
  }

  ghost predicate Inv(s: State) {
    Known(s) && (forall t <- s.th :: ThreadOk(s, t)) && CountInv(s) && WakeInv(s)
  }

  lemma InitialInv(s: State)
    requires Initial(s)
    ensures Inv(s)
  {
  }

  lemma {:induction false} SubsetBound(q: seq<Tid>, w: set<Tid>)
    requires Distinct(q) && forall t <- q :: t in w
    ensures |q| <= |w|
  {
    if q != [] {
      PopFront(q);
      SubsetBound(q[1..], w - {q[0]});
    }
  }

  /** A queue is no longer than the number of waiters of its kind. */
  ghost predicate Bounded(s: State) {
    |s.rq| <= s.WR && |s.wq| <= s.WW
  }

  lemma QueueBound(s: State)
    requires Inv(s)
    ensures Bounded(s)
  {
    SubsetBound(s.rq, s.rwait);
    SubsetBound(s.wq, s.wwait);
  }

  /* ---- Every step keeps the invariant ---- */

  /** What a step of `t` needs to know to be right about thread `u`. */
  ghost predicate Before(s: State, t: Tid, call: Call, u: Tid) {
    && Known(s) && CountInv(s) && WakeInv(s) && Bounded(s)
    && Enabled(s, t, call) && ThreadOk(s, t) && u in s.th && ThreadOk(s, u)
  }

  /** What a step has to establish about thread `u`. */
  ghost predicate After(s: State, u: Tid) {
    AfterAll(s) && AfterOne(s, u)
  }

  ghost predicate AfterAll(s: State) { Known(s) && CountInv(s) && WakeInv(s) }

  ghost predicate AfterOne(s: State, u: Tid) { u in s.th && ThreadOk(s, u) }

  lemma OutsideAll(s: State, t: Tid, call: Call, u: Tid)
    requires Before(s, t, call, u) && s.th[t].pc.Outside?
    ensures AfterAll(Step(s, t, call))
  {
    var s' := Step(s, t, call);
    assert forall v :: Contends(s, v) && v != t ==> Contends(s', v);
  }

  lemma OutsideOne(s: State, t: Tid, call: Call, u: Tid)
    requires Before(s, t, call, u) && s.th[t].pc.Outside?
    ensures AfterOne(Step(s, t, call), u)
  {
    var s' := Step(s, t, call);
    assert forall v :: Contends(s, v) && v != t ==> Contends(s', v);
  }

  lemma LockTakes(s: State, t: Tid, call: Call, u: Tid)
    requires Before(s, t, call, u) && s.th[t].pc.Lock? && s.guard.value > 0
    ensures After(Step(s, t, call), u)
  {
  }

  lemma LockSleeps(s: State, t: Tid, call: Call, u: Tid)
    requires Before(s, t, call, u) && s.th[t].pc.Lock? && s.guard.value == 0
    ensures After(Step(s, t, call), u)
  {
  }

  lemma OwnKeeps(s: State, t: Tid, call: Call, u: Tid)
    requires Before(s, t, call, u) && s.th[t].pc.Own?
    ensures After(Step(s, t, call), u)
  {
  }

  lemma CheckWaitsAll(s: State, t: Tid, call: Call, u: Tid)
    requires Before(s, t, call, u) && s.th[t].pc.Check? && MustWait(s, s.th[t].reader)
    ensures AfterAll(Step(s, t, call))
  {
  }

  lemma CheckWaitsOne(s: State, t: Tid, call: Call, u: Tid)
    requires Before(s, t, call, u) && s.th[t].pc.Check? && MustWait(s, s.th[t].reader)
    ensures AfterOne(Step(s, t, call), u)
  {
    CheckWaitsThread(s, t, u);
  }

  lemma CheckWaitsThread(s: State, t: Tid, u: Tid)
    requires t in s.th && u in s.th && ThreadOk(s, t) && ThreadOk(s, u)
    requires s.th[t].pc.Check? && MustWait(s, s.th[t].reader) && s.WW >= 0
    ensures AfterOne(StepCheck(s, t), u)
  {
  }

  lemma ReaderEnters(s: State, t: Tid, call: Call, u: Tid)
    requires Before(s, t, call, u) && s.th[t].pc.Check? && !MustWait(s, s.th[t].reader) && s.th[t].reader
    ensures After(Step(s, t, call), u)
  {
  }

  lemma WriterEnters(s: State, t: Tid, call: Call, u: Tid)
    requires Before(s, t, call, u) && s.th[t].pc.Check? && !MustWait(s, s.th[t].reader) && !s.th[t].reader
    ensures After(Step(s, t, call), u)
  {
  }

  lemma ParkAll(s: State, t: Tid, call: Call, u: Tid)
    requires Before(s, t, call, u) && s.th[t].pc.Park?
    ensures AfterAll(Step(s, t, call))
  {
  }

  lemma ParkOne(s: State, t: Tid, call: Call, u: Tid)
    requires Before(s, t, call, u) && s.th[t].pc.Park?
    ensures AfterOne(Step(s, t, call), u)
  {
  }

  lemma UnlockKeeps(s: State, t: Tid, call: Call, u: Tid)
    requires Before(s, t, call, u) && s.th[t].pc.Unlock?
    ensures After(Step(s, t, call), u)
  {
  }

  lemma PostAll(s: State, t: Tid, call: Call, u: Tid)
    requires Before(s, t, call, u) && s.th[t].pc.Post?
    requires s.guard.waiters != [] ==> ThreadOk(s, s.guard.waiters[0])
    ensures AfterAll(Step(s, t, call))
  {
    if s.guard.waiters != [] {
      PopFront(s.guard.waiters);
      assert Contends(Step(s, t, call), s.guard.waiters[0]);
    }
  }

  lemma PostOne(s: State, t: Tid, call: Call, u: Tid)
    requires Before(s, t, call, u) && s.th[t].pc.Post?
    requires s.guard.waiters != [] ==> ThreadOk(s, s.guard.waiters[0])
    ensures AfterOne(Step(s, t, call), u)
  {
    if s.guard.waiters != [] {
      PopFront(s.guard.waiters);
      assert Contends(Step(s, t, call), s.guard.waiters[0]);
    }
  }

  lemma SleepAll(s: State, t: Tid, call: Call, u: Tid)
    requires Before(s, t, call, u) && s.th[t].pc.Sleep?
    ensures AfterAll(Step(s, t, call))
  {
    var s' := Step(s, t, call);
    assert forall v :: Contends(s, v) && v != t ==> Contends(s', v);
  }

  lemma SleepOne(s: State, t: Tid, call: Call, u: Tid)
    requires Before(s, t, call, u) && s.th[t].pc.Sleep?
    ensures AfterOne(Step(s, t, call), u)
  {
    var s' := Step(s, t, call);
    assert forall v :: Contends(s, v) && v != t ==> Contends(s', v);
  }

  lemma ReaderResumes(s: State, t: Tid, call: Call, u: Tid)
    requires Before(s, t, call, u) && s.th[t].pc.Resume? && s.th[t].reader
    ensures AfterAll(Step(s, t, call))
  {
  }

  lemma WriterResumes(s: State, t: Tid, call: Call, u: Tid)
    requires Before(s, t, call, u) && s.th[t].pc.Resume? && !s.th[t].reader
    ensures AfterAll(Step(s, t, call))
  {
  }

  lemma ResumeAll(s: State, t: Tid, call: Call, u: Tid)
    requires Before(s, t, call, u) && s.th[t].pc.Resume?
    ensures AfterAll(Step(s, t, call))
  {
    if s.th[t].reader { ReaderResumes(s, t, call, u); } else { WriterResumes(s, t, call, u); }
  }

  lemma ResumeOne(s: State, t: Tid, call: Call, u: Tid)
    requires Before(s, t, call, u) && s.th[t].pc.Resume?
    ensures AfterOne(Step(s, t, call), u)
  {
  }

  lemma ReaderDropsAll(s: State, t: Tid, call: Call, u: Tid)
    requires Before(s, t, call, u) && s.th[t].pc.Drop? && s.th[t].reader
    ensures AfterAll(Step(s, t, call))
  {
  }

  lemma ReaderDropsOne(s: State, t: Tid, call: Call, u: Tid)
    requires Before(s, t, call, u) && s.th[t].pc.Drop? && s.th[t].reader
    ensures AfterOne(Step(s, t, call), u)
  {
  }

  lemma WriterDropsAll(s: State, t: Tid, call: Call, u: Tid)
    requires Before(s, t, call, u) && s.th[t].pc.Drop? && !s.th[t].reader
    ensures AfterAll(Step(s, t, call))
  {
  }

  lemma WriterDropsOne(s: State, t: Tid, call: Call, u: Tid)
    requires Before(s, t, call, u) && s.th[t].pc.Drop? && !s.th[t].reader
    ensures AfterOne(Step(s, t, call), u)
  {
  }

  /** `cond_signal` wakes the front waiter and nobody else. */
  lemma CondSignalKeeps(s: State, reader: bool, u: Tid)
    requires Known(s) && CountInv(s) && u in s.th && ThreadOk(s, u)
    requires Queue(s, reader) != [] ==> ThreadOk(s, Queue(s, reader)[0])
    ensures Known(CondSignal(s, reader)) && CountInv(CondSignal(s, reader)) && ThreadOk(CondSignal(s, reader), u)
  {
    if Queue(s, reader) != [] { PopFront(Queue(s, reader)); }
  }

  lemma SignalAll(s: State, t: Tid, call: Call, u: Tid)
    requires Before(s, t, call, u) && s.th[t].pc.Signal?
    requires Queue(s, false) != [] ==> ThreadOk(s, Queue(s, false)[0])
    ensures AfterAll(Step(s, t, call))
  {
    CondSignalKeeps(s, false, t);
  }

  lemma SignalOne(s: State, t: Tid, call: Call, u: Tid)
    requires Before(s, t, call, u) && s.th[t].pc.Signal?
    requires Queue(s, false) != [] ==> ThreadOk(s, Queue(s, false)[0])
    ensures AfterOne(Step(s, t, call), u)
  {
    CondSignalKeeps(s, false, u);
    CondSignalKeeps(s, false, t);
  }

  lemma BroadcastAll(s: State, t: Tid, call: Call, u: Tid)
    requires Before(s, t, call, u) && s.th[t].pc.Broadcast? && Queue(s, true) != []
    requires ThreadOk(s, Queue(s, true)[0])
    ensures AfterAll(Step(s, t, call))
  {
    CondSignalKeeps(s, true, t);
  }

  lemma BroadcastOne(s: State, t: Tid, call: Call, u: Tid)
    requires Before(s, t, call, u) && s.th[t].pc.Broadcast? && Queue(s, true) != []
    requires ThreadOk(s, Queue(s, true)[0])
    ensures AfterOne(Step(s, t, call), u)
  {
    CondSignalKeeps(s, true, u);
    CondSignalKeeps(s, true, t);
  }

  lemma BroadcastEndsAll(s: State, t: Tid, call: Call, u: Tid)
    requires Before(s, t, call, u) && s.th[t].pc.Broadcast? && Queue(s, true) == []
    ensures AfterAll(Step(s, t, call))
  {
  }

  lemma BroadcastEndsOne(s: State, t: Tid, call: Call, u: Tid)
    requires Before(s, t, call, u) && s.th[t].pc.Broadcast? && Queue(s, true) == []
    ensures AfterOne(Step(s, t, call), u)
  {
  }

  lemma StepKeeps(s: State, t: Tid, call: Call, u: Tid)
    requires Inv(s) && Enabled(s, t, call) && u in s.th
    ensures After(Step(s, t, call), u)
  {
    QueueBound(s);
    assert Before(s, t, call, u);
    match s.th[t].pc
    case Outside => OutsideAll(s, t, call, u); OutsideOne(s, t, call, u);
    case Lock(_) => if s.guard.value > 0 { LockTakes(s, t, call, u); } else { LockSleeps(s, t, call, u); }
    case Own(_) => OwnKeeps(s, t, call, u);
    case Check => CheckKeeps(s, t, call, u);
    case Park => ParkAll(s, t, call, u); ParkOne(s, t, call, u);
    case Unlock(_) => UnlockKeeps(s, t, call, u);
    case Post(_) => PostAll(s, t, call, u); PostOne(s, t, call, u);
    case Sleep => SleepAll(s, t, call, u); SleepOne(s, t, call, u);
    case Resume => ResumeAll(s, t, call, u); ResumeOne(s, t, call, u);
    case Drop => DropKeeps(s, t, call, u);
    case Signal => SignalAll(s, t, call, u); SignalOne(s, t, call, u);
    case Broadcast =>
      if Queue(s, true) == [] {
        BroadcastEndsAll(s, t, call, u); BroadcastEndsOne(s, t, call, u);
      } else {
        BroadcastAll(s, t, call, u); BroadcastOne(s, t, call, u);
      }
  }

  lemma CheckKeeps(s: State, t: Tid, call: Call, u: Tid)
    requires Before(s, t, call, u) && s.th[t].pc.Check?
    ensures After(Step(s, t, call), u)
  {
    if MustWait(s, s.th[t].reader) {
      CheckWaitsAll(s, t, call, u);
      CheckWaitsOne(s, t, call, u);
    } else if s.th[t].reader {
      ReaderEnters(s, t, call, u);
    } else {
      WriterEnters(s, t, call, u);
    }
  }

  lemma DropKeeps(s: State, t: Tid, call: Call, u: Tid)
    requires Before(s, t, call, u) && s.th[t].pc.Drop?
    ensures After(Step(s, t, call), u)
  {
    if s.th[t].reader {
      ReaderDropsAll(s, t, call, u);
      ReaderDropsOne(s, t, call, u);
    } else {
      WriterDropsAll(s, t, call, u);
      WriterDropsOne(s, t, call, u);
    }
  }

  lemma StepThreads(s: State, t: Tid, call: Call)
    requires QueuesKnown(s) && t in s.th
    ensures Step(s, t, call).th.Keys == s.th.Keys
  {
  }

  lemma StepInv(s: State, t: Tid, call: Call)
    requires Inv(s) && Enabled(s, t, call)
    ensures Inv(Step(s, t, call))
  {
    var s' := Step(s, t, call);
    StepThreads(s, t, call);
    forall u | u in s.th ensures After(s', u) {
      StepKeeps(s, t, call, u);
    }
    assert After(s', t);
  }

  /* ---- Every run ---- */

  ghost predicate QueuesKnown(s: State) {
    (forall u <- s.rq :: u in s.th) && (forall u <- s.wq :: u in s.th)
  }

  ghost predicate Steps(s: State, s': State) {
    QueuesKnown(s) && exists t, call :: Enabled(s, t, call) && s' == Step(s, t, call)
  }

  ghost predicate IsRun(run: seq<State>) {
    && run != [] && Initial(run[0])
    && forall i: nat :: i + 1 < |run| ==> StepsAt(run, i)
  }

  ghost predicate StepsAt(run: seq<State>, i: nat) { i + 1 < |run| && Steps(run[i], run[i + 1]) }

  /** The invariant holds in every state of every interleaving. */
  lemma {:induction false} RunInv(run: seq<State>, i: nat)
    requires IsRun(run) && i < |run|
    ensures Inv(run[i])
  {
    if i == 0 {
      InitialInv(run[0]);
    } else {
      RunInv(run, i - 1);
      assert StepsAt(run, i - 1);
      var t, call :| Enabled(run[i - 1], t, call) && run[i] == Step(run[i - 1], t, call);
      StepInv(run[i - 1], t, call);
    }
  }

  ghost function WaitRegion(s: State, reader: bool): set<Tid> {
    set t | t in s.th && s.th[t].reader == reader && Waits(s.th[t].pc)
  }

  /** Exclusion over every run: the four counters are the numbers of accesses held and of threads in the
      wait regions, at most one thread writes, and nobody reads while it does. The guard has at
      most one owner, and every ASSERT about its holder is true. */
  lemma Exclusion(run: seq<State>, i: nat)
    requires IsRun(run) && i < |run|
    ensures var s := run[i];
            && s.AR == |s.readers| && s.AW == |s.writers|
            && s.WR == |WaitRegion(s, true)| && s.WW == |WaitRegion(s, false)|
            && s.AW <= 1 && (s.AW == 1 ==> s.AR == 0)
            && (forall t, u :: t in s.th && u in s.th && Inside(s.th[t].pc) && Inside(s.th[u].pc) ==> t == u)
            && (forall t <- s.th :: s.holder == Some(t) <==>
                                    Inside(s.th[t].pc) && !s.th[t].pc.Own? && !s.th[t].pc.Post?)
  {
    RunInv(run, i);
    var s := run[i];
    assert forall t <- s.th :: ThreadOk(s, t);
    assert WaitRegion(s, true) == s.rwait;
    assert WaitRegion(s, false) == s.wwait;
  }

  /** A writer that has been signalled, or was never queued, and can go on as soon as it gets the guard. */
  ghost predicate Signalled(s: State, u: Tid) {
    && u in WaitRegion(s, false) && u !in s.wq
    && (s.th[u].pc == Sleep ==> s.th[u].sema.value == 1 && !Asleep(s, u))
  }

  lemma WaitingWriterIsSignalled(s: State) returns (u: Tid)
    requires Inv(s) && s.owner == None && s.AR + s.AW == 0 && s.WW > 0
    ensures Signalled(s, u)
  {
    assert |s.wq| < s.WW;
    if forall t <- s.wwait :: t in s.wq {
      SetBound(s.wwait, s.wq);
    }
    u :| u in s.wwait && u !in s.wq;
    assert ThreadOk(s, u);
  }

  lemma {:induction false} SetBound(w: set<Tid>, q: seq<Tid>)
    requires forall t <- w :: t in q
    ensures |w| <= |q|
  {
    if q == [] {
      assert w == {};
    } else {
      assert q == [q[0]] + q[1..];
      SetBound(w - {q[0]}, q[1..]);
      assert q[0] in w ==> w == w - {q[0]} + {q[0]};
      assert q[0] !in w ==> w == w - {q[0]};
    }
  }

  /** No interleaving loses a wake-up: while the guard is free and nobody is active, a waiting writer
      has its signal; and readers queue only while a writer is active or waiting. */
  lemma NoLostWakeup(run: seq<State>, i: nat)
    requires IsRun(run) && i < |run| && run[i].guard.value == 1
    ensures var s := run[i];
            && (s.AR + s.AW == 0 && s.WW > 0 ==> exists u :: Signalled(s, u))
            && (s.AW + s.WW == 0 ==> s.rq == [])
  {
    RunInv(run, i);
    var s := run[i];
    if s.AR + s.AW == 0 && s.WW > 0 {
      var u := WaitingWriterIsSignalled(s);
    }
  }

  ghost predicate Busy(s: State, t: Tid) {
    t in s.th && s.th[t].pc != Outside
  }

  /** Waiters are never all asleep while nobody is active. */
  lemma NeverAllAsleep(run: seq<State>, i: nat, t: Tid)
    requires IsRun(run) && i < |run| && run[i].AR + run[i].AW == 0
    requires Busy(run[i], t)
    ensures exists u :: Busy(run[i], u) && !Asleep(run[i], u)
  {
    RunInv(run, i);
    var s := run[i];
    assert ThreadOk(s, t);
    if s.owner.Some? {
      var u := s.owner.value;
      assert ThreadOk(s, u);
      assert Busy(s, u) && !Asleep(s, u);
    } else if s.guard.waiters != [] {
      var u :| Contends(s, u);
      assert Busy(s, u) && !Asleep(s, u);
    } else if Asleep(s, t) {
      assert t in s.rq || t in s.wq;
      SubsetBound(s.wq, s.wwait);
      var u := WaitingWriterIsSignalled(s);
      assert ThreadOk(s, u);
      assert Busy(s, u) && !Asleep(s, u);
    }
  }

  /** `t` has released exactly the front waiter of a condition queue, for good: that thread will not sleep in its wait
      even if it has not reached `sema_down` yet, and the others keep their place. */
  ghost predicate FrontReleased(s: State, s': State, reader: bool)
    requires Queue(s, reader) != []
  {
    var front := Queue(s, reader)[0];
    && Queue(s', reader) == Queue(s, reader)[1..] && Queue(s', !reader) == Queue(s, !reader)
    && front in s.th && s'.th.Keys == s.th.Keys
    && s'.th[front].sema == Semaphore(1, []) && !Asleep(s', front)
    && (forall u <- s.th :: u != front ==> s'.th[u].sema == s.th[u].sema)
    && (s'.th[front].pc == Sleep ==> StepSleep(s', front).th[front].pc == Lock(Rewait))
  }

  /** `cond_signal` on the write queue. */
  lemma SignalReleasesFront(s: State, t: Tid, call: Call)
    requires Inv(s) && Enabled(s, t, call) && s.th[t].pc == Signal && s.wq != []
    ensures FrontReleased(s, Step(s, t, call), false)
  {
    assert ThreadOk(s, s.wq[0]);
    assert ThreadOk(s, t);
  }

  /** Each signal of `cond_broadcast` on the read queue. */
  lemma BroadcastReleasesFront(s: State, t: Tid, call: Call)
    requires Inv(s) && Enabled(s, t, call) && s.th[t].pc == Broadcast && s.rq != []
    ensures FrontReleased(s, Step(s, t, call), true)
  {
    assert ThreadOk(s, s.rq[0]);
    assert ThreadOk(s, t);
  }

  /** Both condition queues are first-in first-out: a step appends the stepping thread or removes
      the front. */
  lemma QueuesAreFifo(s: State, t: Tid, call: Call)
    requires Inv(s) && Enabled(s, t, call)
    ensures var q, q' := s.wq, Step(s, t, call).wq; q' == q || q' == q + [t] || (q != [] && q' == q[1..])
    ensures var q, q' := s.rq, Step(s, t, call).rq; q' == q || q' == q + [t] || (q != [] && q' == q[1..])
  {
  }

  /* ---- Who is let in, and what a call amounts to ---- */

  /** What stands in the way of a reader is an active or a waiting writer; of a writer, anybody active. */
  ghost predicate Blocked(s: State, reader: bool) {
    if reader then s.writers != multiset{} || WaitRegion(s, false) != {}
    else s.readers != multiset{} || s.writers != multiset{}
  }

  lemma EmptyCount(m: multiset<Tid>)
    ensures |m| == 0 <==> m == multiset{}
  {
    if m != multiset{} {
      var t :| t in m;
      assert m[t] > 0 && multiset{t} <= m;
      assert m == multiset{t} + (m - multiset{t});
    }
  }

  lemma EmptySet(w: set<Tid>)
    ensures |w| == 0 <==> w == {}
  {
  }

  /** The test of the acquire loop. */
  lemma MustWaitIff(s: State, reader: bool)
    requires Inv(s)
    ensures MustWait(s, reader) <==> Blocked(s, reader)
  {
    EmptyCount(s.readers);
    EmptyCount(s.writers);
    EmptySet(s.wwait);
    assert forall t <- s.th :: ThreadOk(s, t);
    assert WaitRegion(s, false) == s.wwait;
  }

  /** The accesses of one kind. */
  ghost function Accesses(s: State, reader: bool): multiset<Tid> { if reader then s.readers else s.writers }

  /** A step changes accesses only where an acquiring thread is let in or a releasing one leaves. */
  lemma AccessStep(s: State, t: Tid, call: Call, reader: bool)
    requires QueuesKnown(s) && t in s.th
    ensures var a, a' := Accesses(s, reader), Accesses(Step(s, t, call), reader);
            a' == if s.th[t].reader != reader then a
                  else if s.th[t].pc == Check && !MustWait(s, reader) then a + multiset{t}
                  else if s.th[t].pc == Drop then a - multiset{t}
                  else a
  {
  }

  /** Writers first, over every run: a reader is let in only while no writer is active or waiting, a writer only while
      nobody is active; and at the test of the acquire loop a thread goes on to wait exactly if somebody of these is
      there, and is let in otherwise. */
  lemma WritersFirst(run: seq<State>, i: nat, t: Tid)
    requires IsRun(run) && i + 1 < |run| && t in run[i].th
    ensures var s, s' := run[i], run[i + 1];
            && t in s'.th
            && (s'.readers[t] > s.readers[t] ==>
                  s.writers == multiset{} && WaitRegion(s, false) == {} && s'.readers == s.readers + multiset{t})
            && (s'.writers[t] > s.writers[t] ==>
                  s.readers == s.writers == multiset{} && s'.writers == multiset{t})
            && (s.th[t].pc == Check && s'.th[t].pc != Check ==>
                  var reader := s.th[t].reader;
                  && (s'.th[t].pc == Park <==> Blocked(s, reader))
                  && Accesses(s', reader)
                     == Accesses(s, reader) + if Blocked(s, reader) then multiset{} else multiset{t})
  {
    RunInv(run, i);
    var s, s' := run[i], run[i + 1];
    assert StepsAt(run, i);
    var u, call :| Enabled(s, u, call) && s' == Step(s, u, call);
    MustWaitIff(s, true);
    MustWaitIff(s, false);
    AccessStep(s, u, call, true);
    AccessStep(s, u, call, false);
    if u == t {
      OwnThread(s, t, call);
    } else {
      OtherThread(s, u, call, t);
    }
  }

  /** Who is woken, over every run: a thread that drops its access signals a writer exactly if one waits and nobody is
      left active, and broadcasts to the readers exactly if it was the writer, no writer waits, and readers do. */
  lemma WhoIsWoken(run: seq<State>, i: nat, t: Tid)
    requires IsRun(run) && i + 1 < |run| && t in run[i].th && run[i].th[t].pc == Drop
    ensures var s, s' := run[i], run[i + 1];
            && t in s'.th
            && (s'.th[t].pc != Drop ==>
                  && (s'.th[t].pc == Signal <==>
                        WaitRegion(s, false) != {} && s'.readers == s'.writers == multiset{})
                  && (s'.th[t].pc == Broadcast <==>
                        !s.th[t].reader && WaitRegion(s, false) == {} && WaitRegion(s, true) != {}))
  {
    RunInv(run, i);
    var s, s' := run[i], run[i + 1];
    assert StepsAt(run, i);
    var u, call :| Enabled(s, u, call) && s' == Step(s, u, call);
    if u == t {
      DropWakes(s, t, call);
    } else {
      OtherThread(s, u, call, t);
    }
  }

  lemma DropWakes(s: State, t: Tid, call: Call)
    requires Inv(s) && t in s.th && s.th[t].pc == Drop
    ensures var s' := Step(s, t, call);
            && (s'.th[t].pc == Signal <==> WaitRegion(s, false) != {} && s'.readers == s'.writers == multiset{})
            && (s'.th[t].pc == Broadcast <==>
                  !s.th[t].reader && WaitRegion(s, false) == {} && WaitRegion(s, true) != {})
  {
    var s' := StepDrop(s, t);
    WaitCounts(s);
    DropCounts(s, t);
    EmptyCount(s'.readers);
    EmptyCount(s'.writers);
    DropNext(s, t);
  }

  /** WR and WW count the wait regions. */
  lemma WaitCounts(s: State)
    requires Inv(s)
    ensures (s.WW > 0 <==> WaitRegion(s, false) != {}) && (s.WR > 0 <==> WaitRegion(s, true) != {})
  {
    assert forall u <- s.th :: ThreadOk(s, u);
    assert WaitRegion(s, false) == s.wwait && WaitRegion(s, true) == s.rwait;
    EmptySet(s.wwait);
    EmptySet(s.rwait);
  }

  lemma DropNext(s: State, t: Tid)
    requires t in s.th
    ensures var s' := StepDrop(s, t);
            && t in s'.th
            && (s.th[t].reader ==> (s'.th[t].pc == Signal <==> s'.AR == 0 && s.WW > 0) && s'.th[t].pc != Broadcast)
            && (!s.th[t].reader ==> (s'.th[t].pc == Signal <==> s.WW > 0))
            && (!s.th[t].reader ==> (s'.th[t].pc == Broadcast <==> s.WW <= 0 && s.WR > 0))
  {
  }

  lemma DropCounts(s: State, t: Tid)
    requires Inv(s) && t in s.th && s.th[t].pc == Drop
    ensures var s' := StepDrop(s, t);
            && s'.AR == |s'.readers| && s'.AW == |s'.writers| && s'.AW == 0 && (!s.th[t].reader ==> s'.AR == 0)
            && s.WW == |s.wwait| && s.WR == |s.rwait|
  {
    assert ThreadOk(s, t);
  }

  /** A step of one thread moves no other thread. */
  lemma OtherThread(s: State, u: Tid, call: Call, t: Tid)
    requires QueuesKnown(s) && u in s.th && t in s.th && t != u
    ensures var s' := Step(s, u, call);
            t in s'.th && s'.th[t].pc == s.th[t].pc && s'.th[t].reader == s.th[t].reader
  {
    if s.th[u].pc.Signal? || s.th[u].pc.Broadcast? {
      SignalMoves(s, s.th[u].pc.Broadcast?, t);
    } else {
      OnlyOwn(s, u, call, t);
    }
  }

  lemma SignalMoves(s: State, reader: bool, t: Tid)
    requires QueuesKnown(s) && t in s.th
    ensures var s' := CondSignal(s, reader);
            t in s'.th && s'.th[t].pc == s.th[t].pc && s'.th[t].reader == s.th[t].reader
  {
  }

  lemma OnlyOwn(s: State, u: Tid, call: Call, t: Tid)
    requires QueuesKnown(s) && u in s.th && !s.th[u].pc.Signal? && !s.th[u].pc.Broadcast? && t in s.th && t != u
    ensures var s' := Step(s, u, call); t in s'.th && s'.th[t] == s.th[t]
  {
  }

  /** Where a thread can go from `pc`. */
  predicate PcNext(pc: PC, call: Call, pc': PC) {
    match pc
    case Outside => pc' == Lock(if call.Acquire? then Enter else Leave)
    case Lock(g) => pc' == pc || pc' == Own(g)
    case Own(g) => pc' == if g == Enter then Check else if g == Rewait then Resume else Drop
    case Check => pc' == Park || pc' == Unlock(Entered)
    case Park => pc' == Unlock(Waiting)
    case Unlock(k) => pc' == Post(k)
    case Post(k) => pc' == if k == Waiting then Sleep else Outside
    case Sleep => pc' == Sleep || pc' == Lock(Rewait)
    case Resume => pc' == Check
    case Drop => pc' == Signal || pc' == Broadcast || pc' == Unlock(Left)
    case Signal => pc' == Unlock(Left)
    case Broadcast => pc' == Broadcast || pc' == Unlock(Left)
  }

  lemma OwnThread(s: State, t: Tid, call: Call)
    requires QueuesKnown(s) && t in s.th
    ensures var s' := Step(s, t, call);
            && t in s'.th && PcNext(s.th[t].pc, call, s'.th[t].pc)
            && s'.th[t].reader == (if s.th[t].pc == Outside then call.reader else s.th[t].reader)
            && (s.th[t].pc == Check ==> (s'.th[t].pc == Park <==> MustWait(s, s.th[t].reader)))
  {
  }

  /** Inside `call`, which a thread made when it had `before` accesses of that kind: acquiring, it has one more once it
      is let in; releasing, it has one less once it has dropped it. */
  ghost predicate InCallAt(pc: PC, call: Call, now: int, before: int) {
    match call
    case Acquire(_) =>
      if pc == Unlock(Entered) || pc == Post(Entered) then now == before + 1
      else now == before && (pc == Lock(Enter) || pc == Own(Enter) || pc == Check || Waits(pc))
    case Release(_) =>
      if pc == Signal || pc == Broadcast || pc == Unlock(Left) || pc == Post(Left) then now == before - 1
      else now == before && Leaving(pc)
  }

  /** Outside again, with one access of the kind more or less. */
  ghost predicate ReturnedAt(pc: PC, call: Call, now: int, before: int) {
    pc == Outside && now == if call.Acquire? then before + 1 else before - 1
  }

  /** Thread `t` is inside its call, and has as many accesses of the other kind as when it made it. */
  ghost predicate InCall(s: State, t: Tid, call: Call, before: nat, other: nat) {
    && t in s.th && s.th[t].reader == call.reader && Accesses(s, !call.reader)[t] == other
    && InCallAt(s.th[t].pc, call, Accesses(s, call.reader)[t], before)
  }

  ghost predicate Returned(s: State, t: Tid, call: Call, before: nat, other: nat) {
    && t in s.th && Accesses(s, !call.reader)[t] == other
    && ReturnedAt(s.th[t].pc, call, Accesses(s, call.reader)[t], before)
  }

  /** How many accesses a move of its thread gains. */
  function Gained(pc: PC, pc': PC): int {
    if pc == Check && pc' != Park then 1 else if pc == Drop then -1 else 0
  }

  lemma CallMove(pc: PC, c: Call, pc': PC, call: Call, now: int, before: int)
    requires InCallAt(pc, call, now, before) && PcNext(pc, c, pc')
    ensures InCallAt(pc', call, now + Gained(pc, pc'), before) || ReturnedAt(pc', call, now + Gained(pc, pc'), before)
  {
  }

  /** A step of thread `t` itself, as far as its own accesses go. */
  ghost predicate Moved(s: State, s': State, t: Tid, c: Call) {
    && t in s.th && t in s'.th && PcNext(s.th[t].pc, c, s'.th[t].pc)
    && (s.th[t].pc == Outside || s'.th[t].reader == s.th[t].reader)
    && Accesses(s', s.th[t].reader)[t] == Accesses(s, s.th[t].reader)[t] + Gained(s.th[t].pc, s'.th[t].pc)
    && Accesses(s', !s.th[t].reader)[t] == Accesses(s, !s.th[t].reader)[t]
  }

  lemma OwnMoves(s: State, t: Tid, c: Call)
    requires QueuesKnown(s) && t in s.th && (s.th[t].pc == Drop ==> t in Accesses(s, s.th[t].reader))
    ensures Moved(s, Step(s, t, c), t, c)
  {
    OwnThread(s, t, c);
    AccessStep(s, t, c, true);
    AccessStep(s, t, c, false);
  }

  lemma CallBegins(s: State, t: Tid, call: Call)
    requires QueuesKnown(s) && t in s.th && s.th[t].pc == Outside
    ensures InCall(Step(s, t, call), t, call, Accesses(s, call.reader)[t], Accesses(s, !call.reader)[t])
  {
    OwnThread(s, t, call);
    AccessStep(s, t, call, true);
    AccessStep(s, t, call, false);
  }

  lemma CallMoves(s: State, s': State, t: Tid, c: Call, call: Call, before: nat, other: nat)
    requires Moved(s, s', t, c) && InCall(s, t, call, before, other)
    ensures InCall(s', t, call, before, other) || Returned(s', t, call, before, other)
  {
    CallMove(s.th[t].pc, c, s'.th[t].pc, call, Accesses(s, call.reader)[t], before);
  }

  /** A step of another thread, as far as thread `t` goes. */
  ghost predicate Untouched(s: State, s': State, t: Tid) {
    && t in s.th && t in s'.th && s'.th[t].pc == s.th[t].pc && s'.th[t].reader == s.th[t].reader
    && s'.readers[t] == s.readers[t] && s'.writers[t] == s.writers[t]
  }

  lemma OtherMoves(s: State, u: Tid, c: Call, t: Tid)
    requires QueuesKnown(s) && u in s.th && t in s.th && t != u
    ensures Untouched(s, Step(s, u, c), t)
  {
    OtherThread(s, u, c, t);
    AccessStep(s, u, c, true);
    AccessStep(s, u, c, false);
  }

  lemma DropHas(s: State, t: Tid)
    requires Inv(s) && t in s.th
    ensures QueuesKnown(s) && (s.th[t].pc == Drop ==> t in Accesses(s, s.th[t].reader))
  {
    assert ThreadOk(s, t);
  }

  /** A step, seen by thread `t`. */
  lemma SeenBy(s: State, s': State, t: Tid)
    requires Inv(s) && Steps(s, s') && t in s.th
    ensures Untouched(s, s', t) || exists c :: Moved(s, s', t, c)
  {
    var u, c :| Enabled(s, u, c) && s' == Step(s, u, c);
    DropHas(s, t);
    if u == t { OwnMoves(s, t, c); } else { OtherMoves(s, u, c, t); }
  }

  lemma CallStep(s: State, s': State, t: Tid, call: Call, before: nat, other: nat)
    requires (Untouched(s, s', t) || exists c :: Moved(s, s', t, c)) && InCall(s, t, call, before, other)
    ensures InCall(s', t, call, before, other) || Returned(s', t, call, before, other)
  {
    if !Untouched(s, s', t) {
      var c :| Moved(s, s', t, c);
      CallMoves(s, s', t, c, call, before, other);
    }
  }

  /** Thread `t` makes `call`. */
  ghost predicate Makes(s: State, s': State, t: Tid, call: Call) {
    QueuesKnown(s) && Enabled(s, t, call) && s.th[t].pc == Outside && s' == Step(s, t, call)
  }

  /** Thread `t` is inside its call, or has returned from it. */
  ghost predicate Called(run: seq<State>, m: nat, t: Tid, call: Call, before: nat, other: nat) {
    m < |run| && (InCall(run[m], t, call, before, other) || Returned(run[m], t, call, before, other))
  }

  lemma CalledNext(run: seq<State>, m: nat, t: Tid, call: Call, before: nat, other: nat)
    requires IsRun(run) && m + 1 < |run| && Called(run, m, t, call, before, other)
    requires t in run[m].th && run[m].th[t].pc != Outside
    ensures Called(run, m + 1, t, call, before, other)
  {
    RunInv(run, m);
    assert StepsAt(run, m);
    SeenBy(run[m], run[m + 1], t);
    CallStep(run[m], run[m + 1], t, call, before, other);
  }

  lemma CalledFirst(run: seq<State>, i: nat, t: Tid, call: Call)
    requires i + 1 < |run| && Makes(run[i], run[i + 1], t, call)
    ensures Called(run, i + 1, t, call, Accesses(run[i], call.reader)[t], Accesses(run[i], !call.reader)[t])
  {
    CallBegins(run[i], t, call);
  }

  lemma {:induction false} CalledThrough(run: seq<State>, i: nat, j: nat, t: Tid, call: Call, before: nat, other: nat)
    requires IsRun(run) && i <= j < |run| && Called(run, i, t, call, before, other)
    requires forall m: nat :: i <= m < j ==> t in run[m].th && run[m].th[t].pc != Outside
    ensures Called(run, j, t, call, before, other)
    decreases j
  {
    if i < j {
      CalledThrough(run, i, j - 1, t, call, before, other);
      CalledNext(run, j - 1, t, call, before, other);
    }
  }

  lemma CalledOutside(run: seq<State>, j: nat, t: Tid, call: Call, before: nat, other: nat)
    requires Called(run, j, t, call, before, other) && t in run[j].th && run[j].th[t].pc == Outside
    ensures Returned(run[j], t, call, before, other)
  {
  }

  /** Over every run: a thread that made a call at state `i` and is outside again for the first time at state `j` has
      gained exactly one access of its kind, if it acquired, and lost exactly one, if it released; of the other kind it
      has as many as before. On the way it has gained or lost it already, or not yet. */
  lemma CallsAreAccesses(run: seq<State>, i: nat, j: nat, t: Tid, call: Call)
    requires IsRun(run) && i < j < |run| && Makes(run[i], run[i + 1], t, call)
    requires forall m: nat :: i < m < j ==> t in run[m].th && run[m].th[t].pc != Outside
    ensures Called(run, j, t, call, Accesses(run[i], call.reader)[t], Accesses(run[i], !call.reader)[t])
    ensures t in run[j].th && run[j].th[t].pc == Outside ==>
              Returned(run[j], t, call, Accesses(run[i], call.reader)[t], Accesses(run[i], !call.reader)[t])
  {
    var before, other := Accesses(run[i], call.reader)[t], Accesses(run[i], !call.reader)[t];
    CalledFirst(run, i, t, call);
    CalledThrough(run, i + 1, j, t, call, before, other);
    if t in run[j].th && run[j].th[t].pc == Outside {
      CalledOutside(run, j, t, call, before, other);
    }
  }

  /** No call is refused: a thread outside the lock may acquire it either way, and release any access that it has; and
      inside, a thread can go on unless it is in the wait list of the guard, or of its own semaphore with no unit in
      it. */
  lemma NothingIsRefused(s: State, t: Tid, call: Call)
    requires Inv(s) && t in s.th
    ensures s.th[t].pc == Outside && (call.Release? ==> t in Accesses(s, call.reader)) ==> Enabled(s, t, call)
    ensures s.th[t].pc != Outside && !Enabled(s, t, call) ==>
              t in s.guard.waiters || (t in s.th[t].sema.waiters && s.th[t].sema.value == 0)
  {
    assert ThreadOk(s, t);
  }
}
