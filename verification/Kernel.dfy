/** The FIFO scheduler and its semaphores (proj-pregame/src/threads/thread.c and synch.c) as a step system.

    Interrupts are off while a thread blocks, yields, exits, unblocks another or touches a semaphore, so each of
    these is one step. Creating a thread takes two: its page is set up, blocked and on no list, and it is unblocked
    later. A thread that was blocked in `sema_down` is resumed with interrupts off and makes its next pass before
    anything else can happen. */
module Kernel {
  import opened Basics
  import opened Semaphores

  datatype Status = Running | Ready | Blocked | Dying

  type Sid = nat

  /** A semaphore with its history: initial value, completed ups and downs, and the threads that an
      up has woken and that have not made their next pass yet. */
  datatype Sema = Sema(sema: Semaphore, init: nat, ups: nat, downs: nat, woken: set<Tid>)

  /** A thread is named by its page. `downing` gives the semaphore of a thread inside `sema_down`;
      `allocs` and `frees` record the pages that `thread_create` took and `thread_switch_tail` gave back. */
  datatype State = State(
    status: map<Tid, Status>, ready: seq<Tid>, current: Tid, idle: Tid, initial: Tid,
    semas: map<Sid, Sema>, downing: map<Tid, Sid>,
    allocs: multiset<Tid>, frees: multiset<Tid>)

  datatype Action =
    | Allocate(t: Tid) | Unblock(t: Tid) | Block | Yield | Exit | IdleBlock
    | SemaInit(s: Sid, value: nat) | Down(s: Sid) | TryDown(s: Sid) | Recheck | Raise(s: Sid)

  /** The kernel just after `thread_start`: the initial thread runs and the idle thread is blocked. */
  ghost predicate Initial(k: State) {
    && k.initial != k.idle && k.current == k.initial
    && k.status == map[k.initial := Running, k.idle := Blocked]
    && k.ready == [] && k.semas == map[] && k.downing == map[]
    && k.allocs == multiset{k.idle} && k.frees == multiset{}
  }

  /* ---- Steps ---- */

  /** `thread_schedule_fifo`. */
  function NextToRun(k: State): Tid {
    if k.ready != [] then k.ready[0] else k.idle
  }

  /** `schedule` and `thread_switch_tail`: the next thread runs, and the page of a dying thread that was switched
      away from is freed, unless it is the initial thread's. */
  function Schedule(k: State): State
    requires k.current in k.status && k.status[k.current] != Running
  {
    var next := NextToRun(k);
    var k1 := k.(current := next, status := k.status[next := Running],
                 ready := if k.ready != [] then k.ready[1..] else []);
    if k.current != next && k.status[k.current] == Dying && k.current != k.initial then
      k1.(status := k1.status - {k.current}, frees := k.frees + multiset{k.current})
    else k1
  }

  /** The current thread takes `status` and gives up the processor. */
  function Leave(k: State, status: Status): State
    requires k.current in k.status && status != Running
  {
    Schedule(k.(status := k.status[k.current := status]))
  }

  /** A pass of the current thread through the loop of `sema_down`. */
  function Pass(k: State, s: Sid): State
    requires s in k.semas && k.current in k.status
  {
    var q := k.semas[s];
    var q1 := q.(sema := DownPass(q.sema, k.current), woken := q.woken - {k.current});
    if q.sema.value > 0 then
      k.(semas := k.semas[s := q1.(downs := q.downs + 1)], downing := k.downing - {k.current})
    else
      Leave(k.(semas := k.semas[s := q1], downing := k.downing[k.current := s]), Blocked)
  }

  /** `sema_up`, by the current thread or by an interrupt handler. */
  function RaiseSema(k: State, s: Sid): State
    requires s in k.semas
  {
    var q := k.semas[s];
    var q1 := q.(sema := Up(q.sema), ups := q.ups + 1);
    match Woken(q.sema)
    case None => k.(semas := k.semas[s := q1])
    case Some(t) =>
      k.(semas := k.semas[s := q1.(woken := q.woken + {t})],
         status := k.status[t := Ready], ready := k.ready + [t])
  }

  ghost predicate Enabled(k: State, a: Action) {
    && k.current in k.status
    && (k.current in k.downing ==> a == Recheck)
    && match a
       case Allocate(t) => t !in k.status
       // A thread on a wait list is woken by `sema_up` only.
       case Unblock(t) => t in k.status && k.status[t] == Blocked && t !in k.downing && t != k.idle
       case Block => k.current != k.idle
       case Yield => true
       case Exit => k.current != k.idle
       case IdleBlock => k.current == k.idle
       case SemaInit(s, _) => s !in k.semas
       case Down(s) => s in k.semas && k.current != k.idle
       case TryDown(s) => s in k.semas
       case Recheck => k.current in k.downing && k.downing[k.current] in k.semas
       case Raise(s) => s in k.semas
  }

  function Step(k: State, a: Action): State
    requires Enabled(k, a)
  {
    match a
    case Allocate(t) => k.(status := k.status[t := Blocked], allocs := k.allocs + multiset{t})
    case Unblock(t) => k.(status := k.status[t := Ready], ready := k.ready + [t])
    case Block => Leave(k, Blocked)
    case Yield => Leave(if k.current != k.idle then k.(ready := k.ready + [k.current]) else k, Ready)
    case Exit => Leave(k, Dying)
    case IdleBlock => Leave(k, Blocked)
    case SemaInit(s, v) => k.(semas := k.semas[s := Sema(Semaphore(v, []), v, 0, 0, {})])
    case Down(s) => Pass(k, s)
    case TryDown(s) =>
      var q := k.semas[s];
      if q.sema.value > 0
      then k.(semas := k.semas[s := q.(sema := q.sema.(value := q.sema.value - 1), downs := q.downs + 1)])
      else k
    case Recheck => Pass(k, k.downing[k.current])
    case Raise(s) => RaiseSema(k, s)
  }

  /* ---- The invariant ---- */

  ghost predicate OnSema(k: State, t: Tid, s: Sid) {
    t in k.downing && k.downing[t] == s
  }

  /** What holds of one page `t` when thread `running` runs (nobody, in the middle of a switch). */
  ghost predicate PageOk(k: State, t: Tid, running: Option<Tid>) {
    && (t in k.status ==>
          && (k.status[t] == Running <==> running == Some(t))
          && (k.status[t] == Dying ==> t == k.initial || (running == None && t == k.current)))
    && (t in k.ready <==> t in k.status && k.status[t] == Ready && t != k.idle)
    && (t in k.downing ==>
          && t in k.status && t != k.idle && k.downing[t] in k.semas && k.status[t] != Dying
          && (k.status[t] == Blocked <==> t in k.semas[k.downing[t]].sema.waiters)
          && (k.status[t] != Blocked <==> t in k.semas[k.downing[t]].woken))
    && (t != k.initial ==> k.allocs[t] == k.frees[t] + (if t in k.status then 1 else 0))
    && (t == k.initial ==> k.allocs[t] == k.frees[t] == 0)
  }

  ghost predicate ThreadOk(k: State, t: Tid) {
    PageOk(k, t, Some(k.current))
  }

  ghost predicate SemaOk(k: State, s: Sid) requires s in k.semas {
    var q := k.semas[s];
    && Distinct(q.sema.waiters)
    && q.sema.value + q.downs == q.init + q.ups
    && (q.sema.waiters != [] ==> q.sema.value <= |q.woken|)
  }

  /** Only a thread inside `sema_down` of `s` waits on `s`. */
  ghost predicate LinkOk(k: State, t: Tid, s: Sid) requires s in k.semas {
    t in k.semas[s].sema.waiters || t in k.semas[s].woken ==> OnSema(k, t, s)
  }

  ghost predicate Global(k: State) {
    && k.current in k.status && k.idle in k.status && k.initial in k.status && k.idle != k.initial
    && Distinct(k.ready)
  }

  ghost predicate Inv(k: State) {
    && Global(k)
    && (forall t :: ThreadOk(k, t))
    && (forall s <- k.semas :: SemaOk(k, s))
    && (forall t: Tid, s: Sid | s in k.semas :: LinkOk(k, t, s))
  }

  lemma InitialInv(k: State)
    requires Initial(k)
    ensures Inv(k)
  {
  }

  /* ---- Every step keeps the invariant ---- */

  /** A switch: `u` is any page. */
  lemma ScheduleKeeps(k: State, u: Tid)
    requires Global(k) && k.status[k.current] != Running && NextToRun(k) in k.status
    requires k.current == k.idle ==> k.status[k.current] != Dying
    requires PageOk(k, u, None) && PageOk(k, k.current, None) && PageOk(k, NextToRun(k), None)
    ensures Global(Schedule(k)) && ThreadOk(Schedule(k), u)
  {
    if k.ready != [] { PopFront(k.ready); }
  }

  /** What a step needs to know to be right about page `u`. */
  ghost predicate Before(k: State, u: Tid) {
    Global(k) && ThreadOk(k, u) && ThreadOk(k, k.current) && ThreadOk(k, k.idle) && NextToRun(k) in k.status
    && ThreadOk(k, NextToRun(k))
  }

  ghost predicate After(k: State, u: Tid) {
    Global(k) && ThreadOk(k, u)
  }

  lemma AllocateKeeps(k: State, t: Tid, u: Tid)
    requires Before(k, u) && Enabled(k, Allocate(t)) && ThreadOk(k, t)
    ensures After(Step(k, Allocate(t)), u)
  {
  }

  lemma UnblockKeeps(k: State, t: Tid, u: Tid)
    requires Before(k, u) && Enabled(k, Unblock(t)) && ThreadOk(k, t)
    ensures After(Step(k, Unblock(t)), u)
  {
  }

  lemma BlockKeeps(k: State, u: Tid)
    requires Before(k, u) && Enabled(k, Block)
    ensures After(Step(k, Block), u)
  {
    ScheduleKeeps(k.(status := k.status[k.current := Blocked]), u);
  }

  lemma YieldKeeps(k: State, u: Tid)
    requires Before(k, u) && Enabled(k, Yield)
    ensures After(Step(k, Yield), u)
  {
    var k1 := if k.current != k.idle then k.(ready := k.ready + [k.current]) else k;
    ScheduleKeeps(k1.(status := k.status[k.current := Ready]), u);
  }

  lemma ExitKeeps(k: State, u: Tid)
    requires Before(k, u) && Enabled(k, Exit)
    ensures After(Step(k, Exit), u)
  {
    ScheduleKeeps(k.(status := k.status[k.current := Dying]), u);
  }

  lemma IdleBlockKeeps(k: State, u: Tid)
    requires Before(k, u) && Enabled(k, IdleBlock)
    ensures After(Step(k, IdleBlock), u)
  {
    ScheduleKeeps(k.(status := k.status[k.current := Blocked]), u);
  }

  lemma PassTakes(k: State, s: Sid, u: Tid)
    requires Before(k, u) && s in k.semas && k.semas[s].sema.value > 0 && k.current != k.idle
    requires LinkOk(k, u, s) && LinkOk(k, k.current, s) && (k.current in k.downing ==> k.downing[k.current] == s)
    ensures After(Pass(k, s), u)
  {
  }

  lemma PassBlocks(k: State, s: Sid, u: Tid)
    requires Before(k, u) && s in k.semas && k.semas[s].sema.value == 0 && k.current != k.idle
    requires LinkOk(k, u, s) && LinkOk(k, k.current, s) && (k.current in k.downing ==> k.downing[k.current] == s)
    ensures After(Pass(k, s), u)
  {
    var q := k.semas[s];
    var q1 := q.(sema := DownPass(q.sema, k.current), woken := q.woken - {k.current});
    var k1 := k.(semas := k.semas[s := q1], downing := k.downing[k.current := s],
                 status := k.status[k.current := Blocked]);
    assert PageOk(k1, k.current, None);
    assert PageOk(k1, u, None);
    assert PageOk(k1, NextToRun(k1), None);
    ScheduleKeeps(k1, u);
  }

  lemma RaiseKeeps(k: State, s: Sid, u: Tid)
    requires Before(k, u) && s in k.semas && SemaOk(k, s)
    requires LinkOk(k, u, s)
    requires k.semas[s].sema.waiters != [] ==>
               LinkOk(k, k.semas[s].sema.waiters[0], s) && ThreadOk(k, k.semas[s].sema.waiters[0])
    ensures After(RaiseSema(k, s), u)
  {
    if k.semas[s].sema.waiters != [] { PopFront(k.semas[s].sema.waiters); }
  }

  lemma BeforeOf(k: State, u: Tid)
    requires Inv(k)
    ensures Before(k, u)
  {
    assert ThreadOk(k, NextToRun(k));
  }

  lemma PassPage(k: State, s: Sid, u: Tid)
    requires Inv(k) && s in k.semas && k.current != k.idle && (k.current in k.downing ==> k.downing[k.current] == s)
    ensures After(Pass(k, s), u)
  {
    BeforeOf(k, u);
    assert LinkOk(k, u, s) && LinkOk(k, k.current, s);
    if k.semas[s].sema.value > 0 { PassTakes(k, s, u); } else { PassBlocks(k, s, u); }
  }

  lemma RaisePage(k: State, s: Sid, u: Tid)
    requires Inv(k) && s in k.semas
    ensures After(RaiseSema(k, s), u)
  {
    BeforeOf(k, u);
    assert LinkOk(k, u, s);
    if k.semas[s].sema.waiters != [] {
      assert LinkOk(k, k.semas[s].sema.waiters[0], s);
    }
    RaiseKeeps(k, s, u);
  }

  lemma StepPage(k: State, a: Action, u: Tid)
    requires Inv(k) && Enabled(k, a)
    ensures After(Step(k, a), u)
  {
    BeforeOf(k, u);
    match a
    case Allocate(t) => AllocateKeeps(k, t, u);
    case Unblock(t) => UnblockKeeps(k, t, u);
    case Block => BlockKeeps(k, u);
    case Yield => YieldKeeps(k, u);
    case Exit => ExitKeeps(k, u);
    case IdleBlock => IdleBlockKeeps(k, u);
    case SemaInit(s, _) => QuietPage(k, a, u);
    case Down(s) => PassPage(k, s, u);
    case TryDown(s) => QuietPage(k, a, u);
    case Recheck => assert ThreadOk(k, k.current); PassPage(k, k.downing[k.current], u);
    case Raise(s) => RaisePage(k, s, u);
  }

  lemma QuietPage(k: State, a: Action, u: Tid)
    requires Before(k, u) && Enabled(k, a) && (a.SemaInit? || a.TryDown?)
    ensures After(Step(k, a), u)
  {
  }

  /** A pass of `sema_down` on `s`, seen by semaphore `q` and page `t`. */
  lemma PassSema(k: State, s: Sid, q: Sid, t: Tid)
    requires Global(k) && ThreadOk(k, k.current) && s in k.semas
             && (k.current in k.downing ==> k.downing[k.current] == s)
    requires q in k.semas && SemaOk(k, q) && LinkOk(k, t, q) && LinkOk(k, k.current, q) && ThreadOk(k, t)
    ensures SemaOk(Pass(k, s), q) && LinkOk(Pass(k, s), t, q)
  {
  }

  /** `sema_up` on `s`, seen by semaphore `q` and page `t`. */
  lemma RaiseSemaOk(k: State, s: Sid, q: Sid, t: Tid)
    requires Global(k) && s in k.semas && SemaOk(k, s)
    requires q in k.semas && SemaOk(k, q) && LinkOk(k, t, q) && ThreadOk(k, t)
    requires forall u <- k.semas[s].sema.waiters :: LinkOk(k, u, s) && ThreadOk(k, u)
    ensures SemaOk(RaiseSema(k, s), q) && LinkOk(RaiseSema(k, s), t, q)
  {
    if k.semas[s].sema.waiters != [] {
      var front := k.semas[s].sema.waiters[0];
      assert LinkOk(k, front, s) && ThreadOk(k, front);
      PopFront(k.semas[s].sema.waiters);
    }
  }

  /** The other actions wake nobody and put nobody to sleep on a semaphore. */
  lemma QuietSema(k: State, a: Action, q: Sid, t: Tid)
    requires Enabled(k, a) && !a.Down? && !a.Recheck? && !a.Raise?
    requires q in k.semas && SemaOk(k, q) && LinkOk(k, t, q)
    ensures SemaOk(Step(k, a), q) && LinkOk(Step(k, a), t, q)
  {
  }

  /** What a step needs to know to be right about semaphore `q` and page `t`. */
  ghost predicate BeforeSema(k: State, q: Sid, t: Tid) {
    && Global(k) && ThreadOk(k, k.current) && ThreadOk(k, t)
    && q in k.semas && SemaOk(k, q) && LinkOk(k, t, q) && LinkOk(k, k.current, q)
  }

  lemma RaiseQueue(k: State, s: Sid, q: Sid, t: Tid)
    requires Inv(k) && s in k.semas && q in k.semas
    ensures SemaOk(RaiseSema(k, s), q) && LinkOk(RaiseSema(k, s), t, q)
  {
    assert ThreadOk(k, t) && LinkOk(k, t, q);
    forall u | u in k.semas[s].sema.waiters ensures LinkOk(k, u, s) && ThreadOk(k, u) {}
    RaiseSemaOk(k, s, q, t);
  }

  lemma OldSema(k: State, a: Action, q: Sid, t: Tid)
    requires BeforeSema(k, q, t) && Enabled(k, a) && !a.Raise?
    ensures SemaOk(Step(k, a), q) && LinkOk(Step(k, a), t, q)
  {
    match a
    case Down(s) => PassSema(k, s, q, t);
    case Recheck => PassSema(k, k.downing[k.current], q, t);
    case _ => QuietSema(k, a, q, t);
  }

  lemma StepSema(k: State, a: Action, q: Sid, t: Tid)
    requires Inv(k) && Enabled(k, a) && q in Step(k, a).semas
    ensures SemaOk(Step(k, a), q) && LinkOk(Step(k, a), t, q)
  {
    if q in k.semas {
      assert BeforeSema(k, q, t);
      if a.Raise? { RaiseQueue(k, a.s, q, t); } else { OldSema(k, a, q, t); }
    }
  }

  lemma StepInv(k: State, a: Action)
    requires Inv(k) && Enabled(k, a)
    ensures Inv(Step(k, a))
  {
    var k' := Step(k, a);
    forall u ensures Global(k') && ThreadOk(k', u) { StepPage(k, a, u); }
    assert ThreadOk(k', k'.current);
    forall q: Sid, t: Tid | q in k'.semas ensures LinkOk(k', t, q) { StepSema(k, a, q, t); }
    forall q | q in k'.semas ensures SemaOk(k', q) { StepSema(k, a, q, 0); }
  }

  /* ---- Every run ---- */

  /** A run from a fresh kernel: state `i + 1` is state `i` after action `i`. */
  ghost predicate IsRun(run: seq<State>, acts: seq<Action>) {
    && |run| == |acts| + 1 && Initial(run[0])
    && forall i: nat :: i < |acts| ==> StepsAt(run, acts, i)
  }

  ghost predicate StepsAt(run: seq<State>, acts: seq<Action>, i: nat) {
    i < |acts| && i + 1 < |run| && Enabled(run[i], acts[i]) && run[i + 1] == Step(run[i], acts[i])
  }

  lemma {:induction false} RunInv(run: seq<State>, acts: seq<Action>, i: nat)
    requires IsRun(run, acts) && i < |run|
    ensures Inv(run[i])
  {
    if i == 0 {
      InitialInv(run[0]);
    } else {
      RunInv(run, acts, i - 1);
      assert StepsAt(run, acts, i - 1);
      StepInv(run[i - 1], acts[i - 1]);
    }
  }

  lemma RunStep(run: seq<State>, acts: seq<Action>, i: nat)
    requires IsRun(run, acts) && i < |acts|
    ensures Inv(run[i]) && Enabled(run[i], acts[i]) && run[i + 1] == Step(run[i], acts[i])
  {
    RunInv(run, acts, i);
    assert StepsAt(run, acts, i);
  }

  ghost predicate Waits(k: State, t: Tid, s: Sid) {
    s in k.semas && t in k.semas[s].sema.waiters
  }

  /** What `thread.h` promises of `struct thread` and its dual-purpose `elem`: exactly one thread runs,
      the ready list is exactly the ready threads other than idle, only blocked threads are on wait lists, and no
      thread is on two lists. A blocked thread inside `sema_down` is on the list of that semaphore; a thread that
      `thread_create` has not unblocked yet, or that called `thread_block` itself, is on none. A page is freed once for
      each time it was given to a thread other than the initial one, and never while that thread runs. */
  lemma ThreadStates(run: seq<State>, acts: seq<Action>, i: nat)
    requires IsRun(run, acts) && i < |run|
    ensures var k := run[i];
            && k.current in k.status && (forall t <- k.status :: k.status[t] == Running <==> t == k.current)
            && Distinct(k.ready) && (forall t :: t in k.ready <==> t in k.status && k.status[t] == Ready && t != k.idle)
            && (forall t, s :: Waits(k, t, s) ==> t in k.status && k.status[t] == Blocked)
            && (forall t, s, s' :: Waits(k, t, s) && Waits(k, t, s') ==> s == s')
            && (forall t <- k.downing :: t in k.status && (k.status[t] == Blocked ==> Waits(k, t, k.downing[t])))
            && (forall t, s :: Waits(k, t, s) ==> t in k.downing && k.downing[t] == s && t !in k.ready)
            && (forall t <- k.status :: k.status[t] == Dying ==> t == k.initial)
            && (forall t :: t != k.initial ==> k.allocs[t] == k.frees[t] + (if t in k.status then 1 else 0))
            && k.frees[k.initial] == 0
  {
    RunInv(run, acts, i);
    var k := run[i];
    assert ThreadOk(k, k.initial);
    forall t
      ensures t in k.status ==>
                (k.status[t] == Running <==> t == k.current) && (k.status[t] == Dying ==> t == k.initial)
      ensures t in k.ready <==> t in k.status && k.status[t] == Ready && t != k.idle
      ensures t != k.initial ==> k.allocs[t] == k.frees[t] + (if t in k.status then 1 else 0)
    {
      assert ThreadOk(k, t);
    }
    forall t, s, s' | Waits(k, t, s) && Waits(k, t, s') ensures s == s' {
      assert LinkOk(k, t, s) && LinkOk(k, t, s');
    }
    forall t, s | Waits(k, t, s)
      ensures t in k.status && k.status[t] == Blocked && t in k.downing && k.downing[t] == s && t !in k.ready
    {
      assert LinkOk(k, t, s) && ThreadOk(k, t);
    }
    forall t | t in k.downing ensures t in k.status && (k.status[t] == Blocked ==> Waits(k, t, k.downing[t])) {
      assert ThreadOk(k, t);
    }
  }

  /** The threads inside `sema_down` of `s` that are awake. */
  ghost function Rechecking(k: State, s: Sid): set<Tid> {
    set t | t in k.downing && k.downing[t] == s && t in k.status && k.status[t] != Blocked
  }

  /** Semaphores over every run: value = initial + ups - downs, and while threads wait, every unit of value
      is spoken for by a woken thread that has yet to make its pass. */
  lemma SemaphoreCounts(run: seq<State>, acts: seq<Action>, i: nat, s: Sid)
    requires IsRun(run, acts) && i < |run| && s in run[i].semas
    ensures var q := run[i].semas[s];
            && q.sema.value == q.init + q.ups - q.downs
            && (q.sema.waiters != [] ==>
                  q.sema.value <= |Rechecking(run[i], s)|)
  {
    RunInv(run, acts, i);
    var k := run[i];
    assert SemaOk(k, s);
    forall t ensures t in k.semas[s].woken <==> t in Rechecking(k, s) {
      assert LinkOk(k, t, s) && ThreadOk(k, t);
    }
    assert Rechecking(k, s) == k.semas[s].woken;
  }

  /** Does action `a` switch threads? */
  predicate Switches(k: State, a: Action)
    requires Enabled(k, a)
  {
    match a
    case Yield | Exit | IdleBlock | Block => true
    case Down(s) => k.semas[s].sema.value == 0
    case Recheck => k.semas[k.downing[k.current]].sema.value == 0
    case _ => false
  }

  ghost function SwitchCount(run: seq<State>, acts: seq<Action>, i: nat, j: nat): nat
    requires IsRun(run, acts) && i <= j <= |acts|
    decreases j - i
  {
    if i == j then 0
    else
      assert StepsAt(run, acts, i);
      (if Switches(run[i], acts[i]) then 1 else 0) + SwitchCount(run, acts, i + 1, j)
  }

  lemma QueuedStep(k: State, a: Action, t: Tid, pos: nat)
    requires Inv(k) && Enabled(k, a) && pos < |k.ready| && k.ready[pos] == t
    ensures var k' := Step(k, a);
            if !Switches(k, a) then pos < |k'.ready| && k'.ready[pos] == t
            else if pos == 0 then k'.current == t
            else pos - 1 < |k'.ready| && k'.ready[pos - 1] == t
  {
  }

  /** A ready thread at position `pos` runs before the scheduler has switched `pos + 1` times. */
  lemma {:induction false} DispatchBound(run: seq<State>, acts: seq<Action>, i: nat, j: nat, pos: nat, t: Tid)
    requires IsRun(run, acts) && i <= j <= |acts|
    requires pos < |run[i].ready| && run[i].ready[pos] == t
    requires SwitchCount(run, acts, i, j) >= pos + 1
    ensures exists m :: i < m <= j && run[m].current == t
    decreases j - i
  {
    RunStep(run, acts, i);
    QueuedStep(run[i], acts[i], t, pos);
    if !Switches(run[i], acts[i]) {
      DispatchBound(run, acts, i + 1, j, pos, t);
    } else if pos > 0 {
      DispatchBound(run, acts, i + 1, j, pos - 1, t);
    }
  }

  /** Wait lists are first-in first-out: a step appends the thread that was running, or takes the front, which is then
      ready. */
  lemma WaitListIsFifo(k: State, a: Action, s: Sid)
    requires Inv(k) && Enabled(k, a) && s in k.semas
    ensures var k' := Step(k, a);
            s in k'.semas &&
            var q, q' := k.semas[s].sema.waiters, k'.semas[s].sema.waiters;
            q' == q || q' == q + [k.current] || (q != [] && q' == q[1..] && q[0] in k'.ready)
  {
    assert forall t, r :: r in k.semas ==> LinkOk(k, t, r);
  }

  /** A thread that is blocked and on no list. */
  ghost predicate OnNoList(k: State, t: Tid) {
    t in k.status && k.status[t] == Blocked && t != k.idle && t !in k.downing && t !in k.ready
    && (forall s :: !Waits(k, t, s))
  }

  lemma AllocatedOnNoList(k: State, t: Tid)
    requires Inv(k) && Enabled(k, Allocate(t))
    ensures OnNoList(Step(k, Allocate(t)), t)
  {
    assert ThreadOk(k, t);
    forall s | s in k.semas ensures t !in k.semas[s].sema.waiters { assert LinkOk(k, t, s); }
  }

  lemma StaysOnNoList(k: State, a: Action, t: Tid)
    requires Inv(k) && Enabled(k, a) && OnNoList(k, t) && a != Unblock(t)
    ensures OnNoList(Step(k, a), t)
  {
    var k' := Step(k, a);
    StepInv(k, a);
    NotTouched(k, a, t);
    assert ThreadOk(k', t);
    forall s | s in k'.semas ensures t !in k'.semas[s].sema.waiters { assert LinkOk(k', t, s); }
  }

  /** Thread `t` is blocked outside `sema_down`. */
  ghost predicate Apart(k: State, t: Tid) {
    t in k.status && k.status[t] == Blocked && t !in k.downing && t != k.idle
  }

  lemma NotTouched(k: State, a: Action, t: Tid)
    requires Inv(k) && Enabled(k, a) && OnNoList(k, t) && a != Unblock(t)
    ensures Apart(Step(k, a), t)
  {
    assert ThreadOk(k, k.current) && ThreadOk(k, NextToRun(k));
    if a.Raise? {
      NotRaised(k, a.s, t);
    } else if a.Down? {
      NotPassed(k, a.s, t);
    } else if a.Recheck? {
      NotPassed(k, k.downing[k.current], t);
    }
  }

  lemma NotRaised(k: State, s: Sid, t: Tid)
    requires s in k.semas && OnNoList(k, t)
    ensures Apart(RaiseSema(k, s), t)
  {
    assert !Waits(k, t, s);
  }

  lemma NotPassed(k: State, s: Sid, t: Tid)
    requires Global(k) && s in k.semas && OnNoList(k, t) && ThreadOk(k, k.current) && ThreadOk(k, NextToRun(k))
    ensures Apart(Pass(k, s), t)
  {
  }

  /** A step of the creation of `t`: its allocation, or anything else before it is unblocked. */
  lemma CreationStep(k: State, a: Action, k': State, t: Tid)
    requires Inv(k) && Enabled(k, a) && k' == Step(k, a)
    requires a == Allocate(t) || (OnNoList(k, t) && a != Unblock(t))
    ensures OnNoList(k', t)
  {
    if a == Allocate(t) { AllocatedOnNoList(k, t); } else { StaysOnNoList(k, a, t); }
  }

  /** Being blocked is not being on a wait list: from its allocation until it is unblocked, a thread that is being
      created is on none. */
  lemma {:induction false} BlockedOnNoList(run: seq<State>, acts: seq<Action>, i: nat, j: nat, t: Tid)
    requires IsRun(run, acts) && i <= j < |acts| && acts[i] == Allocate(t)
    requires forall m :: i < m <= j ==> acts[m] != Unblock(t)
    ensures OnNoList(run[j + 1], t)
    decreases j
  {
    if i < j {
      BlockedOnNoList(run, acts, i, j - 1, t);
    }
    RunStep(run, acts, j);
    CreationStep(run[j], acts[j], run[j + 1], t);
  }

  /* ---- What each action does to threads and semaphores ---- */

  /** Nothing is different about semaphore `s`. */
  ghost predicate SameSema(k: State, k': State, s: Sid) {
    s in k.semas && s in k'.semas && k'.semas[s].sema == k.semas[s].sema
  }

  /** No thread is different, and none is switched. */
  ghost predicate SameThreads(k: State, k': State) {
    k'.status == k.status && k'.ready == k.ready && k'.current == k.current
  }

  /** The processor goes to the front of the queue `ready`, or to the idle thread; the thread that ran is left with
      `status`, or is gone if it was dying and is not the initial one; no other thread is different. */
  ghost predicate Switched(k: State, k': State, ready: seq<Tid>, status: Status) {
    var next := if ready == [] then k.idle else ready[0];
    && k'.current == next && k'.ready == (if ready == [] then [] else ready[1..])
    && next in k'.status && k'.status[next] == Running
    && (k.current != next ==>
          if status == Dying && k.current != k.initial then k.current !in k'.status
          else k.current in k'.status && k'.status[k.current] == status)
    && (forall t :: t != k.current && t != next ==>
          (t in k'.status <==> t in k.status) && (t in k.status ==> k'.status[t] == k.status[t]))
  }

  /** The semaphore that a pass of `sema_down` or `sema_try_down` is about. */
  function Wanted(k: State, a: Action): Option<Sid> {
    match a
    case Down(s) => Some(s)
    case TryDown(s) => Some(s)
    case Recheck => if k.current in k.downing then Some(k.downing[k.current]) else None
    case _ => None
  }

  /** `sema_up` gives one unit; the thread that has waited longest, and no other, becomes ready, behind all others. */
  lemma RaiseEffect(k: State, s: Sid)
    requires Inv(k) && Enabled(k, Raise(s))
    ensures var k', was := Step(k, Raise(s)), k.semas[s].sema;
            && s in k'.semas && k'.semas[s].sema.value == was.value + 1
            && (was.waiters == [] ==> k'.semas[s].sema.waiters == [] && SameThreads(k, k'))
            && (was.waiters != [] ==>
                  var t := was.waiters[0];
                  && was.waiters == [t] + k'.semas[s].sema.waiters && k'.ready == k.ready + [t]
                  && k'.status == k.status[t := Ready] && k'.current == k.current)
            && (forall q :: q in k.semas && q != s ==> SameSema(k, k', q))
  {
  }

  /** A pass of `sema_down`, or `sema_try_down`, takes a unit exactly if there is one, and the thread goes on. */
  lemma TakeEffect(k: State, a: Action)
    requires Inv(k) && Enabled(k, a) && Wanted(k, a).Some? && k.semas[Wanted(k, a).value].sema.value > 0
    ensures var k', s := Step(k, a), Wanted(k, a).value;
            && s in k'.semas && k'.semas[s].sema.value == k.semas[s].sema.value - 1
            && k'.semas[s].sema.waiters == k.semas[s].sema.waiters && SameThreads(k, k') && k'.current !in k'.downing
            && (forall q :: q in k.semas && q != s ==> SameSema(k, k', q))
  {
    assert ThreadOk(k, k.current);
  }

  /** Without a unit, `sema_down` puts the thread at the end of the wait list and gives the processor away. */
  lemma WaitEffect(k: State, a: Action)
    requires Inv(k) && Enabled(k, a) && (a.Down? || a.Recheck?)
    requires Wanted(k, a).Some? && k.semas[Wanted(k, a).value].sema.value == 0
    ensures var k', s := Step(k, a), Wanted(k, a).value;
            && s in k'.semas && k'.semas[s].sema.value == 0
            && k'.semas[s].sema.waiters == k.semas[s].sema.waiters + [k.current]
            && k.current in k'.downing && k'.downing[k.current] == s && Switched(k, k', k.ready, Blocked)
            && (forall q :: q in k.semas && q != s ==> SameSema(k, k', q))
  {
    assert ThreadOk(k, NextToRun(k)) && ThreadOk(k, k.current);
  }

  /** Without a unit, `sema_try_down` changes nothing. */
  lemma TryFails(k: State, s: Sid)
    requires Inv(k) && Enabled(k, TryDown(s)) && k.semas[s].sema.value == 0
    ensures Step(k, TryDown(s)) == k
  {
  }

  /** A new semaphore has the given value and nobody waits for it. */
  lemma InitEffect(k: State, s: Sid, v: nat)
    requires Inv(k) && Enabled(k, SemaInit(s, v))
    ensures var k' := Step(k, SemaInit(s, v));
            && s in k'.semas && k'.semas[s].sema.value == v && k'.semas[s].sema.waiters == [] && SameThreads(k, k')
            && (forall q :: q in k.semas ==> SameSema(k, k', q))
  {
  }

  lemma ScheduleSwitches(k: State, ready: seq<Tid>, status: Status)
    requires k.current in k.status && status != Running && k.idle in k.status
    requires ready != [] ==> ready[0] in k.status
    ensures Switched(k, Schedule(k.(ready := ready, status := k.status[k.current := status])), ready, status)
  {
  }

  /** Yielding, blocking and exiting switch threads, and touch no semaphore. A thread that yields goes to the end of the
      ready list, but the idle thread does not. */
  lemma SwitchEffect(k: State, a: Action)
    requires Inv(k) && Enabled(k, a) && (a.Yield? || a.Block? || a.IdleBlock? || a.Exit?)
    ensures var k' := Step(k, a);
            && k'.semas == k.semas
            && (a.Yield? ==> Switched(k, k', if k.current == k.idle then k.ready else k.ready + [k.current], Ready))
            && (a.Block? || a.IdleBlock? ==> Switched(k, k', k.ready, Blocked))
            && (a.Exit? ==> Switched(k, k', k.ready, Dying))
  {
    BeforeOf(k, k.current);
    if a.Yield? {
      ScheduleSwitches(k, if k.current == k.idle then k.ready else k.ready + [k.current], Ready);
    } else {
      ScheduleSwitches(k, k.ready, if a.Exit? then Dying else Blocked);
    }
  }

  /** A new thread is blocked; unblocking puts a thread at the end of the ready list. */
  lemma CreateEffect(k: State, a: Action)
    requires Inv(k) && Enabled(k, a) && (a.Allocate? || a.Unblock?)
    ensures var k' := Step(k, a);
            && k'.status == k.status[a.t := if a.Allocate? then Blocked else Ready] && k'.current == k.current
            && k'.ready == (if a.Allocate? then k.ready else k.ready + [a.t])
            && (forall q :: q in k.semas ==> SameSema(k, k', q))
  {
  }

  /* ---- Semaphores count the actions of a run ---- */

  /** How often `s` goes up in `acts[i..j]`. */
  function Raises(acts: seq<Action>, s: Sid, i: nat, j: nat): nat
    requires i <= j <= |acts|
  {
    if i == j then 0 else Raises(acts, s, i, j - 1) + if acts[j - 1] == Raise(s) then 1 else 0
  }

  /** Action `i` finds a unit of `s` and takes it. */
  ghost predicate Takes(run: seq<State>, acts: seq<Action>, s: Sid, i: nat)
    requires i < |acts| && |run| == |acts| + 1
  {
    Wanted(run[i], acts[i]) == Some(s) && s in run[i].semas && run[i].semas[s].sema.value > 0
  }

  /** How many units of `s` are taken in `acts[i..j]`. */
  ghost function Taken(run: seq<State>, acts: seq<Action>, s: Sid, i: nat, j: nat): nat
    requires i <= j <= |acts| && |run| == |acts| + 1
  {
    if i == j then 0 else Taken(run, acts, s, i, j - 1) + if Takes(run, acts, s, j - 1) then 1 else 0
  }

  /** An action changes the value of a semaphore only by going up or by taking a unit. */
  lemma ValueStep(k: State, a: Action, s: Sid)
    requires Inv(k) && Enabled(k, a) && s in k.semas
    ensures var k' := Step(k, a);
            && s in k'.semas
            && k'.semas[s].sema.value == k.semas[s].sema.value + (if a == Raise(s) then 1 else 0)
                                         - (if Wanted(k, a) == Some(s) && k.semas[s].sema.value > 0 then 1 else 0)
  {
    match a
    case Raise(r) => RaiseEffect(k, r);
    case SemaInit(r, v) => InitEffect(k, r, v);
    case Allocate(_) => CreateEffect(k, a);
    case Unblock(_) => CreateEffect(k, a);
    case Down(r) => if k.semas[r].sema.value > 0 { TakeEffect(k, a); } else { WaitEffect(k, a); }
    case TryDown(r) => if k.semas[r].sema.value > 0 { TakeEffect(k, a); } else { TryFails(k, r); }
    case Recheck =>
      if k.semas[k.downing[k.current]].sema.value > 0 { TakeEffect(k, a); } else { WaitEffect(k, a); }
    case _ => SwitchEffect(k, a);
  }

  /** Over every run, the value of a semaphore is what it was initialised with, plus the calls of `sema_up` since, less
      the units that `sema_down` and `sema_try_down` took. */
  lemma {:induction false} ValueCounts(run: seq<State>, acts: seq<Action>, s: Sid, v: nat, i: nat, j: nat)
    requires IsRun(run, acts) && i < j <= |acts| && acts[i] == SemaInit(s, v)
    ensures s in run[j].semas
    ensures run[j].semas[s].sema.value == v + Raises(acts, s, i + 1, j) - Taken(run, acts, s, i + 1, j)
    decreases j
  {
    RunStep(run, acts, j - 1);
    if j == i + 1 {
      InitEffect(run[i], s, v);
    } else {
      ValueCounts(run, acts, s, v, i, j - 1);
      ValueStep(run[j - 1], acts[j - 1], s);
    }
  }

  /** No call is refused: a thread outside `sema_down` may yield, create threads, use any semaphore, and, unless it is
      the idle thread, block and exit; inside `sema_down` it makes its next pass. */
  lemma NothingIsRefused(k: State, t: Tid, s: Sid, v: nat)
    requires Inv(k)
    ensures k.current in k.downing ==> Enabled(k, Recheck)
    ensures k.current !in k.downing ==>
              && Enabled(k, Yield) && (t !in k.status ==> Enabled(k, Allocate(t)))
              && (s !in k.semas ==> Enabled(k, SemaInit(s, v)))
              && (s in k.semas ==> Enabled(k, Raise(s)) && Enabled(k, TryDown(s)))
              && (k.current != k.idle ==> Enabled(k, Block) && Enabled(k, Exit))
              && (k.current != k.idle && s in k.semas ==> Enabled(k, Down(s)))
              && (OnNoList(k, t) ==> Enabled(k, Unblock(t)))
              && (k.current == k.idle ==> Enabled(k, IdleBlock))
  {
    assert ThreadOk(k, k.current);
  }
}
