/** The MapReduce coordinator (hw-map-reduce/coordinator/coordinator.c:61-284).

    The handlers are methods of `Server`, proved against functions of a value; runs are sequences of messages. */
module Coordinator {
  import opened Basics
  import opened Pigeonhole

  const TASK_TIMEOUT_SECS: int := 10

  /** `task`: `file` is empty for reduce tasks. */
  datatype Task = Task(id: nat, reduce: bool, file: string, start: int, complete: bool)

  /** `job`. Its `files` are `mapTasks`, and `n_map` is their number. */
  datatype Job = Job(
    files: seq<string>, nReduce: int,
    mapAssigned: nat, mapCompleted: nat, reduceAssigned: nat, reduceCompleted: nat,
    tasks: map<nat, Task>, done: bool, failed: bool)

  datatype State = State(counter: int, jobs: seq<int>, info: map<int, Job>)

  /** A reply to `GET_TASK` that is not "wait". */
  datatype Assignment = Assignment(job: int, task: nat, reduce: bool, file: string)

  datatype Poll = Poll(done: bool, failed: bool, invalid: bool)

  /* ---- The handlers as functions ---- */

  function NewJob(files: seq<string>, nReduce: int): Job {
    Job(files, nReduce, 0, 0, 0, 0, map[], false, false)
  }

  function DoSubmit(st: State, files: seq<string>, nReduce: int): State {
    State(st.counter + 1, st.jobs + [st.counter], st.info[st.counter := NewJob(files, nReduce)])
  }

  /** `g_list_remove`: the first occurrence goes. */
  function Without(s: seq<int>, x: int): seq<int> {
    if s == [] then [] else if s[0] == x then s[1..] else [s[0]] + Without(s[1..], x)
  }

  lemma {:induction false} WithoutIs(s: seq<int>, x: int) returns (k: nat)
    requires x in s
    ensures k < |s| && s[k] == x && Without(s, x) == s[..k] + s[k + 1..]
  {
    if s[0] == x {
      k := 0;
    } else {
      var m := WithoutIs(s[1..], x);
      k := m + 1;
      Shifted(s, m);
    }
  }

  lemma Shifted(s: seq<int>, m: nat)
    requires m + 1 < |s|
    ensures [s[0]] + (s[1..][..m] + s[1..][m + 1..]) == s[..m + 1] + s[m + 2..]
  {
  }

  function DoPoll(st: State, id: int): State {
    if id in st.jobs && id in st.info && st.info[id].done then st.(jobs := Without(st.jobs, id)) else st
  }

  predicate Late(t: Task, now: int) {
    now - t.start >= TASK_TIMEOUT_SECS && !t.complete
  }

  /** `pick` is a late task, if there is any: which one depends on the order of the hash table. */
  ghost predicate PickOk(job: Job, now: int, pick: Option<nat>) {
    match pick
    case Some(t) => t in job.tasks && Late(job.tasks[t], now)
    case None => forall t :: t in job.tasks ==> !Late(job.tasks[t], now)
  }

  predicate MapReady(job: Job) {
    job.mapAssigned < |job.files| && job.mapCompleted < |job.files|
  }

  predicate ReduceReady(job: Job) {
    job.mapCompleted == |job.files| && job.reduceAssigned < job.nReduce && job.reduceCompleted < job.nReduce
  }

  /** What a job that is not done offers: a late task, else a fresh map task, else a fresh reduce task. */
  function Offer(job: Job, id: int, now: int, pick: Option<nat>): Option<(Job, Assignment)>
    requires pick.Some? ==> pick.value in job.tasks
  {
    if pick.Some? then
      var t := job.tasks[pick.value];
      Some((job, Assignment(id, t.id, t.reduce, t.file)))
    else if MapReady(job) then
      var t := job.mapAssigned;
      Some((job.(mapAssigned := t + 1, tasks := job.tasks[t := Task(t, false, job.files[t], now, false)]),
            Assignment(id, t, false, job.files[t])))
    else if ReduceReady(job) then
      var t := job.reduceAssigned;
      Some((job.(reduceAssigned := t + 1, tasks := job.tasks[t := Task(t, true, "", now, false)]),
            Assignment(id, t, true, "")))
    else None
  }

  /** A job that has nothing to offer. */
  ghost predicate Skipped(job: Job, now: int) {
    job.done || (PickOk(job, now, None) && !MapReady(job) && !ReduceReady(job))
  }

  /** Job `i` in the queue is the first that has something to offer, namely `pick` if any task is late; `i` is the
      length of the queue when no job has anything. */
  ghost predicate Serves(st: State, now: int, i: nat, pick: Option<nat>) {
    && i <= |st.jobs| && (forall k :: 0 <= k < |st.jobs| ==> st.jobs[k] in st.info)
    && (forall k :: 0 <= k < i ==> Skipped(st.info[st.jobs[k]], now))
    && (i < |st.jobs| ==> var job := st.info[st.jobs[i]]; PickOk(job, now, pick) && !Skipped(job, now))
  }

  function DoGet(st: State, now: int, i: nat, pick: Option<nat>): (State, Option<Assignment>)
    requires Serves(st, now, i, pick)
  {
    if i == |st.jobs| then (st, None)
    else
      var id := st.jobs[i];
      var o := Offer(st.info[id], id, now, pick);
      (st.(info := st.info[id := o.value.0]), Some(o.value.1))
  }

  /** A report on a task of `job`. */
  function Report(job: Job, task: nat, reduce: bool, success: bool): Job
    requires success ==> task in job.tasks
  {
    if !success then job.(failed := true, done := true)
    else
      var j1 := job.(tasks := job.tasks[task := job.tasks[task].(complete := true)]);
      var j2 := if !reduce then j1.(mapCompleted := j1.mapCompleted + 1)
                else j1.(reduceCompleted := j1.reduceCompleted + 1);
      if j2.mapCompleted == |j2.files| && j2.reduceCompleted == j2.nReduce then j2.(done := true) else j2
  }

  function DoFinish(st: State, id: int, task: nat, reduce: bool, success: bool): State
    requires success && id in st.info ==> task in st.info[id].tasks
  {
    if id !in st.info then st else st.(info := st.info[id := Report(st.info[id], task, reduce, success)])
  }

  /* ---- The handlers ---- */

  class Server {
    var counter: int
    var jobs: seq<int>
    var jobInfo: map<int, Job>

    ghost function St(): State
      reads this
    {
      State(counter, jobs, jobInfo)
    }

    constructor ()
      ensures St() == State(0, [], map[])
    {
      counter, jobs, jobInfo := 0, [], map[];
    }

    /** `submit_job_1_svc`: the job is queued even when its application is unknown, and only then is the reply -1. */
    method SubmitJob(files: seq<string>, nReduce: int, validApp: bool) returns (result: int)
      modifies this
      ensures St() == DoSubmit(old(St()), files, nReduce)
      ensures result == if validApp then old(counter) else -1
      ensures jobs == old(jobs) + [old(counter)] && counter == old(counter) + 1
      ensures jobInfo == old(jobInfo)[old(counter) := jobInfo[old(counter)]]
      ensures var job := jobInfo[old(counter)];
              && job.files == files && job.nReduce == nReduce && job.tasks == map[] && !job.done && !job.failed
              && job.mapAssigned == job.mapCompleted == job.reduceAssigned == job.reduceCompleted == 0
    {
      var id := counter;
      counter := counter + 1;
      jobs := jobs + [id];
      jobInfo := jobInfo[id := NewJob(files, nReduce)];
      result := if validApp then id else -1;
    }

    /** `poll_job_1_svc`. */
    method PollJob(id: int) returns (r: Poll)
      requires id in jobs ==> id in jobInfo
      modifies this
      ensures St() == DoPoll(old(St()), id)
      ensures r.invalid <==> id !in old(jobs)
      ensures !r.invalid ==> r.done == old(jobInfo)[id].done && r.failed == old(jobInfo)[id].failed
      ensures jobInfo == old(jobInfo) && counter == old(counter)
      ensures !r.invalid && r.done ==>
                exists k :: 0 <= k < |old(jobs)| && old(jobs)[k] == id && jobs == old(jobs)[..k] + old(jobs)[k + 1..]
      ensures r.invalid || !r.done ==> jobs == old(jobs)
    {
      if id !in jobs {
        return Poll(false, false, true);
      }
      var job := jobInfo[id];
      if job.done {
        ghost var k := WithoutIs(jobs, id);
        jobs := Without(jobs, id);
      }
      r := Poll(job.done, job.failed, false);
    }

    /** The search for a late task, in the order of the hash table, whatever it is. */
    method FindLate(job: Job, now: int) returns (pick: Option<nat>)
      ensures PickOk(job, now, pick)
    {
      var rest := job.tasks.Keys;
      while rest != {}
        invariant rest <= job.tasks.Keys
        invariant forall t :: t in job.tasks.Keys - rest ==> !Late(job.tasks[t], now)
      {
        var t :| t in rest;
        if Late(job.tasks[t], now) {
          return Some(t);
        }
        rest := rest - {t};
      }
      pick := None;
    }

    /** `get_task_1_svc`. */
    method GetTask(now: int) returns (r: Option<Assignment>, ghost i: nat, ghost pick: Option<nat>)
      requires forall k :: 0 <= k < |jobs| ==> jobs[k] in jobInfo
      modifies this
      ensures Serves(old(St()), now, i, pick) && (St(), r) == DoGet(old(St()), now, i, pick)
    {
      pick := None;
      var n := 0;
      while n < |jobs|
        invariant 0 <= n <= |jobs| && St() == old(St())
        invariant forall k :: 0 <= k < n ==> Skipped(jobInfo[jobs[k]], now)
      {
        var id := jobs[n];
        var job := jobInfo[id];
        if !job.done {
          var late := FindLate(job, now);
          var offer := Offer(job, id, now, late);
          if offer.Some? {
            jobInfo := jobInfo[id := offer.value.0];
            return Some(offer.value.1), n, late;
          }
        }
        n := n + 1;
      }
      r, i := None, n;
    }

    /** `finish_task_1_svc`. A success report is for a task that the job knows. */
    method FinishTask(id: int, task: nat, reduce: bool, success: bool)
      requires success && id in jobInfo ==> task in jobInfo[id].tasks
      modifies this
      ensures St() == DoFinish(old(St()), id, task, reduce, success)
      ensures jobs == old(jobs) && counter == old(counter) && jobInfo.Keys == old(jobInfo).Keys
      ensures forall x :: x in jobInfo && x != id ==> jobInfo[x] == old(jobInfo)[x]
      ensures id in jobInfo && !success ==> jobInfo[id] == old(jobInfo)[id].(failed := true, done := true)
      ensures id in jobInfo && success ==>
                var job, was := jobInfo[id], old(jobInfo)[id];
                && job.mapCompleted == was.mapCompleted + (if reduce then 0 else 1)
                && job.reduceCompleted == was.reduceCompleted + (if reduce then 1 else 0)
                && job.failed == was.failed && job.files == was.files && job.nReduce == was.nReduce
                && (job.done <==> was.done || (job.mapCompleted == |job.files| && job.reduceCompleted == job.nReduce))
                && job.tasks.Keys == was.tasks.Keys && job.tasks[task] == was.tasks[task].(complete := true)
                && (forall t :: t in job.tasks && t != task ==> job.tasks[t] == was.tasks[t])
    {
      if id !in jobInfo {
        return;
      }
      var job := jobInfo[id];
      if !success {
        job := job.(failed := true);
        job := job.(done := true);
        jobInfo := jobInfo[id := job];
        return;
      }
      var record := job.tasks[task].(complete := true);
      if !reduce {
        job := job.(mapCompleted := job.mapCompleted + 1);
      } else {
        job := job.(reduceCompleted := job.reduceCompleted + 1);
      }
      if job.mapCompleted == |job.files| && job.reduceCompleted == job.nReduce {
        job := job.(done := true);
      }
      job := job.(tasks := job.tasks[task := record]);
      jobInfo := jobInfo[id := job];
    }
  }

  /* ---- Runs ---- */

  /** What has gone out and come back for a job: tasks given to workers, and the successful reports in order. */
  datatype History = History(given: set<(nat, bool)>, mapReports: seq<nat>, reduceReports: seq<nat>)

  datatype System = System(st: State, history: map<int, History>)

  /** A message, with what its handling depends on: the clock, and which late task the hash table shows first. */
  datatype Message =
    | Submit(files: seq<string>, nReduce: int)
    | PollJob(id: int)
    | Get(now: int, i: nat, pick: Option<nat>)
    | Finish(id: int, task: nat, reduce: bool, success: bool)

  /** Workers report only tasks that were given to them. */
  ghost predicate Enabled(sys: System, m: Message) {
    match m
    case Submit(_, _) => true
    case PollJob(_) => true
    case Get(now, i, pick) => Serves(sys.st, now, i, pick)
    case Finish(id, task, reduce, success) =>
      success && id in sys.st.info ==>
        id in sys.history && (task, reduce) in sys.history[id].given && task in sys.st.info[id].tasks
  }

  function Noted(h: History, task: nat, reduce: bool): History {
    if reduce then h.(reduceReports := h.reduceReports + [task]) else h.(mapReports := h.mapReports + [task])
  }

  ghost function Step(sys: System, m: Message): System
    requires Enabled(sys, m)
  {
    match m
    case Submit(files, nReduce) =>
      System(DoSubmit(sys.st, files, nReduce), sys.history[sys.st.counter := History({}, [], [])])
    case PollJob(id) => sys.(st := DoPoll(sys.st, id))
    case Get(now, i, pick) =>
      var (st, r) := DoGet(sys.st, now, i, pick);
      if r.None? || r.value.job !in sys.history then sys.(st := st)
      else
        var h := sys.history[r.value.job];
        System(st, sys.history[r.value.job := h.(given := h.given + {(r.value.task, r.value.reduce)})])
    case Finish(id, task, reduce, success) =>
      var st := DoFinish(sys.st, id, task, reduce, success);
      if success && id in sys.st.info then System(st, sys.history[id := Noted(sys.history[id], task, reduce)])
      else sys.(st := st)
  }

  function Max(a: nat, b: nat): nat { if a < b then b else a }

  /** Fresh ids have gone out in order; every report is counted, repeated or not. */
  ghost predicate Counted(job: Job, h: History) {
    && job.mapAssigned <= |job.files| && (job.reduceAssigned > 0 ==> job.reduceAssigned <= job.nReduce)
    && (forall t: nat :: (t, false) in h.given <==> t < job.mapAssigned)
    && (forall t: nat :: (t, true) in h.given <==> t < job.reduceAssigned)
    && job.mapCompleted == |h.mapReports| && job.reduceCompleted == |h.reduceReports|
    && Below(h.mapReports, job.mapAssigned) && Below(h.reduceReports, job.reduceAssigned)
    && (forall t: nat :: t in job.tasks <==> t < Max(job.mapAssigned, job.reduceAssigned))
  }

  /** Task records are what they say. */
  ghost predicate TaskOk(job: Job, t: nat) {
    t in job.tasks ==>
      var task := job.tasks[t];
      task.id == t && (if task.reduce then t < job.reduceAssigned
                       else t < job.mapAssigned && t < |job.files| && task.file == job.files[t])
  }

  /** A job is done when it has failed or as many reports came in as it has tasks, at least one. */
  ghost predicate DoneOk(job: Job) {
    && (job.failed ==> job.done)
    && (job.done && !job.failed ==>
          |job.files| <= job.mapCompleted && 0 <= job.nReduce <= job.reduceCompleted
          && job.mapCompleted + job.reduceCompleted > 0)
    && (job.mapCompleted == |job.files| && job.reduceCompleted == job.nReduce
        && job.mapCompleted + job.reduceCompleted > 0 ==>
          job.done)
  }

  /** With or without repeated reports: a reduce task goes out after as many map reports as there are files, takes the
      place of the map task with its number, and leaves the other map tasks alone. */
  ghost predicate PlaceOk(job: Job, h: History, t: nat) {
    && (job.reduceAssigned > 0 ==> job.mapCompleted >= |job.files|)
    && (t < job.reduceAssigned ==> t in job.tasks && job.tasks[t].reduce)
    && (job.reduceAssigned <= t < job.mapAssigned ==>
          t in job.tasks && !job.tasks[t].reduce && (job.tasks[t].complete <==> t in h.mapReports))
  }

  ghost predicate OrderOk(job: Job) {
    job.reduceAssigned > 0 ==> job.mapCompleted == |job.files|
  }

  /** The table knows of every task whether it is still out. */
  ghost predicate TableOk(job: Job, h: History, t: nat) {
    t < job.reduceAssigned ==> t in job.tasks && (job.tasks[t].complete <==> t in h.reduceReports)
  }

  ghost predicate NoRepeats(h: History) { Distinct(h.mapReports) && Distinct(h.reduceReports) }

  /** What holds of a job in every run; the last part as long as no successful report was repeated. */
  ghost predicate JobInv(job: Job, h: History) {
    && Counted(job, h) && (forall t :: TaskOk(job, t)) && (forall t :: PlaceOk(job, h, t)) && DoneOk(job)
    && (NoRepeats(h) ==> OrderOk(job) && (forall t :: TableOk(job, h, t)))
  }

  ghost predicate Inv(sys: System) {
    && 0 <= sys.st.counter && sys.st.info.Keys == sys.history.Keys
    && (forall id :: id in sys.st.info ==> 0 <= id < sys.st.counter && JobInv(sys.st.info[id], sys.history[id]))
    && (forall k :: 0 <= k < |sys.st.jobs| ==> sys.st.jobs[k] in sys.st.info)
  }

  /* ---- Counting reports ---- */

  /** Once a reduce task is out, no map report is still to come. */
  lemma MapsAreIn(job: Job, h: History, t: nat)
    requires Counted(job, h) && OrderOk(job) && Distinct(h.mapReports) && t < job.mapAssigned && t !in h.mapReports
    ensures job.reduceAssigned == 0
  {
    if job.mapCompleted == |job.files| {
      AllBelow(h.mapReports, |job.files|, t);
    }
  }

  /* ---- Every message keeps the invariant ---- */

  lemma NewJobInv(files: seq<string>, nReduce: int)
    ensures JobInv(NewJob(files, nReduce), History({}, [], []))
  {
  }

  lemma FreshMap(job: Job, h: History, id: int, now: int)
    requires JobInv(job, h) && MapReady(job) && !job.done
    ensures var t := job.mapAssigned;
            JobInv(Offer(job, id, now, None).value.0, h.(given := h.given + {(t, false)}))
  {
    var t := job.mapAssigned;
    var job', h' := Offer(job, id, now, None).value.0, h.(given := h.given + {(t, false)});
    assert Counted(job', h');
    forall u ensures TaskOk(job', u) && PlaceOk(job', h', u) { assert TaskOk(job, u) && PlaceOk(job, h, u); }
    if NoRepeats(h') {
      forall u ensures TableOk(job', h', u) { assert TableOk(job, h, u); }
    }
  }

  lemma FreshReduce(job: Job, h: History, id: int, now: int)
    requires JobInv(job, h) && !MapReady(job) && ReduceReady(job) && !job.done
    ensures var t := job.reduceAssigned;
            JobInv(Offer(job, id, now, None).value.0, h.(given := h.given + {(t, true)}))
  {
    var t := job.reduceAssigned;
    var job', h' := Offer(job, id, now, None).value.0, h.(given := h.given + {(t, true)});
    assert Counted(job', h');
    forall u ensures TaskOk(job', u) && PlaceOk(job', h', u) { assert TaskOk(job, u) && PlaceOk(job, h, u); }
    if NoRepeats(h') {
      forall u ensures TableOk(job', h', u) { assert TableOk(job, h, u); }
    }
  }

  lemma ReportedMap(job: Job, h: History, task: nat)
    requires JobInv(job, h) && (task, false) in h.given && task in job.tasks
    requires NoRepeats(Noted(h, task, false))
    ensures var job', h' := Report(job, task, false, true), Noted(h, task, false);
            OrderOk(job') && (forall t :: TableOk(job', h', t))
  {
    var job', h' := Report(job, task, false, true), Noted(h, task, false);
    DistinctPrefix(h.mapReports, task);
    MapsAreIn(job, h, task);
    forall u ensures TableOk(job', h', u) { assert TableOk(job, h, u); }
  }

  lemma ReportedReduce(job: Job, h: History, task: nat)
    requires JobInv(job, h) && (task, true) in h.given && task in job.tasks
    requires NoRepeats(Noted(h, task, true))
    ensures var job', h' := Report(job, task, true, true), Noted(h, task, true);
            OrderOk(job') && (forall t :: TableOk(job', h', t))
  {
    var job', h' := Report(job, task, true, true), Noted(h, task, true);
    DistinctPrefix(h.reduceReports, task);
    forall u ensures TableOk(job', h', u) { assert TableOk(job, h, u); }
  }

  lemma ReportInv(job: Job, h: History, task: nat, reduce: bool)
    requires JobInv(job, h) && (task, reduce) in h.given && task in job.tasks
    ensures JobInv(Report(job, task, reduce, true), Noted(h, task, reduce))
  {
    var job', h' := Report(job, task, reduce, true), Noted(h, task, reduce);
    assert Counted(job', h');
    forall u ensures TaskOk(job', u) && PlaceOk(job', h', u) { assert TaskOk(job, u) && PlaceOk(job, h, u); }
    if NoRepeats(h') {
      if reduce { ReportedReduce(job, h, task); } else { ReportedMap(job, h, task); }
    }
  }

  lemma GiveInv(job: Job, h: History, id: int, now: int, pick: Option<nat>)
    requires JobInv(job, h) && !job.done && !Skipped(job, now) && PickOk(job, now, pick)
    ensures var (job', a) := Offer(job, id, now, pick).value;
            JobInv(job', h.(given := h.given + {(a.task, a.reduce)})) && a.job == id
  {
    match pick
    case Some(t) =>
      assert TaskOk(job, t);
      assert h.given + {(job.tasks[t].id, job.tasks[t].reduce)} == h.given;
    case None =>
      if MapReady(job) { FreshMap(job, h, id, now); } else { FreshReduce(job, h, id, now); }
  }

  lemma {:induction false} WithoutIn(s: seq<int>, x: int, y: int)
    requires y in Without(s, x)
    ensures y in s
  {
    if s[0] != x && y != s[0] {
      WithoutIn(s[1..], x, y);
    }
  }

  /** Changing one job keeps the invariant when the job's own is kept. */
  lemma OneJob(sys: System, id: int, job: Job, h: History)
    requires Inv(sys) && id in sys.st.info && JobInv(job, h)
    ensures Inv(System(sys.st.(info := sys.st.info[id := job]), sys.history[id := h]))
  {
  }

  lemma PollInv(sys: System, id: int)
    requires Inv(sys)
    ensures Inv(Step(sys, PollJob(id)))
  {
    forall y | y in Without(sys.st.jobs, id) ensures y in sys.st.info {
      WithoutIn(sys.st.jobs, id, y);
    }
  }

  lemma SubmitInv(sys: System, files: seq<string>, nReduce: int)
    requires Inv(sys) && 0 <= sys.st.counter
    ensures Inv(Step(sys, Submit(files, nReduce)))
  {
    NewJobInv(files, nReduce);
  }

  /** Every message keeps the invariant. */
  lemma StepInv(sys: System, m: Message)
    requires Inv(sys) && Enabled(sys, m)
    ensures Inv(Step(sys, m))
  {
    match m
    case Submit(files, nReduce) => SubmitInv(sys, files, nReduce);
    case PollJob(id) => PollInv(sys, id);
    case Get(now, i, pick) =>
      if i < |sys.st.jobs| {
        var id := sys.st.jobs[i];
        var job, h := sys.st.info[id], sys.history[id];
        GiveInv(job, h, id, now, pick);
        var (job', a) := Offer(job, id, now, pick).value;
        OneJob(sys, id, job', h.(given := h.given + {(a.task, a.reduce)}));
      }
    case Finish(id, task, reduce, success) =>
      if id in sys.st.info {
        var job, h := sys.st.info[id], sys.history[id];
        if success {
          ReportInv(job, h, task, reduce);
          OneJob(sys, id, Report(job, task, reduce, true), Noted(h, task, reduce));
        } else {
          FailInv(job, h, task, reduce);
          OneJob(sys, id, Report(job, task, reduce, false), h);
          assert sys.history[id := h] == sys.history;
        }
      }
  }

  lemma FailInv(job: Job, h: History, task: nat, reduce: bool)
    requires JobInv(job, h)
    ensures JobInv(Report(job, task, reduce, false), h)
  {
    var job' := Report(job, task, reduce, false);
    forall u ensures TaskOk(job', u) && PlaceOk(job', h, u) { assert TaskOk(job, u) && PlaceOk(job, h, u); }
    if NoRepeats(h) {
      forall u ensures TableOk(job', h, u) { assert TableOk(job, h, u); }
    }
  }

  function Start(): System { System(State(0, [], map[]), map[]) }

  ghost predicate Allowed(sys: System, ms: seq<Message>)
    decreases |ms|
  {
    ms != [] ==> Enabled(sys, ms[0]) && Allowed(Step(sys, ms[0]), ms[1..])
  }

  ghost function Run(sys: System, ms: seq<Message>): System
    requires Allowed(sys, ms)
    decreases |ms|
  {
    if ms == [] then sys else Run(Step(sys, ms[0]), ms[1..])
  }

  lemma {:induction false} RunInv(sys: System, ms: seq<Message>)
    requires Inv(sys) && Allowed(sys, ms)
    ensures Inv(Run(sys, ms))
    decreases |ms|
  {
    if ms != [] {
      StepInv(sys, ms[0]);
      RunInv(Step(sys, ms[0]), ms[1..]);
    }
  }

  ghost predicate Reachable(sys: System) {
    exists ms :: Allowed(Start(), ms) && sys == Run(Start(), ms)
  }

  lemma ReachableInv(sys: System)
    requires Reachable(sys)
    ensures Inv(sys)
  {
    var ms :| Allowed(Start(), ms) && sys == Run(Start(), ms);
    RunInv(Start(), ms);
  }

  /* ---- What every run guarantees ---- */

  /** All tasks of a job have been reported. */
  ghost predicate AllMapsIn(job: Job, h: History) {
    forall t: nat :: t < |job.files| ==> t in h.mapReports
  }

  ghost predicate AllReducesIn(job: Job, h: History) {
    forall t: nat :: t < job.nReduce ==> t in h.reduceReports
  }

  /** A task comes from a job that is not done. It is the next fresh one of its kind, or one that was given before,
      has not been reported and is overdue. A map task comes with its own input file. */
  lemma GivenInOrder(sys: System, now: int, i: nat, pick: Option<nat>)
    requires Reachable(sys) && Serves(sys.st, now, i, pick)
    ensures var r := DoGet(sys.st, now, i, pick).1;
            r.Some? ==>
              var a := r.value;
              a.job in sys.st.info && a.job in sys.history &&
              var job, h := sys.st.info[a.job], sys.history[a.job];
              && !job.done
              && (!a.reduce ==> a.task < |job.files| && a.file == job.files[a.task])
              && ((a.task, a.reduce) !in h.given ==> a.task == if a.reduce then job.reduceAssigned else job.mapAssigned)
              && ((a.task, a.reduce) in h.given ==>
                    a.task in job.tasks && Late(job.tasks[a.task], now) && job.tasks[a.task].reduce == a.reduce)
              && (forall t: nat :: t < a.task ==> (t, a.reduce) in h.given)
  {
    ReachableInv(sys);
    if i < |sys.st.jobs| {
      var id := sys.st.jobs[i];
      assert JobInv(sys.st.info[id], sys.history[id]);
      if pick.Some? {
        assert TaskOk(sys.st.info[id], pick.value);
      }
    }
  }

  /* ---- When the answer is "wait" ---- */

  /** The task went out ten seconds ago or more, and is not reported. */
  predicate TimedOut(t: Task, now: int) { t.start + 10 <= now && !t.complete }

  /** Some map task has not gone out, and not as many map reports as files have come in. */
  ghost predicate MapLeft(job: Job, h: History) {
    |h.mapReports| < |job.files| && exists t: nat :: t < |job.files| && (t, false) !in h.given
  }

  /** As many map reports as files have come in, some reduce task has not gone out, and not as many reduce reports as
      reduce tasks have come in. */
  ghost predicate ReduceLeft(job: Job, h: History) {
    && |h.mapReports| == |job.files| && |h.reduceReports| < job.nReduce
    && exists t: nat :: t < job.nReduce && (t, true) !in h.given
  }

  ghost predicate HasTimedOut(job: Job, now: int) { exists t :: t in job.tasks && TimedOut(job.tasks[t], now) }

  /** A job has something for a worker. */
  ghost predicate HasWork(job: Job, h: History, now: int) {
    !job.done && (HasTimedOut(job, now) || MapLeft(job, h) || ReduceLeft(job, h))
  }

  lemma MapLeftIff(job: Job, h: History)
    requires JobInv(job, h)
    ensures MapLeft(job, h) <==> MapReady(job)
  {
    if MapReady(job) {
      assert (job.mapAssigned, false) !in h.given;
    }
  }

  lemma ReduceLeftIff(job: Job, h: History)
    requires JobInv(job, h)
    ensures ReduceLeft(job, h) <==> ReduceReady(job)
  {
    if ReduceReady(job) {
      assert (job.reduceAssigned, true) !in h.given;
    }
  }

  lemma HasWorkIff(job: Job, h: History, now: int)
    requires JobInv(job, h)
    ensures HasWork(job, h, now) <==> !Skipped(job, now)
  {
    MapLeftIff(job, h);
    ReduceLeftIff(job, h);
    assert forall t :: t in job.tasks ==> (TimedOut(job.tasks[t], now) <==> Late(job.tasks[t], now));
  }

  /** Job `k` of the queue has something for a worker. */
  ghost predicate WorkAt(sys: System, k: nat, now: int) {
    && k < |sys.st.jobs| && sys.st.jobs[k] in sys.st.info && sys.st.jobs[k] in sys.history
    && HasWork(sys.st.info[sys.st.jobs[k]], sys.history[sys.st.jobs[k]], now)
  }

  lemma WorkAtIff(sys: System, k: nat, now: int)
    requires Inv(sys) && k < |sys.st.jobs|
    ensures sys.st.jobs[k] in sys.st.info && (WorkAt(sys, k, now) <==> !Skipped(sys.st.info[sys.st.jobs[k]], now))
  {
    var id := sys.st.jobs[k];
    assert id in sys.st.info && id in sys.history && JobInv(sys.st.info[id], sys.history[id]);
    HasWorkIff(sys.st.info[id], sys.history[id], now);
  }

  /** The answer to `GET_TASK` is "wait" exactly if no job in the queue has anything for a worker. */
  lemma WaitIff(sys: System, now: int, i: nat, pick: Option<nat>)
    requires Reachable(sys) && Serves(sys.st, now, i, pick)
    ensures DoGet(sys.st, now, i, pick).1 == None <==> forall k: nat :: k < |sys.st.jobs| ==> !WorkAt(sys, k, now)
  {
    ReachableInv(sys);
    forall k: nat | k < |sys.st.jobs|
      ensures WorkAt(sys, k, now) <==> !Skipped(sys.st.info[sys.st.jobs[k]], now) {
      WorkAtIff(sys, k, now);
    }
    if i < |sys.st.jobs| {
      assert WorkAt(sys, i, now);
    }
  }

  /** The first job in the queue that has something for a worker is served: with a timed-out task as it was given
      before, if it has one, else with a map task that has not gone out, else with a reduce task that has not. */
  lemma FirstIsServed(sys: System, now: int, i: nat, pick: Option<nat>, k: nat)
    requires Reachable(sys) && Serves(sys.st, now, i, pick)
    requires WorkAt(sys, k, now) && (forall m: nat :: m < k ==> !WorkAt(sys, m, now))
    ensures var r, id := DoGet(sys.st, now, i, pick).1, sys.st.jobs[k];
            var job, h := sys.st.info[id], sys.history[id];
            && r.Some? && r.value.job == id
            && var a := r.value;
               if HasTimedOut(job, now) then
                 && a.task in job.tasks && TimedOut(job.tasks[a.task], now) && (a.task, a.reduce) in h.given
                 && a.reduce == job.tasks[a.task].reduce && a.file == job.tasks[a.task].file
               else
                 && (a.task, a.reduce) !in h.given && (a.reduce <==> !MapLeft(job, h))
                 && (!a.reduce ==> a.task < |job.files| && a.file == job.files[a.task])
  {
    ReachableInv(sys);
    WorkAtIff(sys, k, now);
    forall m: nat | m < k ensures Skipped(sys.st.info[sys.st.jobs[m]], now) {
      WorkAtIff(sys, m, now);
    }
    assert i == k;
    Answered(sys.st.info[sys.st.jobs[k]], sys.history[sys.st.jobs[k]], sys.st.jobs[k], now, pick);
  }

  /** What a job with work answers. */
  lemma Answered(job: Job, h: History, id: int, now: int, pick: Option<nat>)
    requires JobInv(job, h) && PickOk(job, now, pick) && !Skipped(job, now)
    ensures Offer(job, id, now, pick).Some?
    ensures var a := Offer(job, id, now, pick).value.1;
            if HasTimedOut(job, now) then
              && a.task in job.tasks && TimedOut(job.tasks[a.task], now) && (a.task, a.reduce) in h.given
              && a.reduce == job.tasks[a.task].reduce && a.file == job.tasks[a.task].file
            else
              && (a.task, a.reduce) !in h.given && (a.reduce <==> !MapLeft(job, h))
              && (!a.reduce ==> a.task < |job.files| && a.file == job.files[a.task])
  {
    MapLeftIff(job, h);
    assert HasTimedOut(job, now) <==> pick.Some? by {
      if pick.Some? {
        assert TimedOut(job.tasks[pick.value], now);
      }
    }
    if pick.Some? {
      assert TaskOk(job, pick.value);
    }
  }

  /** A task that went out, is still out in the table, and timed out, of a job that is not done: the answer is not
      "wait". */
  lemma TimedOutIsServed(sys: System, now: int, i: nat, pick: Option<nat>, id: int, t: nat)
    requires Reachable(sys) && Serves(sys.st, now, i, pick) && id in sys.st.info
    requires !sys.st.info[id].done && t in sys.st.info[id].tasks && TimedOut(sys.st.info[id].tasks[t], now)
    ensures DoGet(sys.st, now, i, pick).1.Some?
  {
    ReachableInv(sys);
    QueuedUntilDone(sys);
    var k :| 0 <= k < |sys.st.jobs| && sys.st.jobs[k] == id;
    assert WorkAt(sys, k, now);
    WaitIff(sys, now, i, pick);
  }

  /** The first job from `n` on that has something to offer, and a late task of it, if there is any. */
  lemma {:induction false} SomeServed(st: State, now: int, n: nat) returns (i: nat, pick: Option<nat>)
    requires n <= |st.jobs| && (forall k :: 0 <= k < |st.jobs| ==> st.jobs[k] in st.info)
    requires forall k :: 0 <= k < n ==> Skipped(st.info[st.jobs[k]], now)
    ensures Serves(st, now, i, pick)
    decreases |st.jobs| - n
  {
    i, pick := n, None;
    if n < |st.jobs| {
      var job := st.info[st.jobs[n]];
      if Skipped(job, now) {
        i, pick := SomeServed(st, now, n + 1);
      } else if t :| t in job.tasks && Late(job.tasks[t], now) {
        pick := Some(t);
      }
    }
  }

  /** No message is refused: jobs can be submitted and polled, and tasks asked for, at any time; and a worker can report
      a task that it was given and that the table knows. */
  lemma NothingIsRefused(sys: System, files: seq<string>, nReduce: int, id: int, now: int, task: nat, reduce: bool)
    returns (i: nat, pick: Option<nat>)
    requires Inv(sys)
    ensures Enabled(sys, Submit(files, nReduce)) && Enabled(sys, PollJob(id)) && Enabled(sys, Get(now, i, pick))
    ensures Enabled(sys, Finish(id, task, reduce, false))
    ensures id in sys.history && (task, reduce) in sys.history[id].given ==>
              Enabled(sys, Finish(id, task, reduce, true))
  {
    i, pick := SomeServed(sys.st, now, 0);
    if id in sys.history && (task, reduce) in sys.history[id].given {
      assert JobInv(sys.st.info[id], sys.history[id]);
    }
  }

  /* ---- The queue ---- */

  /** The queue is in the order of submission, and a job leaves it only when it is done. */
  ghost predicate QueueOk(sys: System) {
    && (forall k, m :: 0 <= k < m < |sys.st.jobs| ==> sys.st.jobs[k] < sys.st.jobs[m])
    && (forall id :: id in sys.st.info ==> id in sys.st.jobs || sys.st.info[id].done)
  }

  lemma SubmitQueue(sys: System, m: Message)
    requires Inv(sys) && m.Submit? && QueueOk(sys)
    ensures QueueOk(Step(sys, m))
  {
  }

  lemma PollQueue(sys: System, m: Message)
    requires Inv(sys) && m.PollJob? && QueueOk(sys)
    ensures QueueOk(Step(sys, m))
  {
    if m.id in sys.st.jobs && sys.st.info[m.id].done {
      var k := WithoutIs(sys.st.jobs, m.id);
      OthersStay(sys.st.jobs, k);
    }
  }

  lemma GetQueue(sys: System, m: Message)
    requires Inv(sys) && m.Get? && Enabled(sys, m) && QueueOk(sys)
    ensures QueueOk(Step(sys, m))
  {
  }

  lemma FinishQueue(sys: System, m: Message)
    requires Inv(sys) && m.Finish? && Enabled(sys, m) && QueueOk(sys)
    ensures QueueOk(Step(sys, m))
  {
  }

  lemma StepQueue(sys: System, m: Message)
    requires Inv(sys) && Enabled(sys, m) && QueueOk(sys)
    ensures QueueOk(Step(sys, m))
  {
    match m
    case Submit(_, _) => SubmitQueue(sys, m);
    case PollJob(_) => PollQueue(sys, m);
    case Get(_, _, _) => GetQueue(sys, m);
    case Finish(_, _, _, _) => FinishQueue(sys, m);
  }

  lemma {:induction false} RunQueue(sys: System, ms: seq<Message>)
    requires Inv(sys) && Allowed(sys, ms) && QueueOk(sys)
    ensures QueueOk(Run(sys, ms))
    decreases |ms|
  {
    if ms != [] {
      StepInv(sys, ms[0]);
      StepQueue(sys, ms[0]);
      RunQueue(Step(sys, ms[0]), ms[1..]);
    }
  }

  /** Over every run, jobs are queued in the order of submission, and every job that is not done is in the queue. */
  lemma QueuedUntilDone(sys: System)
    requires Reachable(sys)
    ensures QueueOk(sys)
  {
    var ms :| Allowed(Start(), ms) && sys == Run(Start(), ms);
    RunQueue(Start(), ms);
  }

  lemma OthersStay(s: seq<int>, k: nat)
    requires k < |s| && (forall i, j :: 0 <= i < j < |s| ==> s[i] < s[j])
    ensures var r := s[..k] + s[k + 1..];
            (forall i, j :: 0 <= i < j < |r| ==> r[i] < r[j]) && (forall x :: x in s && x != s[k] ==> x in r)
  {
    var r := s[..k] + s[k + 1..];
    forall x | x in s && x != s[k] ensures x in r {
      var i :| 0 <= i < |s| && s[i] == x;
      assert i < k ==> r[i] == x;
      assert i > k ==> r[i - 1] == x;
    }
  }

  /** What a message gives out. */
  ghost function Gives(sys: System, m: Message): Option<Assignment>
    requires Enabled(sys, m)
  {
    match m
    case Get(now, i, pick) => DoGet(sys.st, now, i, pick).1
    case _ => None
  }

  /** Some message of the run gives out this task. */
  ghost predicate GivenAgain(sys: System, ms: seq<Message>, id: int, task: nat, reduce: bool)
    requires Allowed(sys, ms)
    decreases |ms|
  {
    ms != [] &&
    (var r := Gives(sys, ms[0]);
     (r.Some? && r.value.job == id && r.value.task == task && r.value.reduce == reduce)
     || GivenAgain(Step(sys, ms[0]), ms[1..], id, task, reduce))
  }

  /** The clock of every `GET_TASK` is below `limit`. */
  ghost predicate Before(ms: seq<Message>, limit: int) {
    forall k :: 0 <= k < |ms| && ms[k].Get? ==> ms[k].now < limit
  }

  /** The task went out, and if its record is still in the table, it says that this was at `start`. */
  ghost predicate Started(sys: System, id: int, task: nat, reduce: bool, start: int) {
    && id in sys.st.info && id in sys.history && (task, reduce) in sys.history[id].given
    && (task in sys.st.info[id].tasks && sys.st.info[id].tasks[task].reduce == reduce ==>
          sys.st.info[id].tasks[task].start == start)
  }

  /** A `GET_TASK` seen by a task of job `id` that went out at `start`. */
  lemma OfferStarted(job: Job, h: History, id: int, now: int, pick: Option<nat>, task: nat, reduce: bool, start: int)
    requires JobInv(job, h) && !Skipped(job, now) && PickOk(job, now, pick) && now < start + TASK_TIMEOUT_SECS
    requires (task, reduce) in h.given
             && (task in job.tasks && job.tasks[task].reduce == reduce ==> job.tasks[task].start == start)
    ensures var (job', a) := Offer(job, id, now, pick).value;
            && !(a.task == task && a.reduce == reduce)
            && (task in job'.tasks && job'.tasks[task].reduce == reduce ==> job'.tasks[task].start == start)
  {
    if pick.Some? {
      assert TaskOk(job, pick.value);
    }
  }

  lemma StepStarted(sys: System, m: Message, id: int, task: nat, reduce: bool, start: int)
    requires Inv(sys) && Enabled(sys, m) && Started(sys, id, task, reduce, start)
    requires m.Get? ==> m.now < start + TASK_TIMEOUT_SECS
    ensures Started(Step(sys, m), id, task, reduce, start)
    ensures var r := Gives(sys, m); !(r.Some? && r.value.job == id && r.value.task == task && r.value.reduce == reduce)
  {
    if m.Get? && m.i < |sys.st.jobs| && sys.st.jobs[m.i] == id {
      OfferStarted(sys.st.info[id], sys.history[id], id, m.now, m.pick, task, reduce, start);
    } else if m.Get? {
      OtherJobGets(sys, m, id);
    } else {
      QuietStarted(sys, m, id, task, reduce, start);
    }
  }

  lemma QuietStarted(sys: System, m: Message, id: int, task: nat, reduce: bool, start: int)
    requires Inv(sys) && Enabled(sys, m) && Started(sys, id, task, reduce, start) && !m.Get?
    ensures Started(Step(sys, m), id, task, reduce, start) && Gives(sys, m) == None
  {
  }

  lemma OtherJobGets(sys: System, m: Message, id: int)
    requires Inv(sys) && m.Get? && Enabled(sys, m) && id in sys.st.info
             && (m.i < |sys.st.jobs| ==> sys.st.jobs[m.i] != id)
    ensures var sys' := Step(sys, m);
            id in sys'.st.info && id in sys'.history && sys'.st.info[id] == sys.st.info[id]
            && sys'.history[id] == sys.history[id]
    ensures Gives(sys, m).Some? ==> Gives(sys, m).value.job != id
  {
  }

  lemma {:induction false} NotGivenAgain(sys: System, ms: seq<Message>, id: int, task: nat, reduce: bool, start: int)
    requires Inv(sys) && Allowed(sys, ms) && Started(sys, id, task, reduce, start)
             && Before(ms, start + TASK_TIMEOUT_SECS)
    ensures !GivenAgain(sys, ms, id, task, reduce)
    decreases |ms|
  {
    if ms != [] {
      StepInv(sys, ms[0]);
      StepStarted(sys, ms[0], id, task, reduce, start);
      NotGivenAgain(Step(sys, ms[0]), ms[1..], id, task, reduce, start);
    }
  }

  /** A task that goes out for the first time at `now` does not go out again in any run whose clock stays below
      `now + TASK_TIMEOUT_SECS`. */
  lemma NotAgainBeforeTimeout(sys: System, m: Message, ms: seq<Message>)
    requires Reachable(sys) && m.Get? && Allowed(sys, [m] + ms) && Before(ms, m.now + TASK_TIMEOUT_SECS)
    ensures Enabled(sys, m) && Allowed(Step(sys, m), ms)
    ensures var r := Gives(sys, m);
            r.Some? && r.value.job in sys.history
            && (r.value.task, r.value.reduce) !in sys.history[r.value.job].given ==>
              !GivenAgain(Step(sys, m), ms, r.value.job, r.value.task, r.value.reduce)
  {
    assert ([m] + ms)[0] == m && ([m] + ms)[1..] == ms;
    ReachableInv(sys);
    StepInv(sys, m);
    var r := Gives(sys, m);
    if r.Some? && r.value.job in sys.history && (r.value.task, r.value.reduce) !in sys.history[r.value.job].given {
      FreshStarted(sys, m);
      NotGivenAgain(Step(sys, m), ms, r.value.job, r.value.task, r.value.reduce, m.now);
    }
  }

  lemma FreshStarted(sys: System, m: Message)
    requires Inv(sys) && m.Get? && Enabled(sys, m)
    ensures var r := Gives(sys, m);
            r.Some? && r.value.job in sys.history
            && (r.value.task, r.value.reduce) !in sys.history[r.value.job].given ==>
              Started(Step(sys, m), r.value.job, r.value.task, r.value.reduce, m.now)
  {
    if m.i < |sys.st.jobs| {
      var id := sys.st.jobs[m.i];
      assert JobInv(sys.st.info[id], sys.history[id]);
      if m.pick.Some? {
        assert TaskOk(sys.st.info[id], m.pick.value);
      }
    }
  }

  /** With no repeated report, a reduce task goes out only after every map task of its job was reported. */
  lemma NoEarlyReduce(sys: System, now: int, i: nat, pick: Option<nat>)
    requires Reachable(sys) && Serves(sys.st, now, i, pick)
    ensures var r := DoGet(sys.st, now, i, pick).1;
            r.Some? && r.value.reduce ==>
              && r.value.job in sys.st.info && r.value.job in sys.history
              && (NoRepeats(sys.history[r.value.job]) ==> AllMapsIn(sys.st.info[r.value.job], sys.history[r.value.job]))
  {
    ReachableInv(sys);
    if i < |sys.st.jobs| {
      var id := sys.st.jobs[i];
      var job, h := sys.st.info[id], sys.history[id];
      assert JobInv(job, h);
      if pick.Some? {
        assert TaskOk(job, pick.value);
      }
      if NoRepeats(h) && job.mapCompleted == |job.files| {
        forall t: nat | t < |job.files| ensures t in h.mapReports { AllBelow(h.mapReports, |job.files|, t); }
      }
    }
  }

  /** With no repeated report, the table that map and reduce tasks share never loses a task that is still out. */
  lemma NothingLost(sys: System, id: int, t: nat, reduce: bool)
    requires Reachable(sys) && id in sys.history && (t, reduce) in sys.history[id].given && NoRepeats(sys.history[id])
    requires t !in (if reduce then sys.history[id].reduceReports else sys.history[id].mapReports)
    ensures id in sys.st.info && t in sys.st.info[id].tasks
    ensures var task := sys.st.info[id].tasks[t]; task.id == t && task.reduce == reduce && !task.complete
  {
    ReachableInv(sys);
    var job, h := sys.st.info[id], sys.history[id];
    assert JobInv(job, h);
    assert TaskOk(job, t) && TableOk(job, h, t) && PlaceOk(job, h, t);
    if !reduce {
      MapsAreIn(job, h, t);
    }
  }

  /** With no repeated report, a job that has not failed is done exactly when it has tasks and all are reported. */
  lemma DoneExactly(sys: System, id: int)
    requires Reachable(sys) && id in sys.st.info && id in sys.history && NoRepeats(sys.history[id])
             && !sys.st.info[id].failed
    ensures var job, h := sys.st.info[id], sys.history[id];
            job.done <==> AllMapsIn(job, h) && AllReducesIn(job, h) && 0 <= job.nReduce && 0 < |job.files| + job.nReduce
  {
    ReachableInv(sys);
    var job, h := sys.st.info[id], sys.history[id];
    assert JobInv(job, h);
    DistinctBound(h.mapReports, |job.files|);
    if 0 <= job.nReduce {
      ReducesBound(job, h);
    }
    if job.done {
      forall t: nat | t < |job.files| ensures t in h.mapReports { AllBelow(h.mapReports, |job.files|, t); }
      forall t: nat | t < job.nReduce ensures t in h.reduceReports { AllBelow(h.reduceReports, job.nReduce, t); }
    }
    if AllMapsIn(job, h) && AllReducesIn(job, h) && 0 <= job.nReduce {
      Covers(h.mapReports, |job.files|);
      Covers(h.reduceReports, job.nReduce);
    }
  }

  lemma ReducesBound(job: Job, h: History)
    requires Counted(job, h) && Distinct(h.reduceReports) && 0 <= job.nReduce
    ensures Below(h.reduceReports, job.nReduce) && |h.reduceReports| <= job.nReduce
  {
    DistinctBound(h.reduceReports, job.nReduce);
  }

  /** What any message may do to a job. */
  ghost predicate Moves(job: Job, job': Job) {
    && job'.files == job.files && job'.mapCompleted >= job.mapCompleted
    && (job.done ==> job'.done) && (job.failed ==> job'.failed)
    && (job.mapCompleted > |job.files| ==>
          job'.reduceAssigned == job.reduceAssigned && (job'.done ==> job.done || job'.failed))
  }

  lemma OfferMoves(job: Job, id: int, now: int, pick: Option<nat>)
    requires PickOk(job, now, pick) && !Skipped(job, now)
    ensures Moves(job, Offer(job, id, now, pick).value.0)
  {
  }

  lemma ReportMoves(job: Job, task: nat, reduce: bool, success: bool)
    requires success ==> task in job.tasks
    ensures Moves(job, Report(job, task, reduce, success))
  {
  }

  lemma StepMoves(sys: System, m: Message, id: int)
    requires Inv(sys) && Enabled(sys, m) && id in sys.st.info
    ensures id in Step(sys, m).st.info && Moves(sys.st.info[id], Step(sys, m).st.info[id])
  {
    if m.Get? {
      if m.i < |sys.st.jobs| && sys.st.jobs[m.i] == id {
        OfferMoves(sys.st.info[id], id, m.now, m.pick);
      } else {
        OtherJobGets(sys, m, id);
      }
    } else if m.Finish? && m.id == id {
      ReportMoves(sys.st.info[id], m.task, m.reduce, m.success);
    }
  }

  /** Neither `done` nor `failed` is ever taken back, and no job disappears. */
  lemma {:induction false} NeverReverts(sys: System, ms: seq<Message>, id: int)
    requires Inv(sys) && Allowed(sys, ms) && id in sys.st.info
    ensures var sys' := Run(sys, ms);
            && id in sys'.st.info && sys'.st.info[id].files == sys.st.info[id].files
            && (sys.st.info[id].done ==> sys'.st.info[id].done) && (sys.st.info[id].failed ==> sys'.st.info[id].failed)
    decreases |ms|
  {
    if ms != [] {
      StepInv(sys, ms[0]);
      StepMoves(sys, ms[0], id);
      NeverReverts(Step(sys, ms[0]), ms[1..], id);
    }
  }

  /* ---- Repeated reports ---- */

  /** The counters count tasks, and not just reports. */
  ghost predicate CountsTrue(job: Job, h: History) {
    job.mapCompleted == |Elements(h.mapReports)| && job.reduceCompleted == |Elements(h.reduceReports)|
  }

  /** The record of a task shows it as still out. This is what a handler could look up before it counts a report. */
  predicate StillOut(job: Job, task: nat, reduce: bool) {
    task in job.tasks && job.tasks[task].reduce == reduce && !job.tasks[task].complete
  }

  lemma CountsTrueIff(sys: System, id: int)
    requires Inv(sys) && id in sys.history
    ensures CountsTrue(sys.st.info[id], sys.history[id]) <==> NoRepeats(sys.history[id])
  {
    var h := sys.history[id];
    assert JobInv(sys.st.info[id], h);
    ElementsCount(h.mapReports);
    ElementsCount(h.reduceReports);
  }

  lemma DistinctAppend(s: seq<nat>, t: nat)
    requires Distinct(s)
    ensures Distinct(s + [t]) <==> t !in s
  {
    if Distinct(s + [t]) {
      DistinctPrefix(s, t);
    }
  }

  /** While no report was repeated, the next success report is no repetition exactly if its task is still out. */
  lemma RepeatIff(job: Job, h: History, task: nat, reduce: bool)
    requires JobInv(job, h) && NoRepeats(h) && (task, reduce) in h.given
    ensures NoRepeats(Noted(h, task, reduce)) <==> StillOut(job, task, reduce)
  {
    assert TableOk(job, h, task) && PlaceOk(job, h, task);
    if reduce {
      DistinctAppend(h.reduceReports, task);
    } else {
      DistinctAppend(h.mapReports, task);
      if task !in h.mapReports {
        MapsAreIn(job, h, task);
      }
    }
  }

  /** A success report keeps the counters true exactly if the record of its task shows the task as still out. */
  lemma ReportCountsIff(sys: System, id: int, task: nat, reduce: bool)
    requires Reachable(sys) && Enabled(sys, Finish(id, task, reduce, true)) && id in sys.st.info && id in sys.history
    requires CountsTrue(sys.st.info[id], sys.history[id])
    ensures var sys' := Step(sys, Finish(id, task, reduce, true));
            && id in sys'.st.info && id in sys'.history
            && (CountsTrue(sys'.st.info[id], sys'.history[id]) <==> StillOut(sys.st.info[id], task, reduce))
  {
    ReachableInv(sys);
    StepInv(sys, Finish(id, task, reduce, true));
    CountsTrueIff(sys, id);
    CountsTrueIff(Step(sys, Finish(id, task, reduce, true)), id);
    RepeatIff(sys.st.info[id], sys.history[id], task, reduce);
  }

  /** Every success report in `ms` is for a task that is still out. */
  ghost predicate Guarded(sys: System, ms: seq<Message>)
    requires Allowed(sys, ms)
    decreases |ms|
  {
    ms != [] ==>
      && (ms[0].Finish? && ms[0].success && ms[0].id in sys.st.info ==>
            StillOut(sys.st.info[ms[0].id], ms[0].task, ms[0].reduce))
      && Guarded(Step(sys, ms[0]), ms[1..])
  }

  ghost predicate Unrepeated(sys: System) { forall id :: id in sys.history ==> NoRepeats(sys.history[id]) }

  lemma StepUnrepeatedIff(sys: System, m: Message)
    requires Inv(sys) && Enabled(sys, m) && Unrepeated(sys)
    ensures Unrepeated(Step(sys, m)) <==>
              (m.Finish? && m.success && m.id in sys.st.info ==> StillOut(sys.st.info[m.id], m.task, m.reduce))
  {
    var sys' := Step(sys, m);
    if m.Finish? && m.success && m.id in sys.st.info {
      RepeatIff(sys.st.info[m.id], sys.history[m.id], m.task, m.reduce);
      assert sys'.history[m.id] == Noted(sys.history[m.id], m.task, m.reduce);
    } else {
      forall id | id in sys'.history ensures NoRepeats(sys'.history[id]) {
        assert id in sys.history ==> sys'.history[id].mapReports == sys.history[id].mapReports
                                     && sys'.history[id].reduceReports == sys.history[id].reduceReports;
      }
    }
  }

  /** A message adds at most one report to the history of a job. */
  lemma StepHistory(sys: System, m: Message, id: int)
    requires Inv(sys) && Enabled(sys, m) && id in sys.history
    ensures id in Step(sys, m).history
    ensures var h, h' := sys.history[id], Step(sys, m).history[id];
            && (h'.mapReports == h.mapReports || exists t :: h'.mapReports == h.mapReports + [t])
            && (h'.reduceReports == h.reduceReports || exists t :: h'.reduceReports == h.reduceReports + [t])
  {
  }

  /** A repetition is never undone. */
  lemma StepStaysFalse(sys: System, m: Message)
    requires Inv(sys) && Enabled(sys, m) && !Unrepeated(sys)
    ensures !Unrepeated(Step(sys, m))
  {
    var id :| id in sys.history && !NoRepeats(sys.history[id]);
    StepHistory(sys, m, id);
    RepeatStays(sys.history[id].mapReports, Step(sys, m).history[id].mapReports);
    RepeatStays(sys.history[id].reduceReports, Step(sys, m).history[id].reduceReports);
  }

  lemma RepeatStays(s: seq<nat>, s': seq<nat>)
    requires s' == s || exists t :: s' == s + [t]
    ensures Distinct(s') ==> Distinct(s)
  {
    if Distinct(s') && s' != s {
      var t :| s' == s + [t];
      DistinctPrefix(s, t);
    }
  }

  /** Over a whole run: no report was repeated exactly if each found its task still out. */
  lemma {:induction false} RunUnrepeatedIff(sys: System, ms: seq<Message>)
    requires Inv(sys) && Allowed(sys, ms)
    ensures Unrepeated(sys) ==> (Unrepeated(Run(sys, ms)) <==> Guarded(sys, ms))
    ensures !Unrepeated(sys) ==> !Unrepeated(Run(sys, ms))
    decreases |ms|
  {
    if ms != [] {
      StepInv(sys, ms[0]);
      RunUnrepeatedIff(Step(sys, ms[0]), ms[1..]);
      if Unrepeated(sys) { StepUnrepeatedIff(sys, ms[0]); } else { StepStaysFalse(sys, ms[0]); }
    }
  }

  /** The counters of every job are the numbers of its different reported tasks. */
  ghost predicate CountersTrue(sys: System) {
    forall id :: id in sys.history ==> id in sys.st.info && CountsTrue(sys.st.info[id], sys.history[id])
  }

  lemma CountersTrueIff(sys: System)
    requires Inv(sys)
    ensures CountersTrue(sys) <==> Unrepeated(sys)
  {
    forall id | id in sys.history
      ensures id in sys.st.info && (CountsTrue(sys.st.info[id], sys.history[id]) <==> NoRepeats(sys.history[id])) {
      CountsTrueIff(sys, id);
    }
  }

  /** Over a whole run: the counters stay true exactly if each success report found its task still out, and counters
      that are wrong stay wrong. */
  lemma RunTrueIff(sys: System, ms: seq<Message>)
    requires Inv(sys) && Allowed(sys, ms)
    ensures CountersTrue(Run(sys, ms)) <==> CountersTrue(sys) && Guarded(sys, ms)
  {
    RunInv(sys, ms);
    CountersTrueIff(sys);
    CountersTrueIff(Run(sys, ms));
    RunUnrepeatedIff(sys, ms);
  }

  /** When a fresh reduce task goes out, all map tasks were reported if and only if no map report was repeated. */
  lemma EarlyReduceIff(sys: System, now: int, i: nat, pick: Option<nat>)
    requires Reachable(sys) && Serves(sys.st, now, i, pick)
    ensures var r := DoGet(sys.st, now, i, pick).1;
            r.Some? && r.value.reduce ==>
              && r.value.job in sys.st.info && r.value.job in sys.history
              && ((r.value.task, true) !in sys.history[r.value.job].given ==>
                    (AllMapsIn(sys.st.info[r.value.job], sys.history[r.value.job])
                     <==> Distinct(sys.history[r.value.job].mapReports)))
  {
    ReachableInv(sys);
    if i < |sys.st.jobs| {
      var id := sys.st.jobs[i];
      var job, h := sys.st.info[id], sys.history[id];
      assert JobInv(job, h);
      if pick.Some? {
        assert TaskOk(job, pick.value);
      }
      if job.mapCompleted == |job.files| {
        MapsInIff(job, h);
      }
    }
  }

  /** A map task that is out and not reported is lost exactly if the reduce task with its number went out. */
  lemma MapTaskLostIff(sys: System, id: int, t: nat)
    requires Reachable(sys) && id in sys.history && (t, false) in sys.history[id].given
             && t !in sys.history[id].mapReports
    ensures id in sys.st.info && (!StillOut(sys.st.info[id], t, false) <==> (t, true) in sys.history[id].given)
  {
    ReachableInv(sys);
    assert JobInv(sys.st.info[id], sys.history[id]);
    assert PlaceOk(sys.st.info[id], sys.history[id], t);
  }

  /** A job that has as many reports as tasks has reports of all its tasks if and only if none was repeated. */
  lemma DoneTrulyIff(sys: System, id: int)
    requires Reachable(sys) && id in sys.st.info && id in sys.history && 0 <= sys.st.info[id].nReduce
    requires sys.st.info[id].mapCompleted == |sys.st.info[id].files|
             && sys.st.info[id].reduceCompleted == sys.st.info[id].nReduce
    ensures AllMapsIn(sys.st.info[id], sys.history[id]) && AllReducesIn(sys.st.info[id], sys.history[id]) <==>
              NoRepeats(sys.history[id])
  {
    ReachableInv(sys);
    var job, h := sys.st.info[id], sys.history[id];
    assert JobInv(job, h);
    MapsInIff(job, h);
    if Distinct(h.reduceReports) {
      forall t: nat | t < job.nReduce ensures t in h.reduceReports { AllBelow(h.reduceReports, job.nReduce, t); }
    }
    if AllReducesIn(job, h) {
      CoverIsDistinct(h.reduceReports, job.nReduce);
    }
  }

  lemma MapsInIff(job: Job, h: History)
    requires Counted(job, h) && job.mapCompleted == |job.files|
    ensures AllMapsIn(job, h) <==> Distinct(h.mapReports)
  {
    if Distinct(h.mapReports) {
      forall t: nat | t < |job.files| ensures t in h.mapReports { AllBelow(h.mapReports, |job.files|, t); }
    }
    if AllMapsIn(job, h) {
      CoverIsDistinct(h.mapReports, |job.files|);
    }
  }

  /** Too many map reports: no reduce task goes out any more, and the job is never done unless it fails. */
  lemma {:induction false} OvercountedForever(sys: System, ms: seq<Message>, id: int)
    requires Inv(sys) && Allowed(sys, ms) && id in sys.st.info
    requires sys.st.info[id].mapCompleted > |sys.st.info[id].files| && (sys.st.info[id].done ==> sys.st.info[id].failed)
    ensures var sys' := Run(sys, ms);
            && id in sys'.st.info && sys'.st.info[id].mapCompleted > |sys'.st.info[id].files|
            && !ReduceReady(sys'.st.info[id]) && sys'.st.info[id].reduceAssigned == sys.st.info[id].reduceAssigned
            && (sys'.st.info[id].done ==> sys'.st.info[id].failed)
    decreases |ms|
  {
    if ms != [] {
      StepInv(sys, ms[0]);
      StepMoves(sys, ms[0], id);
      OvercountedForever(Step(sys, ms[0]), ms[1..], id);
    }
  }

  /** One job with two files and one reduce task, and what is known about it. */
  function Single(job: Job, h: History): System { System(State(1, [0], map[0 := job]), map[0 := h]) }

  lemma SingleGives(job: Job, h: History)
    requires PickOk(job, 0, None) && !job.done && (MapReady(job) || ReduceReady(job))
    ensures Enabled(Single(job, h), Get(0, 0, None))
    ensures var (job', a) := Offer(job, 0, 0, None).value;
            Step(Single(job, h), Get(0, 0, None)) == Single(job', h.(given := h.given + {(a.task, a.reduce)}))
  {
    var sys := Single(job, h);
    assert sys.st.jobs[0] == 0;
    var (job', a) := Offer(job, 0, 0, None).value;
    assert sys.st.info[0 := job'] == map[0 := job'];
    assert sys.history[0 := h.(given := h.given + {(a.task, a.reduce)})]
             == map[0 := h.(given := h.given + {(a.task, a.reduce)})];
  }

  lemma SingleReports(job: Job, h: History, task: nat)
    requires (task, false) in h.given && task in job.tasks
    ensures Enabled(Single(job, h), Finish(0, task, false, true))
    ensures Step(Single(job, h), Finish(0, task, false, true))
              == Single(Report(job, task, false, true), Noted(h, task, false))
  {
    var sys, job' := Single(job, h), Report(job, task, false, true);
    assert sys.st.info[0 := job'] == map[0 := job'];
    assert sys.history[0 := Noted(h, task, false)] == map[0 := Noted(h, task, false)];
  }

  lemma {:induction false} RunAppend(sys: System, ms: seq<Message>, m: Message)
    requires Allowed(sys, ms) && Enabled(Run(sys, ms), m)
    ensures Allowed(sys, ms + [m]) && Run(sys, ms + [m]) == Step(Run(sys, ms), m)
    decreases |ms|
  {
    if ms == [] {
      assert Allowed(Step(sys, m), []);
      assert (ms + [m])[0] == m && (ms + [m])[1..] == [];
    } else {
      RunAppend(Step(sys, ms[0]), ms[1..], m);
      assert (ms + [m])[1..] == ms[1..] + [m] && (ms + [m])[0] == ms[0];
    }
  }

  lemma ReachableStep(sys: System, m: Message)
    requires Reachable(sys) && Enabled(sys, m)
    ensures Reachable(Step(sys, m))
  {
    var ms :| Allowed(Start(), ms) && sys == Run(Start(), ms);
    RunAppend(Start(), ms, m);
  }

  /** Both map tasks are out. */
  function Both(): (Job, History) {
    (Job(["a", "b"], 1, 2, 0, 0, 0,
         map[0 := Task(0, false, "a", 0, false), 1 := Task(1, false, "b", 0, false)], false, false),
     History({(0, false), (1, false)}, [], []))
  }

  lemma BothReachable()
    ensures Reachable(Single(Both().0, Both().1))
  {
    var j0, h0 := NewJob(["a", "b"], 1), History({}, [], []);
    assert Allowed(Start(), []) && Run(Start(), []) == Start();
    ReachableStep(Start(), Submit(["a", "b"], 1));
    assert Step(Start(), Submit(["a", "b"], 1)) == Single(j0, h0);
    SingleGives(j0, h0);
    ReachableStep(Single(j0, h0), Get(0, 0, None));
    var j1, h1 := Offer(j0, 0, 0, None).value.0, h0.(given := {(0, false)});
    assert h0.given + {(0, false)} == {(0, false)};
    SingleGives(j1, h1);
    ReachableStep(Single(j1, h1), Get(0, 0, None));
    assert h1.given + {(1, false)} == {(0, false), (1, false)};
    assert Offer(j1, 0, 0, None).value.0 == Both().0;
  }

  /** Both map tasks are out, and one was reported twice. */
  function Twice(): (Job, History) {
    (Job(["a", "b"], 1, 2, 2, 0, 0,
         map[0 := Task(0, false, "a", 0, false), 1 := Task(1, false, "b", 0, true)], false, false),
     History({(0, false), (1, false)}, [1, 1], []))
  }

  lemma TwiceReachable()
    ensures Reachable(Single(Twice().0, Twice().1))
  {
    BothReachable();
    var (j2, h2) := Both();
    SingleReports(j2, h2, 1);
    ReachableStep(Single(j2, h2), Finish(0, 1, false, true));
    var j3, h3 := Report(j2, 1, false, true), Noted(h2, 1, false);
    SingleReports(j3, h3, 1);
    ReachableStep(Single(j3, h3), Finish(0, 1, false, true));
    assert Report(j3, 1, false, true) == Twice().0 && Noted(h3, 1, false) == Twice().1;
  }

  /** When one of two map tasks is reported twice, a reduce task goes out although the other map task is still out, and
      takes the place of that map task in the table. */
  lemma RepeatedReportLosesTask()
    ensures exists sys ::
              && Reachable(sys) && 0 in sys.st.info && 0 in sys.history
              && (0, false) in sys.history[0].given && (0, true) in sys.history[0].given
              && 0 !in sys.history[0].mapReports
              && 0 in sys.st.info[0].tasks && sys.st.info[0].tasks[0].reduce
  {
    TwiceReachable();
    var (job, h) := Twice();
    SingleGives(job, h);
    ReachableStep(Single(job, h), Get(0, 0, None));
    var sys := Step(Single(job, h), Get(0, 0, None));
    assert (0, false) in sys.history[0].given && (0, true) in sys.history[0].given;
  }

  /** When the other map task is reported as well, the count is past its goal: all map tasks are reported, and yet no
      reduce task will ever go out and the job will never be done (see `OvercountedForever`). */
  lemma RepeatedReportStallsJob()
    ensures exists sys ::
              && Reachable(sys) && 0 in sys.st.info && 0 in sys.history && AllMapsIn(sys.st.info[0], sys.history[0])
              && sys.st.info[0].mapCompleted > |sys.st.info[0].files|
              && !sys.st.info[0].done && !sys.st.info[0].failed
              && sys.st.info[0].reduceAssigned < sys.st.info[0].nReduce
  {
    TwiceReachable();
    var (job, h) := Twice();
    SingleReports(job, h, 0);
    ReachableStep(Single(job, h), Finish(0, 0, false, true));
    var sys := Step(Single(job, h), Finish(0, 0, false, true));
    assert sys.history[0].mapReports == [1, 1, 0];
    assert sys.history[0].mapReports[2] == 0 && sys.history[0].mapReports[1] == 1;
  }
}
