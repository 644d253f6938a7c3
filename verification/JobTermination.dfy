/** How long runs of the job protocol are: every job has a bounded amount of work unless it is an upload to S3
    or becomes one, so finitely many requests give a run of bounded length; a failing upload is retried for
    ever. */
module JobTermination {
  import opened Finite
  import opened JobLimits
  import opened JobProtocol

  // ---- sums ----

  function Total(ns: seq<nat>): nat {
    if ns == [] then 0 else Total(ns[..|ns| - 1]) + ns[|ns| - 1]
  }

  lemma TotalAppend(ns: seq<nat>, n: nat)
    ensures Total(ns + [n]) == Total(ns) + n
  {
    assert (ns + [n])[..|ns|] == ns;
  }

  lemma {:induction false} TotalWithout(ns: seq<nat>, i: nat)
    requires i < |ns|
    ensures Total(Without(ns, i)) + ns[i] == Total(ns)
  {
    var front, last := ns[..|ns| - 1], ns[|ns| - 1];
    if i < |front| {
      TotalWithout(front, i);
      assert Without(ns, i) == Without(front, i) + [last];
      TotalAppend(Without(front, i), last);
    } else {
      assert Without(ns, i) == front;
    }
  }

  lemma {:induction false} TotalUpdate(ns: seq<nat>, i: nat, n: nat)
    requires i < |ns|
    ensures Total(ns[i := n]) + ns[i] == Total(ns) + n
  {
    var front, last := ns[..|ns| - 1], ns[|ns| - 1];
    if i < |front| {
      TotalUpdate(front, i, n);
      assert ns[i := n] == front[i := n] + [last];
      TotalAppend(front[i := n], last);
    } else {
      assert ns[i := n] == front + [n];
      TotalAppend(front, n);
    }
  }

  // ---- work ----

  /** Steps a queued job can still take: receive, acquire, finish and handle, once per start. */
  function JobWork(job: Job): nat {
    if job.retries < MAX_RETRIES then 4 * (MAX_RETRIES + 1 - job.retries) else 4
  }

  function TaskWork(task: Task): nat {
    match task.phase
    case Waiting => JobWork(task.job) - 1
    case Running(_) => JobWork(task.job) - 2
    case Finished(Retry(again)) => 1 + JobWork(again)
    case Finished(_) => 1
  }

  function JobWorks(jobs: seq<Job>): seq<nat> {
    seq(|jobs|, i requires 0 <= i < |jobs| => JobWork(jobs[i]))
  }

  function TaskWorks(tasks: seq<Task>): seq<nat> {
    seq(|tasks|, i requires 0 <= i < |tasks| => TaskWork(tasks[i]))
  }

  /** A checked request has its commit ahead of it as well. */
  function Work(st: State): nat {
    Total(JobWorks(st.channel)) + Total(TaskWorks(st.tasks)) + (Total(JobWorks(st.checked)) + |st.checked|)
  }

  /** A job that cannot go on failing for ever: on a local disk an upload always succeeds, and in an S3
      process only a migration is no upload and does not turn into one. */
  predicate Calm(s3: bool, job: Job) {
    s3 ==> job.kind == Migrate
  }

  predicate CalmTask(s3: bool, task: Task) {
    && Calm(s3, task.job)
    && match task.phase
       case Finished(Retry(again)) => Calm(s3, again)
       case Finished(Next(_)) => false
       case _ => true
  }

  /** In an S3 process no upload is under way or will be, and in a local one no job follows another. */
  predicate AllCalm(st: State) {
    && st.late == []
    && (forall i | 0 <= i < |st.channel| :: Calm(st.s3, st.channel[i]))
    && (forall i | 0 <= i < |st.checked| :: Calm(st.s3, st.checked[i]))
    && (forall i | 0 <= i < |st.tasks| :: CalmTask(st.s3, st.tasks[i]))
  }

  predicate IsRequest(step: Step) {
    step.Admit? || step.Check?
  }

  /** A request, if the step is one, is for a calm job. */
  predicate CalmStep(s3: bool, step: Step) {
    IsRequest(step) ==> !(s3 && step.kind == Convert)
  }

  predicate CalmSteps(s3: bool, steps: seq<Step>) {
    forall i | 0 <= i < |steps| :: CalmStep(s3, steps[i])
  }

  /** What a request to the API can add to the work. */
  function Added(step: Step): nat {
    match step
    case Admit(_, _, _) => 25
    case Check(_, _, _) => 26
    case _ => 0
  }

  lemma JobWorksAppend(jobs: seq<Job>, job: Job)
    ensures Total(JobWorks(jobs + [job])) == Total(JobWorks(jobs)) + JobWork(job)
  {
    assert JobWorks(jobs + [job]) == JobWorks(jobs) + [JobWork(job)];
    TotalAppend(JobWorks(jobs), JobWork(job));
  }

  lemma JobWorksWithout(jobs: seq<Job>, k: nat)
    requires k < |jobs|
    ensures Total(JobWorks(Without(jobs, k))) + JobWork(jobs[k]) == Total(JobWorks(jobs))
  {
    assert JobWorks(Without(jobs, k)) == Without(JobWorks(jobs), k);
    TotalWithout(JobWorks(jobs), k);
  }

  lemma TaskWorksAppend(tasks: seq<Task>, task: Task)
    ensures Total(TaskWorks(tasks + [task])) == Total(TaskWorks(tasks)) + TaskWork(task)
  {
    assert TaskWorks(tasks + [task]) == TaskWorks(tasks) + [TaskWork(task)];
    TotalAppend(TaskWorks(tasks), TaskWork(task));
  }

  lemma TaskWorksWithout(tasks: seq<Task>, i: nat)
    requires i < |tasks|
    ensures Total(TaskWorks(Without(tasks, i))) + TaskWork(tasks[i]) == Total(TaskWorks(tasks))
  {
    assert TaskWorks(Without(tasks, i)) == Without(TaskWorks(tasks), i);
    TotalWithout(TaskWorks(tasks), i);
  }

  lemma TaskWorksUpdate(tasks: seq<Task>, i: nat, task: Task)
    requires i < |tasks|
    ensures Total(TaskWorks(tasks[i := task])) + TaskWork(tasks[i]) == Total(TaskWorks(tasks)) + TaskWork(task)
  {
    assert TaskWorks(tasks[i := task]) == TaskWorks(tasks)[i := TaskWork(task)];
    TotalUpdate(TaskWorks(tasks), i, TaskWork(task));
  }

  // ---- every step takes some work away ----

  lemma RequestAdds(st: State, step: Step)
    requires AllCalm(st) && Enabled(st, step) && IsRequest(step) && CalmStep(st.s3, step)
    ensures var st' := Apply(st, step); AllCalm(st') && Work(st') + 1 <= Work(st) + Added(step)
  {
    if !AlreadyExists(st, step.id) {
      var job := NewJob(st, step.id, step.kind, step.permits);
      JobWorksAppend(st.channel, job);
      JobWorksAppend(st.checked, job);
    }
  }

  lemma CommitWorks(st: State, k: nat)
    requires AllCalm(st) && Enabled(st, Commit(k))
    ensures var st' := Apply(st, Commit(k)); AllCalm(st') && Work(st') < Work(st)
  {
    JobWorksAppend(st.channel, st.checked[k]);
    JobWorksWithout(st.checked, k);
  }

  lemma ReceiveWorks(st: State)
    requires AllCalm(st) && Enabled(st, Receive)
    ensures var st' := Apply(st, Receive); AllCalm(st') && Work(st') < Work(st)
  {
    JobWorksWithout(st.channel, 0);
    assert Without(st.channel, 0) == st.channel[1..];
    TaskWorksAppend(st.tasks, Task(st.channel[0], Waiting));
  }

  lemma AcquireWorks(st: State, i: nat)
    requires AllCalm(st) && Enabled(st, Acquire(i))
    ensures var st' := Apply(st, Acquire(i)); AllCalm(st') && Work(st') < Work(st)
  {
    var job := st.tasks[i].job;
    assert CalmTask(st.s3, st.tasks[i]);
    TaskWorksUpdate(st.tasks, i, Task(job, Running(Request(st, job))));
  }

  lemma FinishWorks(st: State, i: nat, ok: bool)
    requires AllCalm(st) && Enabled(st, Finish(i, ok))
    ensures var st' := Apply(st, Finish(i, ok)); AllCalm(st') && Work(st') < Work(st)
  {
    var job := st.tasks[i].job;
    assert CalmTask(st.s3, st.tasks[i]);
    TaskWorksUpdate(st.tasks, i, Task(job, Finished(Outcome(st, job, ok))));
  }

  lemma HandleWorks(st: State, i: nat)
    requires AllCalm(st) && Enabled(st, Handle(i))
    ensures var st' := Apply(st, Handle(i)); AllCalm(st') && Work(st') < Work(st)
  {
    var result := st.tasks[i].phase.result;
    assert CalmTask(st.s3, st.tasks[i]);
    TaskWorksWithout(st.tasks, i);
    if result.Retry? {
      JobWorksAppend(st.channel, result.again);
    }
  }

  lemma StepWorks(st: State, step: Step)
    requires AllCalm(st) && Enabled(st, step) && CalmStep(st.s3, step)
    ensures var st' := Apply(st, step); AllCalm(st') && Work(st') + 1 <= Work(st) + Added(step)
  {
    match step
    case Admit(_, _, _) => RequestAdds(st, step);
    case Check(_, _, _) => RequestAdds(st, step);
    case Commit(k) => CommitWorks(st, k);
    case Receive => ReceiveWorks(st);
    case Acquire(i) => AcquireWorks(st, i);
    case Finish(i, ok) => FinishWorks(st, i, ok);
    case Handle(i) => HandleWorks(st, i);
    case LateAdd(_) =>
  }

  // ---- whole runs ----

  function Requests(steps: seq<Step>): nat {
    if steps == [] then 0 else (if IsRequest(steps[0]) then 1 else 0) + Requests(steps[1..])
  }

  lemma {:induction false} RunsAreBounded(st: State, steps: seq<Step>)
    requires AllCalm(st) && AllEnabled(st, steps) && CalmSteps(st.s3, steps)
    ensures |steps| + Work(Reached(st, steps)) <= Work(st) + 26 * Requests(steps)
    decreases |steps|
  {
    if steps != [] {
      assert CalmStep(st.s3, steps[0]);
      StepWorks(st, steps[0]);
      RunsAreBounded(Apply(st, steps[0]), steps[1..]);
    }
  }

  lemma {:induction false} FreshWork(jobs: seq<Job>)
    requires forall i | 0 <= i < |jobs| :: jobs[i].retries == 0
    ensures Total(JobWorks(jobs)) == 24 * |jobs|
  {
    if jobs != [] {
      FreshWork(jobs[..|jobs| - 1]);
      assert jobs == jobs[..|jobs| - 1] + [jobs[|jobs| - 1]];
      JobWorksAppend(jobs[..|jobs| - 1], jobs[|jobs| - 1]);
    }
  }

  /** Stored jobs that are all calm. */
  predicate CalmJobs(s3: bool, jobs: seq<Job>) {
    forall i | 0 <= i < |jobs| :: Calm(s3, jobs[i])
  }

  /** With calm jobs only, no run of a process is longer than 24 steps for every stored job and 26 for every
      request: with finitely many requests all jobs are settled after finitely many steps. */
  lemma RunsEnd(s3: bool, convertPermits: nat, migratePermits: nat, stored: seq<Job>, steps: seq<Step>)
    requires CalmJobs(s3, stored) && CalmSteps(s3, steps)
    requires AllEnabled(Start(s3, convertPermits, migratePermits, stored), steps)
    ensures |steps| <= 24 * |stored| + 26 * Requests(steps)
  {
    var st := Start(s3, convertPermits, migratePermits, stored);
    FreshWork(st.channel);
    RunsAreBounded(st, steps);
  }

  /** While a task is there, some step that is no request can be taken. */
  lemma BusyCanGoOn(st: State)
    requires PermitsFit(st) && st.tasks != []
    ensures exists step :: Enabled(st, step) && !IsRequest(step)
  {
    match st.tasks[0].phase
    case Waiting =>
      NoDeadlock(st, 0);
      if Enabled(st, Acquire(0)) {
        assert !IsRequest(Acquire(0));
      } else {
        var j :| 0 <= j < |st.tasks| && st.tasks[j].job.kind == st.tasks[0].job.kind && Enabled(st, Finish(j, true));
        assert !IsRequest(Finish(j, true));
      }
    case Running(_) => assert Enabled(st, Finish(0, true)) && !IsRequest(Finish(0, true));
    case Finished(_) => assert Enabled(st, Handle(0)) && !IsRequest(Handle(0));
  }

  lemma PendingIsLive(st: State)
    requires NoneStranded(st) && st.pending != []
    ensures st.channel != [] || st.tasks != []
  {
    var id := st.pending[0].id;
    assert Ids(st.pending)[0] == id;
    assert AlreadyExists(st, id);
    assert Live(st, id);
  }

  /** Only a new request can go on from here. */
  ghost predicate Quiet(st: State) {
    forall step | Enabled(st, step) :: IsRequest(step)
  }

  /** A quiet state in which no job is stranded is one in which everything is settled. */
  lemma QuietMeansSettled(st: State)
    requires PermitsFit(st) && NoneStranded(st) && Quiet(st)
    ensures st.channel == [] && st.tasks == [] && st.checked == [] && st.late == [] && st.pending == []
  {
    assert !Enabled(st, Receive) && !Enabled(st, Commit(0)) && !Enabled(st, LateAdd(0));
    if st.tasks != [] {
      BusyCanGoOn(st);
    } else if st.pending != [] {
      PendingIsLive(st);
    }
  }

  lemma {:induction false} CleanRunKeeps(st: State, steps: seq<Step>)
    requires Safe(st) && NoneStranded(st) && AllCalm(st) && PermitsFit(st)
    requires CleanRun(st, steps) && CalmSteps(st.s3, steps)
    ensures var st' := After(st, steps); Safe(st') && NoneStranded(st') && AllCalm(st') && PermitsFit(st')
    ensures AllEnabled(st, steps)
    decreases |steps|
  {
    if steps != [] {
      if steps[0].Commit? {
        CommitIsSafeIff(st, steps[0].request);
      } else {
        StepIsSafe(st, steps[0]);
      }
      assert CalmStep(st.s3, steps[0]);
      OnlyLateAddStrands(st, steps[0]);
      StepWorks(st, steps[0]);
      StepKeepsPermits(st, steps[0]);
      CleanRunKeeps(Apply(st, steps[0]), steps[1..]);
    }
  }

  /** Liveness with calm jobs only: a clean run is bounded by its requests, and when it can only go on by a
      new request, nothing is pending, queued or running any more. */
  lemma RunsSettle(s3: bool, convertPermits: nat, migratePermits: nat, stored: seq<Job>, steps: seq<Step>)
    requires Distinct(Ids(stored)) && CalmJobs(s3, stored) && CalmSteps(s3, steps)
    requires CleanRun(Start(s3, convertPermits, migratePermits, stored), steps)
    ensures |steps| <= 24 * |stored| + 26 * Requests(steps)
    ensures var st := After(Start(s3, convertPermits, migratePermits, stored), steps);
            Quiet(st) ==> st.channel == [] && st.tasks == [] && st.checked == [] && st.pending == []
  {
    var st := Start(s3, convertPermits, migratePermits, stored);
    StartIsSafe(s3, convertPermits, migratePermits, stored);
    StartFits(s3, convertPermits, migratePermits, stored);
    assert Ids(st.channel) == Ids(st.pending);
    CleanRunKeeps(st, steps);
    RunsEnd(s3, convertPermits, migratePermits, stored, steps);
    if Quiet(After(st, steps)) {
      QuietMeansSettled(After(st, steps));
    }
  }

  // ---- runs without end ----

  /** From here a run of at least n steps can be taken without any request. */
  ghost predicate CanRun(st: State, n: nat) {
    exists steps :: AllEnabled(st, steps) && Requests(steps) == 0 && |steps| >= n
  }

  lemma StepFirst(st: State, step: Step, n: nat)
    requires Enabled(st, step) && !IsRequest(step) && CanRun(Apply(st, step), n)
    ensures CanRun(st, n) && CanRun(st, n + 1)
  {
    var rest :| AllEnabled(Apply(st, step), rest) && Requests(rest) == 0 && |rest| >= n;
    assert ([step] + rest)[1..] == rest;
    assert AllEnabled(st, [step] + rest) && Requests([step] + rest) == 0;
  }

  predicate AllWaiting(tasks: seq<Task>) {
    forall i | 0 <= i < |tasks| :: tasks[i].phase == Waiting
  }

  lemma {:induction false} WaitingHoldNothing(tasks: seq<Task>, kind: Kind)
    requires AllWaiting(tasks)
    ensures Held(tasks, kind) == 0
  {
    if tasks != [] {
      WaitingHoldNothing(tasks[..|tasks| - 1], kind);
    }
  }

  /** The task at i takes its permits, ends and is handled, while all others wait. */
  lemma Round(st: State, i: nat, ok: bool, st': State, n: nat)
    requires i < |st.tasks| && AllWaiting(st.tasks)
    requires var job := st.tasks[i].job;
             var s1 := st.(tasks := st.tasks[i := Task(job, Running(Request(st, job)))], started := st.started + [job]);
             && MayEnd(st.s3, job, ok)
             && var s2 := Apply(s1, Finish(i, ok));
             st' == Apply(s2, Handle(i))
    requires CanRun(st', n)
    ensures CanRun(st, n + 1)
  {
    var job := st.tasks[i].job;
    WaitingHoldNothing(st.tasks, job.kind);
    var s1 := st.(tasks := st.tasks[i := Task(job, Running(Request(st, job)))], started := st.started + [job]);
    assert Apply(st, Acquire(i)) == s1;
    var s2 := Apply(s1, Finish(i, ok));
    StepFirst(s2, Handle(i), n);
    StepFirst(s1, Finish(i, ok), n);
    StepFirst(st, Acquire(i), n);
  }

  /** In an S3 process an upload that is queued while nothing else is in its way fails and is queued again,
      as often as one likes. */
  lemma {:induction false} UploadsRetryForever(st: State, n: nat)
    requires st.s3 && |st.channel| == 1 && st.channel[0].kind == Upload
    requires AllWaiting(st.tasks) && st.channel[0].id !in TaskIds(st.tasks)
    ensures CanRun(st, n)
    decreases n
  {
    var job := st.channel[0];
    if n == 0 {
      assert AllEnabled(st, []) && Requests([]) == 0;
    } else {
      var i := |st.tasks|;
      var s1 := st.(channel := [], tasks := st.tasks + [Task(job, Waiting)]);
      var s4 := st.(started := st.started + [job]);
      UploadsRetryForever(s4, n - 1);
      assert Without(st.tasks + [Task(job, Waiting)], i) == st.tasks;
      assert st.channel == [job];
      Round(s1, i, false, s4, n - 1);
      assert Apply(st, Receive) == s1;
      StepFirst(st, Receive, n);
    }
  }

  /** A waiting job that is an upload, or becomes one, can be brought to the state above. */
  lemma FirstUpload(st: State, n: nat)
    requires st.channel == [] && st.tasks != [] && AllWaiting(st.tasks)
    requires !Calm(st.s3, st.tasks[0].job)
    requires forall i | 0 < i < |st.tasks| :: st.tasks[i].job.id != st.tasks[0].job.id
    ensures CanRun(st, n)
  {
    var job, rest := st.tasks[0].job, st.tasks[1..];
    var ok := job.kind == Convert;
    var s1 := st.(tasks := st.tasks[0 := Task(job, Running(Request(st, job)))], started := st.started + [job]);
    var s3 := Apply(Apply(s1, Finish(0, ok)), Handle(0));
    assert s3.tasks == rest;
    assert |s3.channel| == 1 && s3.channel[0].kind == Upload && s3.channel[0].id == job.id;
    UploadsRetryForever(s3, n);
    Round(st, 0, ok, s3, n);
    CanRunLess(st, n);
  }

  lemma CanRunLess(st: State, n: nat)
    requires CanRun(st, n + 1)
    ensures CanRun(st, n)
  {
    var steps :| AllEnabled(st, steps) && Requests(steps) == 0 && |steps| >= n + 1;
  }

  /** Behind it, everything that is queued is received first. */
  lemma {:induction false} ReceiveRest(st: State, n: nat)
    requires st.tasks != [] && AllWaiting(st.tasks) && !Calm(st.s3, st.tasks[0].job)
    requires forall i | 0 < i < |st.tasks| :: st.tasks[i].job.id != st.tasks[0].job.id
    ensures CanRun(st, n)
    decreases |st.channel|
  {
    if st.channel == [] {
      FirstUpload(st, n);
    } else {
      assert TaskIds(st.tasks)[0] == st.tasks[0].job.id;
      ReceiveRest(Apply(st, Receive), n);
      StepFirst(st, Receive, n);
    }
  }

  /** Before it, the calm jobs are done one after the other. */
  lemma {:induction false} CalmFirst(st: State, k: nat, n: nat)
    requires st.tasks == [] && k < |st.channel| && !Calm(st.s3, st.channel[k])
    ensures CanRun(st, n)
    decreases k
  {
    var job := st.channel[0];
    var s1 := st.(channel := st.channel[1..], tasks := [Task(job, Waiting)]);
    assert TaskIds([]) == [];
    assert Apply(st, Receive) == s1;
    if !Calm(st.s3, job) {
      ReceiveRest(s1, n);
    } else {
      var s2 := s1.(tasks := s1.tasks[0 := Task(job, Running(Request(s1, job)))], started := s1.started + [job]);
      var s4 := Apply(Apply(s2, Finish(0, true)), Handle(0));
      assert s4.tasks == [] && s4.channel == st.channel[1..];
      CalmFirst(s4, k - 1, n);
      Round(s1, 0, true, s4, n);
      CanRunLess(s1, n);
    }
    StepFirst(st, Receive, n);
  }

  /** The runs of a process without requests have a common bound exactly if it is a local one or all its stored
      jobs are migrations. */
  lemma RunsAreBoundedIff(s3: bool, convertPermits: nat, migratePermits: nat, stored: seq<Job>)
    ensures (exists bound: nat :: !CanRun(Start(s3, convertPermits, migratePermits, stored), bound))
            <==> !s3 || forall i | 0 <= i < |stored| :: stored[i].kind == Migrate
  {
    var st := Start(s3, convertPermits, migratePermits, stored);
    if CalmJobs(s3, stored) {
      var bound := 24 * |stored| + 1;
      if CanRun(st, bound) {
        var steps :| AllEnabled(st, steps) && Requests(steps) == 0 && |steps| >= bound;
        NoRequestsAreCalm(s3, steps);
        RunsEnd(s3, convertPermits, migratePermits, stored, steps);
      }
      assert !CanRun(st, bound);
    } else {
      var k :| 0 <= k < |stored| && !Calm(s3, stored[k]);
      forall n: nat ensures CanRun(st, n) {
        CalmFirst(st, k, n);
      }
    }
  }

  lemma {:induction false} NoRequestsAreCalm(s3: bool, steps: seq<Step>)
    requires Requests(steps) == 0
    ensures CalmSteps(s3, steps)
  {
    if steps != [] {
      NoRequestsAreCalm(s3, steps[1..]);
      assert forall i | 0 < i < |steps| :: steps[i] == steps[1..][i - 1];
    }
  }

  /** A single conversion requested in an S3 process that was idle is enough. */
  lemma OneConversionIsEnough(convertPermits: nat, migratePermits: nat, id: string, permits: nat, n: nat)
    ensures CanRun(Apply(Start(true, convertPermits, migratePermits, []), Admit(id, Convert, permits)), n)
  {
    var st := Start(true, convertPermits, migratePermits, []);
    assert Ids(st.pending) == [];
    CalmFirst(Apply(st, Admit(id, Convert, permits)), 0, n);
  }
}
