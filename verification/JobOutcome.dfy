/** What becomes of a job whose work ends, and how many jobs run side by side (`crates/core/src/job/mod.rs`,
    `crates/core/src/job/convert.rs`, `crates/core/src/job/migrate.rs`). */
module JobOutcomes {
  import opened Bits
  import opened Finite
  import opened JobLimits
  import opened JobProtocol

  /** A running task holds what it asked for, and one that failed for good was no upload and at its last retry. */
  predicate TaskTruthful(st: State, task: Task) {
    match task.phase
    case Running(held) => held == Request(st, task.job)
    case Finished(Failed) => task.job.kind != Upload && task.job.retries == MAX_RETRIES
    case _ => true
  }

  predicate TasksTruthful(st: State) {
    forall i | 0 <= i < |st.tasks| :: TaskTruthful(st, st.tasks[i])
  }

  lemma StepKeepsTruthful(st: State, step: Step)
    requires TasksTruthful(st) && CountsFit(st) && Enabled(st, step)
    ensures TasksTruthful(Apply(st, step))
  {
    match step
    case Finish(i, ok) => FinishKeepsTruthful(st, i, ok);
    case Acquire(i) => AcquireKeepsTruthful(st, i);
    case Receive => ReceiveKeepsTruthful(st);
    case Handle(i) => HandleKeepsTruthful(st, i);
    case _ => assert Apply(st, step).tasks == st.tasks;
  }

  lemma ReceiveKeepsTruthful(st: State)
    requires TasksTruthful(st) && Enabled(st, Receive)
    ensures TasksTruthful(Apply(st, Receive))
  {
    ReceiveParts(st);
  }

  lemma HandleKeepsTruthful(st: State, i: nat)
    requires TasksTruthful(st) && Enabled(st, Handle(i))
    ensures TasksTruthful(Apply(st, Handle(i)))
  {
    HandParts(st, i);
  }

  lemma FinishKeepsTruthful(st: State, i: nat, ok: bool)
    requires TasksTruthful(st) && CountsFit(st) && Enabled(st, Finish(i, ok))
    ensures TasksTruthful(Apply(st, Finish(i, ok)))
  {
    var job := st.tasks[i].job;
    assert CountFits(st.started, Active(st.tasks[i]), Extra(st.tasks[i]));
    assert Apply(st, Finish(i, ok)).tasks == st.tasks[i := Task(job, Finished(Outcome(st, job, ok)))];
  }

  lemma AcquireKeepsTruthful(st: State, i: nat)
    requires TasksTruthful(st) && Enabled(st, Acquire(i))
    ensures TasksTruthful(Apply(st, Acquire(i)))
  {
    var job := st.tasks[i].job;
    assert Apply(st, Acquire(i)).tasks == st.tasks[i := Task(job, Running(Request(st, job)))];
  }

  lemma {:induction false} RunsKeepTruthful(st: State, steps: seq<Step>)
    requires TasksTruthful(st) && StartsFit(st) && AllEnabled(st, steps)
    ensures TasksTruthful(Reached(st, steps))
    decreases |steps|
  {
    if steps != [] {
      StepKeepsTruthful(st, steps[0]);
      StepKeepsStarts(st, steps[0]);
      RunsKeepTruthful(Apply(st, steps[0]), steps[1..]);
    }
  }

  /** A state that a process can reach. */
  ghost predicate Reachable(st: State) {
    exists s3, convertPermits, migratePermits, stored, steps ::
      AllEnabled(Start(s3, convertPermits, migratePermits, stored), steps)
      && st == Reached(Start(s3, convertPermits, migratePermits, stored), steps)
  }

  lemma ReachableIsTruthful(st: State)
    requires Reachable(st)
    ensures TasksTruthful(st) && StartsFit(st) && PermitsFit(st)
  {
    var s3, convertPermits, migratePermits, stored, steps :|
      AllEnabled(Start(s3, convertPermits, migratePermits, stored), steps)
      && st == Reached(Start(s3, convertPermits, migratePermits, stored), steps);
    StartFits(s3, convertPermits, migratePermits, stored);
    RunsKeepLimits(Start(s3, convertPermits, migratePermits, stored), steps);
    RunsKeepTruthful(Start(s3, convertPermits, migratePermits, stored), steps);
  }

  // ---- outcomes ----

  /** The handler drops a job for failure only at the sixth failed start of a conversion or migration. */
  lemma FailedAtSixthStart(st: State, i: nat)
    requires Reachable(st) && i < |st.tasks| && st.tasks[i].phase == Finished(Failed)
    ensures st.tasks[i].job.kind != Upload && Starts(st.started, st.tasks[i].job.ticket) == 6
  {
    ReachableIsTruthful(st);
    assert TaskTruthful(st, st.tasks[i]);
    assert CountFits(st.started, Active(st.tasks[i]), Extra(st.tasks[i]));
  }

  /** A job whose work fails is sent on as the same job, except at its sixth start if it is no upload; one
      whose work succeeds is done, except a conversion in an S3 process, which an upload follows. */
  lemma OutcomeIff(st: State, i: nat, ok: bool)
    requires Reachable(st) && Enabled(st, Finish(i, ok))
    ensures var job, after := st.tasks[i].job, Apply(st, Finish(i, ok)).tasks[i];
            && after.job == job && after.phase.Finished?
            && var result := after.phase.result;
               && (result.Failed? <==> !ok && job.kind != Upload && Starts(st.started, job.ticket) == 6)
               && (result.Next? <==> ok && job.kind == Convert && st.s3)
               && (result.Done? <==> ok && !(job.kind == Convert && st.s3))
               && (result.Next? ==> result.next.id == job.id && result.next.kind == Upload)
               && (result.Retry? ==> result.again == job.(retries := result.again.retries))
  {
    ReachableIsTruthful(st);
    assert CountFits(st.started, Active(st.tasks[i]), Extra(st.tasks[i]));
  }

  /** Running work can end well, and it can fail unless it is an upload of a process without S3 storage. */
  lemma WorkEndsIff(st: State, i: nat)
    requires i < |st.tasks| && st.tasks[i].phase.Running?
    ensures Enabled(st, Finish(i, true))
    ensures Enabled(st, Finish(i, false)) <==> !(st.tasks[i].job.kind == Upload && !st.s3)
  {
  }

  /** So a failed conversion or migration that has started at most five times is queued again and stays pending. */
  lemma FailedIsQueuedAgain(st: State, i: nat)
    requires Reachable(st) && Enabled(st, Finish(i, false))
    requires st.tasks[i].job.kind == Upload || Starts(st.started, st.tasks[i].job.ticket) < 6
    ensures var job, st' := st.tasks[i].job, Apply(Apply(st, Finish(i, false)), Handle(i));
            && st'.pending == st.pending && |st'.channel| == |st.channel| + 1
            && st'.channel[..|st.channel|] == st.channel
            && st'.channel[|st.channel|] == job.(retries := st'.channel[|st.channel|].retries)
  {
    OutcomeIff(st, i, false);
  }

  /** An accepted request becomes one job, pending and last in the channel; only a conversion chooses its permits. */
  lemma AdmittedJob(st: State, id: string, kind: Kind, permits: nat)
    requires Enabled(st, Admit(id, kind, permits)) && id !in Ids(st.pending)
    ensures var st' := Apply(st, Admit(id, kind, permits));
            && |st'.channel| == |st.channel| + 1 && st'.channel[..|st.channel|] == st.channel
            && var job := st'.channel[|st.channel|];
               && st'.pending == st.pending + [job]
               && job.id == id && job.kind == kind && job.retries == 0
               && job.permits == if kind == Convert then permits else 1
  {
    NothingRemoved(st.pending, id);
  }

  lemma {:induction false} NothingRemoved(jobs: seq<Job>, id: string)
    requires id !in Ids(jobs)
    ensures RemoveId(jobs, id) == jobs
  {
    if jobs != [] {
      var front, last := jobs[..|jobs| - 1], jobs[|jobs| - 1];
      assert Ids(jobs) == Ids(front) + [last.id];
      assert Ids(jobs)[|front|] == last.id;
      NothingRemoved(front, id);
      assert jobs == front + [last];
    }
  }

  /** A stored job is queued as it was, with all its retries ahead. */
  lemma StoredIsQueued(s3: bool, convertPermits: nat, migratePermits: nat, stored: seq<Job>, i: nat)
    requires i < |stored|
    ensures var st := Start(s3, convertPermits, migratePermits, stored);
            && st.channel == st.pending && |st.channel| == |stored|
            && st.channel[i] == stored[i].(retries := 0, ticket := st.channel[i].ticket)
            && Starts(st.started, st.channel[i].ticket) == 0
  {
  }

  // ---- how many run ----

  /** Running jobs of a kind that ask for this many permits or more. */
  function RunningAsking(tasks: seq<Task>, kind: Kind, p: nat): nat {
    if tasks == [] then 0
    else
      var last := tasks[|tasks| - 1];
      RunningAsking(tasks[..|tasks| - 1], kind, p)
      + (if last.phase.Running? && last.job.kind == kind && last.job.permits >= p then 1 else 0)
  }

  lemma {:induction false} HeldTogether(st: State, tasks: seq<Task>, kind: Kind, p: nat)
    requires p <= Pool(st, kind) && forall i | 0 <= i < |tasks| :: TaskTruthful(st, tasks[i])
    ensures RunningAsking(tasks, kind, p) * p <= Held(tasks, kind)
  {
    if tasks != [] {
      var front, last := tasks[..|tasks| - 1], tasks[|tasks| - 1];
      HeldTogether(st, front, kind, p);
      assert TaskTruthful(st, last);
      OneMore(RunningAsking(front, kind, p), p);
    }
  }

  lemma OneMore(n: nat, p: nat)
    ensures (n + 1) * p == n * p + p
  {
  }

  /** Running jobs of a kind that ask for p permits or more are at most as many as the pool has room for;
      at most one runs of those that ask for more than the pool has. */
  lemma RunningFitPool(st: State, kind: Kind, p: nat)
    requires Reachable(st) && p >= 1
    ensures p <= Pool(st, kind) ==> RunningAsking(st.tasks, kind, p) <= Pool(st, kind) / p
    ensures 1 <= Pool(st, kind) < p ==> RunningAsking(st.tasks, kind, p) <= 1
  {
    ReachableIsTruthful(st);
    var pool := Pool(st, kind);
    if p <= pool {
      HeldTogether(st, st.tasks, kind, p);
      Quotient(RunningAsking(st.tasks, kind, p), p, pool);
    } else if pool >= 1 {
      HeldTogether(st, st.tasks, kind, pool);
      FewerAsk(st.tasks, kind, pool, p);
      Quotient(RunningAsking(st.tasks, kind, pool), pool, pool);
    }
  }

  /** The three pools: conversions and migrations share what was configured for them, and uploads, each of which
      asks for one permit, run one at a time. */
  lemma PoolsAreShared(st: State, p: nat)
    requires Reachable(st) && p >= 1
    ensures p <= st.convertPermits ==> RunningAsking(st.tasks, Convert, p) <= st.convertPermits / p
    ensures p <= st.migratePermits ==> RunningAsking(st.tasks, Migrate, p) <= st.migratePermits / p
    ensures RunningAsking(st.tasks, Upload, p) <= 1
  {
    RunningFitPool(st, Convert, p);
    RunningFitPool(st, Migrate, p);
    RunningFitPool(st, Upload, p);
  }

  lemma {:induction false} FewerAsk(tasks: seq<Task>, kind: Kind, p: nat, q: nat)
    requires p <= q
    ensures RunningAsking(tasks, kind, q) <= RunningAsking(tasks, kind, p)
  {
    if tasks != [] {
      FewerAsk(tasks[..|tasks| - 1], kind, p, q);
    }
  }

  lemma Quotient(n: nat, p: nat, pool: nat)
    requires p >= 1 && n * p <= pool
    ensures n <= pool / p
  {
    var q := pool / p;
    assert pool == q * p + pool % p;
    OneMore(q, p);
    if n >= q + 1 {
      MulMono(q + 1, n, p);
    }
  }
}
