/** Quantitative laws of the job protocol: permits never exceed their pool and waiting jobs cannot block
    each other; convert and migrate jobs start at most six times. */
module JobLimits {
  import opened Finite
  import opened JobProtocol

  // ---- permits ----

  ghost predicate PermitsFit(st: State) {
    forall kind :: Held(st.tasks, kind) <= Pool(st, kind)
  }

  lemma HeldAppend(tasks: seq<Task>, task: Task, kind: Kind)
    ensures Held(tasks + [task], kind) == Held(tasks, kind) + HeldBy(task, kind)
  {
    assert (tasks + [task])[..|tasks|] == tasks;
  }

  lemma {:induction false} HeldWithout(tasks: seq<Task>, i: nat, kind: Kind)
    requires i < |tasks|
    ensures Held(tasks, kind) == Held(Without(tasks, i), kind) + HeldBy(tasks[i], kind)
  {
    var front, last := tasks[..|tasks| - 1], tasks[|tasks| - 1];
    if i == |tasks| - 1 {
      assert Without(tasks, i) == front;
    } else {
      HeldWithout(front, i, kind);
      assert Without(tasks, i) == Without(front, i) + [last];
      HeldAppend(Without(front, i), last, kind);
    }
  }

  lemma HeldUpdate(tasks: seq<Task>, i: nat, task: Task, kind: Kind)
    requires i < |tasks|
    ensures Held(tasks[i := task], kind) == Held(tasks, kind) - HeldBy(tasks[i], kind) + HeldBy(task, kind)
  {
    HeldWithout(tasks, i, kind);
    HeldWithout(tasks[i := task], i, kind);
    assert Without(tasks[i := task], i) == Without(tasks, i);
  }

  lemma StepKeepsPermits(st: State, step: Step)
    requires PermitsFit(st) && Enabled(st, step)
    ensures PermitsFit(Apply(st, step))
  {
    forall kind
      ensures Held(Apply(st, step).tasks, kind) <= Pool(Apply(st, step), kind)
    {
      StepKeepsPool(st, step, kind);
    }
  }

  lemma StepKeepsPool(st: State, step: Step, kind: Kind)
    requires Held(st.tasks, kind) <= Pool(st, kind) && Enabled(st, step)
    ensures Held(Apply(st, step).tasks, kind) <= Pool(Apply(st, step), kind)
  {
    match step
    case Receive => ReceiveKeepsPool(st, kind);
    case Acquire(i) => AcquireKeepsPool(st, i, kind);
    case Finish(i, ok) => FinishKeepsPool(st, i, ok, kind);
    case Handle(i) => HandleKeepsPool(st, i, kind);
    case _ =>
  }

  lemma ReceiveKeepsPool(st: State, kind: Kind)
    requires Held(st.tasks, kind) <= Pool(st, kind) && Enabled(st, Receive)
    ensures Held(Apply(st, Receive).tasks, kind) <= Pool(Apply(st, Receive), kind)
  {
    HeldAppend(st.tasks, Task(st.channel[0], Waiting), kind);
  }

  lemma AcquireKeepsPool(st: State, i: nat, kind: Kind)
    requires Held(st.tasks, kind) <= Pool(st, kind) && Enabled(st, Acquire(i))
    ensures Held(Apply(st, Acquire(i)).tasks, kind) <= Pool(Apply(st, Acquire(i)), kind)
  {
    HeldUpdate(st.tasks, i, Apply(st, Acquire(i)).tasks[i], kind);
  }

  lemma FinishKeepsPool(st: State, i: nat, ok: bool, kind: Kind)
    requires Held(st.tasks, kind) <= Pool(st, kind) && Enabled(st, Finish(i, ok))
    ensures Held(Apply(st, Finish(i, ok)).tasks, kind) <= Pool(Apply(st, Finish(i, ok)), kind)
  {
    HeldUpdate(st.tasks, i, Apply(st, Finish(i, ok)).tasks[i], kind);
  }

  lemma HandleKeepsPool(st: State, i: nat, kind: Kind)
    requires Held(st.tasks, kind) <= Pool(st, kind) && Enabled(st, Handle(i))
    ensures Held(Apply(st, Handle(i)).tasks, kind) <= Pool(Apply(st, Handle(i)), kind)
  {
    HandParts(st, i);
    HeldWithout(st.tasks, i, kind);
  }

  lemma {:induction false} HeldBySomeone(tasks: seq<Task>, kind: Kind)
    requires Held(tasks, kind) > 0
    ensures exists j :: 0 <= j < |tasks| && tasks[j].job.kind == kind && tasks[j].phase.Running?
  {
    if !(tasks[|tasks| - 1].job.kind == kind && tasks[|tasks| - 1].phase.Running?) {
      HeldBySomeone(tasks[..|tasks| - 1], kind);
      var j :| 0 <= j < |tasks| - 1 && tasks[..|tasks| - 1][j].job.kind == kind
          && tasks[..|tasks| - 1][j].phase.Running?;
      assert tasks[j].job.kind == kind;
    }
  }

  /** A waiting job can start, or a running job of its kind can finish: whatever the pool sizes, zero
      included, waiting jobs never block each other. */
  lemma NoDeadlock(st: State, i: nat)
    requires PermitsFit(st) && i < |st.tasks| && st.tasks[i].phase == Waiting
    ensures Enabled(st, Acquire(i))
            || exists j :: 0 <= j < |st.tasks| && st.tasks[j].job.kind == st.tasks[i].job.kind
                && Enabled(st, Finish(j, true))
  {
    if Held(st.tasks, st.tasks[i].job.kind) > 0 {
      HeldBySomeone(st.tasks, st.tasks[i].job.kind);
      var j :| 0 <= j < |st.tasks| && st.tasks[j].job.kind == st.tasks[i].job.kind && st.tasks[j].phase.Running?;
      assert Enabled(st, Finish(j, true));
    }
  }

  // ---- starts ----

  /** How often the convert or migrate job with this ticket has started. */
  function Starts(started: seq<Job>, ticket: nat): nat {
    if started == [] then 0
    else
      var last := started[|started| - 1];
      Starts(started[..|started| - 1], ticket) + (if last.ticket == ticket && last.kind != Upload then 1 else 0)
  }

  /** The job a task stands for: what it will send on, once it has finished. */
  function Active(task: Task): Job {
    match task.phase
    case Finished(Next(next)) => next
    case Finished(Retry(again)) => again
    case _ => task.job
  }

  /** One start more than the retry counter says: running, or settled. */
  function Extra(task: Task): nat {
    match task.phase
    case Running(_) => 1
    case Finished(Done) => 1
    case Finished(Failed) => 1
    case _ => 0
  }

  predicate CountFits(started: seq<Job>, job: Job, extra: nat) {
    && job.retries <= MAX_RETRIES
    && (job.kind != Upload ==> Starts(started, job.ticket) == job.retries + extra)
  }

  function JobTickets(jobs: seq<Job>): seq<nat> {
    seq(|jobs|, i requires 0 <= i < |jobs| => jobs[i].ticket)
  }

  function TaskTickets(tasks: seq<Task>): seq<nat> {
    seq(|tasks|, i requires 0 <= i < |tasks| => Active(tasks[i]).ticket)
  }

  function Tickets(st: State): multiset<nat> {
    multiset(JobTickets(st.channel)) + multiset(TaskTickets(st.tasks)) + multiset(JobTickets(st.checked))
  }

  ghost predicate Single(tickets: multiset<nat>, next: nat) {
    && (forall t :: tickets[t] <= 1)
    && (forall t | t in tickets :: t < next)
  }

  /** Counters tell the truth, and nothing has started more than six times. */
  ghost predicate CountsFit(st: State) {
    && (forall i | 0 <= i < |st.channel| :: CountFits(st.started, st.channel[i], 0))
    && (forall i | 0 <= i < |st.checked| :: CountFits(st.started, st.checked[i], 0))
    && (forall i | 0 <= i < |st.tasks| :: CountFits(st.started, Active(st.tasks[i]), Extra(st.tasks[i])))
    && (forall t :: Starts(st.started, t) <= MAX_RETRIES + 1)
    && (forall t | t >= st.nextTicket :: Starts(st.started, t) == 0)
  }

  /** Tickets are not shared, and the counters fit. */
  ghost predicate StartsFit(st: State) {
    Single(Tickets(st), st.nextTicket) && CountsFit(st)
  }

  lemma StartsAppend(started: seq<Job>, job: Job, t: nat)
    ensures Starts(started + [job], t) == Starts(started, t) + (if job.ticket == t && job.kind != Upload then 1 else 0)
  {
    assert (started + [job])[..|started|] == started;
  }

  /** The ticket of a task is its own. */
  lemma OwnTicket(st: State, i: nat)
    requires Single(Tickets(st), st.nextTicket) && i < |st.tasks|
    ensures Active(st.tasks[i]).ticket < st.nextTicket
    ensures forall j | 0 <= j < |st.channel| :: st.channel[j].ticket != Active(st.tasks[i]).ticket
    ensures forall j | 0 <= j < |st.checked| :: st.checked[j].ticket != Active(st.tasks[i]).ticket
    ensures forall j | 0 <= j < |st.tasks| && j != i :: Active(st.tasks[j]).ticket != Active(st.tasks[i]).ticket
  {
    var t, own := Active(st.tasks[i]).ticket, TaskTickets(st.tasks);
    assert own[i] == t;
    assert t in multiset(own);
    assert Tickets(st)[t] <= 1;
    NotAmong(st.channel, t);
    NotAmong(st.checked, t);
    forall j | 0 <= j < |st.tasks| && j != i
      ensures Active(st.tasks[j]).ticket != t
    {
      if own[j] == t {
        TwoPlaces(own, j, i);
      }
    }
  }

  lemma NotAmong(jobs: seq<Job>, t: nat)
    requires multiset(JobTickets(jobs))[t] == 0
    ensures forall j | 0 <= j < |jobs| :: jobs[j].ticket != t
  {
    assert t !in multiset(JobTickets(jobs));
    assert forall j | 0 <= j < |jobs| :: JobTickets(jobs)[j] == jobs[j].ticket;
  }

  // ---- tickets ----

  lemma SingleAdd(m: multiset<nat>, n: nat)
    requires Single(m, n)
    ensures Single(m + multiset{n}, n + 1)
  {
    assert n !in m;
  }

  lemma SingleFewer(m: multiset<nat>, fewer: multiset<nat>, n: nat, dropped: nat)
    requires Single(m, n) && (m == fewer || m == fewer + multiset{dropped})
    ensures Single(fewer, n)
  {
    if m != fewer {
      SingleDrop(fewer, n, dropped);
    }
  }

  lemma SingleDrop(m: multiset<nat>, n: nat, dropped: nat)
    requires Single(m + multiset{dropped}, n)
    ensures Single(m, n)
  {
    assert forall t :: m[t] <= (m + multiset{dropped})[t];
  }

  lemma JobTicketsAppend(jobs: seq<Job>, job: Job)
    ensures multiset(JobTickets(jobs + [job])) == multiset(JobTickets(jobs)) + multiset{job.ticket}
  {
    assert JobTickets(jobs + [job]) == JobTickets(jobs) + [job.ticket];
  }

  lemma JobTicketsWithout(jobs: seq<Job>, k: nat)
    requires k < |jobs|
    ensures multiset(JobTickets(jobs)) == multiset(JobTickets(Without(jobs, k))) + multiset{jobs[k].ticket}
  {
    WithoutMultiset(JobTickets(jobs), k);
    assert JobTickets(Without(jobs, k)) == Without(JobTickets(jobs), k);
    assert JobTickets(jobs)[k] in multiset(JobTickets(jobs));
  }

  lemma TaskTicketsWithout(tasks: seq<Task>, i: nat)
    requires i < |tasks|
    ensures multiset(TaskTickets(tasks)) == multiset(TaskTickets(Without(tasks, i))) + multiset{Active(tasks[i]).ticket}
  {
    WithoutMultiset(TaskTickets(tasks), i);
    assert TaskTickets(Without(tasks, i)) == Without(TaskTickets(tasks), i);
    assert TaskTickets(tasks)[i] in multiset(TaskTickets(tasks));
  }

  /** The tickets of three lists, as they are drawn together in `Tickets`. */
  lemma AddAnywhere(a: multiset<nat>, b: multiset<nat>, c: multiset<nat>, x: nat)
    ensures (a + multiset{x}) + b + c == (a + b + c) + multiset{x}
    ensures a + (b + multiset{x}) + c == (a + b + c) + multiset{x}
    ensures a + b + (c + multiset{x}) == (a + b + c) + multiset{x}
  {
  }

  lemma NewTickets(st: State, id: string, kind: Kind, permits: nat)
    requires Single(Tickets(st), st.nextTicket)
    ensures var job := NewJob(st, id, kind, permits);
            && Single(Tickets(st.(channel := st.channel + [job])), st.nextTicket + 1)
            && Single(Tickets(st.(checked := st.checked + [job])), st.nextTicket + 1)
  {
    var job := NewJob(st, id, kind, permits);
    JobTicketsAppend(st.channel, job);
    JobTicketsAppend(st.checked, job);
    SingleAdd(Tickets(st), st.nextTicket);
    AddAnywhere(multiset(JobTickets(st.channel)), multiset(TaskTickets(st.tasks)), multiset(JobTickets(st.checked)),
        st.nextTicket);
  }

  lemma CommitTickets(st: State, k: nat)
    requires k < |st.checked|
    ensures Tickets(Apply(st, Commit(k))) == Tickets(st)
  {
    var a, b, c := multiset(JobTickets(st.channel)), multiset(TaskTickets(st.tasks)),
        multiset(JobTickets(Without(st.checked, k)));
    JobTicketsAppend(st.channel, st.checked[k]);
    JobTicketsWithout(st.checked, k);
    AddAnywhere(a, b, c, st.checked[k].ticket);
  }

  lemma ReceiveTickets(st: State)
    requires st.channel != []
    ensures var st' := Apply(st, Receive);
            Tickets(st) == if st.channel[0].id in TaskIds(st.tasks) then Tickets(st') + multiset{st.channel[0].ticket}
                else Tickets(st')
  {
    var job, rest := st.channel[0], st.channel[1..];
    var a, b, c := multiset(JobTickets(rest)), multiset(TaskTickets(st.tasks)), multiset(JobTickets(st.checked));
    ReceiveParts(st);
    JobTicketsWithout(st.channel, 0);
    TaskTicketsAppend(st.tasks, Task(job, Waiting));
    AddAnywhere(a, b, c, job.ticket);
  }

  lemma ReceiveParts(st: State)
    requires st.channel != []
    ensures var st', job := Apply(st, Receive), st.channel[0];
            && Without(st.channel, 0) == st.channel[1..] == st'.channel
            && st'.checked == st.checked && st'.nextTicket == st.nextTicket
            && st'.tasks == if job.id in TaskIds(st.tasks) then st.tasks else st.tasks + [Task(job, Waiting)]
  {
  }

  lemma TaskTicketsAppend(tasks: seq<Task>, task: Task)
    ensures multiset(TaskTickets(tasks + [task])) == multiset(TaskTickets(tasks)) + multiset{Active(task).ticket}
  {
    assert TaskTickets(tasks + [task]) == TaskTickets(tasks) + [Active(task).ticket];
  }

  lemma HandleTickets(st: State, i: nat)
    requires Enabled(st, Handle(i))
    ensures var st' := Apply(st, Handle(i));
            Tickets(st) == if Settled(st.tasks[i]) then Tickets(st') + multiset{Active(st.tasks[i]).ticket}
                else Tickets(st')
  {
    var job, st' := Active(st.tasks[i]), Apply(st, Handle(i));
    HandParts(st, i);
    var a, b, c := multiset(JobTickets(st.channel)), multiset(TaskTickets(st'.tasks)), multiset(JobTickets(st.checked));
    TaskTicketsWithout(st.tasks, i);
    JobTicketsAppend(st.channel, job);
    AddAnywhere(a, b, c, job.ticket);
  }

  lemma HandParts(st: State, i: nat)
    requires Enabled(st, Handle(i))
    ensures var st' := Apply(st, Handle(i));
            && st'.tasks == Without(st.tasks, i) && st'.checked == st.checked && st'.nextTicket == st.nextTicket
            && st'.channel == if Settled(st.tasks[i]) then st.channel else st.channel + [Active(st.tasks[i])]
  {
  }

  lemma FinishKeepsTickets(st: State, i: nat, ok: bool)
    requires Single(Tickets(st), st.nextTicket) && Enabled(st, Finish(i, ok))
    ensures var st' := Apply(st, Finish(i, ok)); Single(Tickets(st'), st'.nextTicket)
  {
    var job, st' := st.tasks[i].job, Apply(st, Finish(i, ok));
    var tickets := TaskTickets(st.tasks);
    if Outcome(st, job, ok).Next? {
      assert TaskTickets(st'.tasks) == tickets[i := st.nextTicket];
      TaskTicketsWithout(st.tasks, i);
      var rest := multiset(TaskTickets(Without(st.tasks, i)));
      assert multiset(tickets[i := st.nextTicket]) == rest + multiset{st.nextTicket};
      var a, c := multiset(JobTickets(st.channel)), multiset(JobTickets(st.checked));
      AddAnywhere(a, rest, c, job.ticket);
      AddAnywhere(a, rest, c, st.nextTicket);
      SingleDrop(a + rest + c, st.nextTicket, job.ticket);
      SingleAdd(a + rest + c, st.nextTicket);
    } else {
      assert TaskTickets(st'.tasks) == tickets;
    }
  }

  ghost predicate SingleIn(st: State) {
    Single(Tickets(st), st.nextTicket)
  }

  lemma AdmissionKeepsTickets(st: State, id: string, kind: Kind, permits: nat)
    requires SingleIn(st) && kind != Upload
    ensures SingleIn(Apply(st, Admit(id, kind, permits))) && SingleIn(Apply(st, Check(id, kind, permits)))
  {
    var job := NewJob(st, id, kind, permits);
    NewTickets(st, id, kind, permits);
    assert Tickets(CommitJob(st, job).(nextTicket := st.nextTicket + 1)) == Tickets(st.(channel := st.channel + [job]));
    assert Tickets(st.(checked := st.checked + [job], nextTicket := st.nextTicket + 1))
        == Tickets(st.(checked := st.checked + [job]));
  }

  lemma CommitKeepsTickets(st: State, k: nat)
    requires SingleIn(st) && Enabled(st, Commit(k))
    ensures SingleIn(Apply(st, Commit(k)))
  {
    CommitTickets(st, k);
  }

  lemma ReceiveKeepsTickets(st: State)
    requires SingleIn(st) && Enabled(st, Receive)
    ensures SingleIn(Apply(st, Receive))
  {
    ReceiveTickets(st);
    SingleFewer(Tickets(st), Tickets(Apply(st, Receive)), st.nextTicket, st.channel[0].ticket);
  }

  lemma HandleKeepsTickets(st: State, i: nat)
    requires SingleIn(st) && Enabled(st, Handle(i))
    ensures SingleIn(Apply(st, Handle(i)))
  {
    var st' := Apply(st, Handle(i));
    HandleTickets(st, i);
    assert st'.nextTicket == st.nextTicket;
    var m, m', t := Tickets(st), Tickets(st'), Active(st.tasks[i]).ticket;
    SingleFewer(m, m', st.nextTicket, t);
    assert SingleIn(st');
  }

  lemma AcquireKeepsTickets(st: State, i: nat)
    requires SingleIn(st) && Enabled(st, Acquire(i))
    ensures SingleIn(Apply(st, Acquire(i)))
  {
    assert TaskTickets(Apply(st, Acquire(i)).tasks) == TaskTickets(st.tasks);
  }

  lemma StepKeepsTickets(st: State, step: Step)
    requires SingleIn(st) && Enabled(st, step)
    ensures SingleIn(Apply(st, step))
  {
    match step
    case Admit(id, kind, permits) => AdmissionKeepsTickets(st, id, kind, permits);
    case Check(id, kind, permits) => AdmissionKeepsTickets(st, id, kind, permits);
    case Acquire(i) => AcquireKeepsTickets(st, i);
    case Finish(i, ok) => FinishKeepsTickets(st, i, ok);
    case Commit(k) => CommitKeepsTickets(st, k);
    case Receive => ReceiveKeepsTickets(st);
    case Handle(i) => HandleKeepsTickets(st, i);
    case LateAdd(k) =>
  }

  // ---- counters ----

  lemma StepKeepsCounts(st: State, step: Step)
    requires StartsFit(st) && Enabled(st, step)
    ensures CountsFit(Apply(st, step))
  {
    match step
    case Acquire(i) => AcquireKeepsCounts(st, i);
    case Finish(i, ok) => FinishKeepsCounts(st, i, ok);
    case Handle(i) => HandleKeepsCounts(st, i);
    case _ =>
  }

  lemma FinishKeepsCounts(st: State, i: nat, ok: bool)
    requires CountsFit(st) && Enabled(st, Finish(i, ok))
    ensures CountsFit(Apply(st, Finish(i, ok)))
  {
    assert CountFits(st.started, Active(st.tasks[i]), Extra(st.tasks[i]));
  }

  lemma HandleKeepsCounts(st: State, i: nat)
    requires CountsFit(st) && Enabled(st, Handle(i))
    ensures CountsFit(Apply(st, Handle(i)))
  {
    assert CountFits(st.started, Active(st.tasks[i]), Extra(st.tasks[i]));
  }

  lemma AcquireKeepsCounts(st: State, i: nat)
    requires StartsFit(st) && Enabled(st, Acquire(i))
    ensures CountsFit(Apply(st, Acquire(i)))
  {
    var job := st.tasks[i].job;
    OwnTicket(st, i);
    forall t
      ensures Starts(st.started + [job], t)
              == Starts(st.started, t) + (if job.ticket == t && job.kind != Upload then 1 else 0)
    {
      StartsAppend(st.started, job, t);
    }
    assert CountFits(st.started, Active(st.tasks[i]), Extra(st.tasks[i]));
  }

  lemma StepKeepsStarts(st: State, step: Step)
    requires StartsFit(st) && Enabled(st, step)
    ensures StartsFit(Apply(st, step))
  {
    StepKeepsTickets(st, step);
    StepKeepsCounts(st, step);
  }

  lemma StartFits(s3: bool, convertPermits: nat, migratePermits: nat, stored: seq<Job>)
    ensures var st := Start(s3, convertPermits, migratePermits, stored); PermitsFit(st) && StartsFit(st)
  {
    var st := Start(s3, convertPermits, migratePermits, stored);
    var tickets := JobTickets(st.channel);
    forall t
      ensures Tickets(st)[t] <= 1 && (t in Tickets(st) ==> t < st.nextTicket)
    {
      assert Tickets(st)[t] == multiset(tickets)[t];
      if t in multiset(tickets) {
        var k :| 0 <= k < |tickets| && tickets[k] == t;
        if multiset(tickets)[t] >= 2 {
          var k' := SecondPlace(tickets, k);
        }
      }
    }
  }

  /** In every run of a process, clean or not: permits stay within their pools, and every convert or
      migrate job starts at most six times. */
  lemma {:induction false} RunsKeepLimits(st: State, steps: seq<Step>)
    requires PermitsFit(st) && StartsFit(st) && AllEnabled(st, steps)
    ensures PermitsFit(Reached(st, steps)) && StartsFit(Reached(st, steps))
    decreases |steps|
  {
    if steps != [] {
      StepKeepsPermits(st, steps[0]);
      StepKeepsStarts(st, steps[0]);
      RunsKeepLimits(Apply(st, steps[0]), steps[1..]);
    }
  }

  predicate AllEnabled(st: State, steps: seq<Step>)
    decreases |steps|
  {
    steps == [] || (Enabled(st, steps[0]) && AllEnabled(Apply(st, steps[0]), steps[1..]))
  }

  function Reached(st: State, steps: seq<Step>): State
    requires AllEnabled(st, steps)
    decreases |steps|
  {
    if steps == [] then st else Reached(Apply(st, steps[0]), steps[1..])
  }

  /** The limits over whole runs of a fresh process. */
  lemma LimitsHold(s3: bool, convertPermits: nat, migratePermits: nat, stored: seq<Job>, steps: seq<Step>)
    requires AllEnabled(Start(s3, convertPermits, migratePermits, stored), steps)
    ensures var st := Reached(Start(s3, convertPermits, migratePermits, stored), steps);
            && (forall kind :: Held(st.tasks, kind) <= Pool(st, kind))
            && (forall t :: Starts(st.started, t) <= 6)
  {
    StartFits(s3, convertPermits, migratePermits, stored);
    RunsKeepLimits(Start(s3, convertPermits, migratePermits, stored), steps);
  }
}
