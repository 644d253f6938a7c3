/** The background job protocol as interleaved steps: admission by the API, the job channel, the
    handler loop, permits, completion, retries, and the pending set that survives a restart
    (`crates/core/src/app_state.rs`, `crates/core/src/job/mod.rs`, `crates/core/src/api/routes.rs`). */
module JobProtocol {
  import opened Finite

  const MAX_RETRIES: nat := 5

  datatype Kind = Convert | Upload | Migrate

  /** `ticket` tells apart two jobs that are admitted under the same id one after the other; the
      program does not have it. */
  datatype Job = Job(id: string, kind: Kind, permits: nat, retries: nat, ticket: nat)

  datatype Result = Done | Next(next: Job) | Retry(again: Job) | Failed

  datatype Phase = Waiting | Running(held: nat) | Finished(result: Result)

  datatype Task = Task(job: Job, phase: Phase)

  datatype State = State(
    s3: bool, convertPermits: nat, migratePermits: nat,
    channel: seq<Job>, tasks: seq<Task>, pending: seq<Job>,
    late: seq<Job>,      // additions to the pending set that were spawned and have not run yet
    checked: seq<Job>,   // requests that passed the "already exists" check and are still uploading
    started: seq<Job>,   // every start of a job, in order
    nextTicket: nat)

  // ---- the pending set ----

  function Ids(jobs: seq<Job>): seq<string> {
    seq(|jobs|, i requires 0 <= i < |jobs| => jobs[i].id)
  }

  function TaskIds(tasks: seq<Task>): seq<string> {
    seq(|tasks|, i requires 0 <= i < |tasks| => tasks[i].job.id)
  }

  /** Keeps the jobs whose id is different. */
  function RemoveId(jobs: seq<Job>, id: string): seq<Job> {
    if jobs == [] then []
    else
      var rest := RemoveId(jobs[..|jobs| - 1], id);
      var last := jobs[|jobs| - 1];
      if last.id == id then rest else rest + [last]
  }

  function AddJob(jobs: seq<Job>, job: Job): seq<Job> {
    RemoveId(jobs, job.id) + [job]
  }

  lemma {:induction false} RemoveIdIds(jobs: seq<Job>, id: string)
    ensures forall x :: x in Ids(RemoveId(jobs, id)) <==> x in Ids(jobs) && x != id
    ensures Distinct(Ids(jobs)) ==> Distinct(Ids(RemoveId(jobs, id)))
  {
    if jobs != [] {
      var front, last := jobs[..|jobs| - 1], jobs[|jobs| - 1];
      RemoveIdIds(front, id);
      var rest := RemoveId(front, id);
      assert Ids(jobs) == Ids(front) + [last.id];
      DistinctAppend(Ids(front), last.id);
      assert Ids(rest + [last]) == Ids(rest) + [last.id];
      DistinctAppend(Ids(rest), last.id);
    }
  }

  /** After an addition the id is there once, whatever was there before. */
  lemma AddJobIds(jobs: seq<Job>, job: Job)
    ensures forall x :: x in Ids(AddJob(jobs, job)) <==> x in Ids(jobs) || x == job.id
    ensures Distinct(Ids(jobs)) ==> Distinct(Ids(AddJob(jobs, job)))
  {
    RemoveIdIds(jobs, job.id);
    assert Ids(AddJob(jobs, job)) == Ids(RemoveId(jobs, job.id)) + [job.id];
    DistinctAppend(Ids(RemoveId(jobs, job.id)), job.id);
  }

  // ---- permits ----

  function Pool(st: State, kind: Kind): nat {
    match kind
    case Convert => st.convertPermits
    case Upload => 1
    case Migrate => st.migratePermits
  }

  function HeldBy(task: Task, kind: Kind): nat {
    if task.job.kind == kind && task.phase.Running? then task.phase.held else 0
  }

  function Held(tasks: seq<Task>, kind: Kind): nat {
    if tasks == [] then 0 else Held(tasks[..|tasks| - 1], kind) + HeldBy(tasks[|tasks| - 1], kind)
  }

  /** A request never asks for more than the whole pool. */
  function Request(st: State, job: Job): nat {
    if job.permits <= Pool(st, job.kind) then job.permits else Pool(st, job.kind)
  }

  // ---- steps ----

  datatype Step =
    | Admit(id: string, kind: Kind, permits: nat)  // check and commit in one go
    | Check(id: string, kind: Kind, permits: nat)
    | Commit(request: nat)
    | Receive
    | Acquire(task: nat)
    | Finish(task: nat, ok: bool)
    | Handle(task: nat)
    | LateAdd(which: nat)

  function NewJob(st: State, id: string, kind: Kind, permits: nat): Job {
    Job(id, kind, if kind == Convert then permits else 1, 0, st.nextTicket)
  }

  /** In a process without S3 storage an upload does nothing and succeeds; all other work may fail. */
  predicate MayEnd(s3: bool, job: Job, ok: bool) {
    ok || s3 || job.kind != Upload
  }

  predicate Enabled(st: State, step: Step) {
    match step
    case Admit(_, kind, _) => kind != Upload
    case Check(_, kind, _) => kind != Upload
    case Commit(k) => k < |st.checked|
    case Receive => st.channel != []
    case Acquire(i) =>
      && i < |st.tasks| && st.tasks[i].phase == Waiting
      && Held(st.tasks, st.tasks[i].job.kind) + Request(st, st.tasks[i].job) <= Pool(st, st.tasks[i].job.kind)
    case Finish(i, ok) => i < |st.tasks| && st.tasks[i].phase.Running? && MayEnd(st.s3, st.tasks[i].job, ok)
    case Handle(i) => i < |st.tasks| && st.tasks[i].phase.Finished?
    case LateAdd(k) => k < |st.late|
  }

  function AlreadyExists(st: State, id: string): bool {
    id in Ids(st.pending)
  }

  function CommitJob(st: State, job: Job): State {
    st.(pending := AddJob(st.pending, job), channel := st.channel + [job])
  }

  /** What a task turns into when its work ends. */
  function Outcome(st: State, job: Job, ok: bool): Result {
    if ok then
      if job.kind == Convert && st.s3 then Next(Job(job.id, Upload, 1, 0, st.nextTicket)) else Done
    else
      match job.kind
      case Upload => Retry(job)
      case _ => if job.retries < MAX_RETRIES then Retry(job.(retries := job.retries + 1)) else Failed
  }

  /** What the handler loop does with a result. */
  function Hand(st: State, id: string, result: Result): State {
    match result
    case Next(next) => st.(channel := st.channel + [next])
    case Retry(again) => st.(channel := st.channel + [again])
    case _ => st.(pending := RemoveId(st.pending, id))
  }

  function Apply(st: State, step: Step): State
    requires Enabled(st, step)
  {
    match step
    case Admit(id, kind, permits) =>
      if AlreadyExists(st, id) then st
      else CommitJob(st, NewJob(st, id, kind, permits)).(nextTicket := st.nextTicket + 1)
    case Check(id, kind, permits) =>
      if AlreadyExists(st, id) then st
      else st.(checked := st.checked + [NewJob(st, id, kind, permits)], nextTicket := st.nextTicket + 1)
    case Commit(k) => CommitJob(st, st.checked[k]).(checked := Without(st.checked, k))
    case Receive =>
      var job := st.channel[0];
      if job.id in TaskIds(st.tasks) then st.(channel := st.channel[1..])  // already in progress, skipped
      else st.(channel := st.channel[1..], tasks := st.tasks + [Task(job, Waiting)])
    case Acquire(i) =>
      var job := st.tasks[i].job;
      st.(tasks := st.tasks[i := Task(job, Running(Request(st, job)))], started := st.started + [job])
    case Finish(i, ok) =>
      var job := st.tasks[i].job;
      var result := Outcome(st, job, ok);
      var st' := st.(tasks := st.tasks[i := Task(job, Finished(result))]);
      if result.Next? then st'.(late := st.late + [result.next], nextTicket := st.nextTicket + 1) else st'
    case Handle(i) =>
      Hand(st, st.tasks[i].job.id, st.tasks[i].phase.result).(tasks := Without(st.tasks, i))
    case LateAdd(k) => st.(pending := AddJob(st.pending, st.late[k]), late := Without(st.late, k))
  }

  /** A fresh process: every stored job goes to the channel. */
  function Start(s3: bool, convertPermits: nat, migratePermits: nat, stored: seq<Job>): State {
    var jobs := seq(|stored|, i requires 0 <= i < |stored| => stored[i].(retries := 0, ticket := i));
    State(s3, convertPermits, migratePermits, jobs, [], jobs, [], [], [], |stored|)
  }

  // ---- safety ----

  predicate Live(st: State, id: string) {
    id in Ids(st.channel) || id in TaskIds(st.tasks)
  }

  predicate ResultKeepsId(task: Task) {
    match task.phase
    case Finished(Next(next)) => next.id == task.job.id
    case Finished(Retry(again)) => again.id == task.job.id
    case _ => true
  }

  /** Ids are unique in the pending set; an id is at most once in the channel or in progress, and then
      it is in the pending set. */
  ghost predicate Safe(st: State) {
    && Distinct(Ids(st.pending))
    && Distinct(Ids(st.channel)) && Distinct(TaskIds(st.tasks))
    && (forall id :: !(id in Ids(st.channel) && id in TaskIds(st.tasks)))
    && (forall id | Live(st, id) :: id in Ids(st.pending))
    && (forall i | 0 <= i < |st.tasks| :: ResultKeepsId(st.tasks[i]))
  }

  lemma StartIsSafe(s3: bool, convertPermits: nat, migratePermits: nat, stored: seq<Job>)
    ensures Safe(Start(s3, convertPermits, migratePermits, stored)) <==> Distinct(Ids(stored))
  {
    var st := Start(s3, convertPermits, migratePermits, stored);
    assert Ids(st.pending) == Ids(stored) && Ids(st.channel) == Ids(stored);
    assert TaskIds(st.tasks) == [];
  }

  /** Whatever a safe process stored, the next process starts safely from. */
  lemma RestartIsSafe(st: State, s3: bool, convertPermits: nat, migratePermits: nat)
    requires Safe(st)
    ensures Safe(Start(s3, convertPermits, migratePermits, st.pending))
  {
    StartIsSafe(s3, convertPermits, migratePermits, st.pending);
  }

  /** Committing a checked request is safe exactly when its id is neither queued nor running. */
  lemma CommitIsSafeIff(st: State, k: nat)
    requires Safe(st) && Enabled(st, Commit(k))
    ensures Safe(Apply(st, Commit(k))) <==> !Live(st, st.checked[k].id)
  {
    var job, st' := st.checked[k], Apply(st, Commit(k));
    AddJobIds(st.pending, job);
    assert Ids(st'.channel) == Ids(st.channel) + [job.id];
    DistinctAppend(Ids(st.channel), job.id);
    if job.id in TaskIds(st.tasks) {
      assert Ids(st'.channel)[|st.channel|] == job.id;
      assert job.id in Ids(st'.channel);
    }
  }

  /** Every other step keeps a safe state safe. */
  lemma StepIsSafe(st: State, step: Step)
    requires Safe(st) && Enabled(st, step) && !step.Commit?
    ensures Safe(Apply(st, step))
  {
    match step
    case Admit(id, kind, permits) => AdmitIsSafe(st, id, kind, permits);
    case Check(id, kind, permits) =>
    case Receive => ReceiveIsSafe(st);
    case Acquire(i) => assert TaskIds(Apply(st, step).tasks) == TaskIds(st.tasks);
    case Finish(i, ok) => assert TaskIds(Apply(st, step).tasks) == TaskIds(st.tasks);
    case Handle(i) => HandleIsSafe(st, i);
    case LateAdd(k) => AddJobIds(st.pending, st.late[k]);
  }

  lemma AdmitIsSafe(st: State, id: string, kind: Kind, permits: nat)
    requires Safe(st) && Enabled(st, Admit(id, kind, permits))
    ensures Safe(Apply(st, Admit(id, kind, permits)))
  {
    if !AlreadyExists(st, id) {
      var job, st' := NewJob(st, id, kind, permits), Apply(st, Admit(id, kind, permits));
      AddJobIds(st.pending, job);
      assert Ids(st'.channel) == Ids(st.channel) + [id];
      assert !Live(st, id);
    }
  }

  /** A received id is never in progress: the branch that skips it is dead. */
  lemma NeverSkipped(st: State)
    requires Safe(st) && Enabled(st, Receive)
    ensures st.channel[0].id !in TaskIds(st.tasks)
  {
    assert Ids(st.channel)[0] == st.channel[0].id;
  }

  lemma ReceiveIsSafe(st: State)
    requires Safe(st) && Enabled(st, Receive)
    ensures Safe(Apply(st, Receive))
  {
    NeverSkipped(st);
    var job, st' := st.channel[0], Apply(st, Receive);
    assert Ids(st'.channel) == Ids(st.channel)[1..];
    DistinctTail(Ids(st.channel));
    assert TaskIds(st'.tasks) == TaskIds(st.tasks) + [job.id];
    DistinctAppend(TaskIds(st.tasks), job.id);
  }

  lemma WithoutIds(tasks: seq<Task>, i: nat)
    requires i < |tasks| && Distinct(TaskIds(tasks))
    ensures Distinct(TaskIds(Without(tasks, i)))
    ensures forall x :: x in TaskIds(Without(tasks, i)) <==> x in TaskIds(tasks) && x != tasks[i].job.id
  {
    var ids, ids' := TaskIds(tasks), TaskIds(Without(tasks, i));
    forall j | 0 <= j < |ids'|
      ensures ids'[j] == ids[if j < i then j else j + 1] && ids'[j] != ids[i]
    {
    }
    forall x | x in ids && x != tasks[i].job.id
      ensures x in ids'
    {
      var j :| 0 <= j < |ids| && ids[j] == x;
      assert ids'[if j < i then j else j - 1] == x;
    }
  }

  lemma HandleIsSafe(st: State, i: nat)
    requires Safe(st) && Enabled(st, Handle(i))
    ensures Safe(Apply(st, Handle(i)))
  {
    var Task(job, phase) := st.tasks[i];
    var st' := Apply(st, Handle(i));
    WithoutIds(st.tasks, i);
    assert TaskIds(st.tasks)[i] == job.id;
    assert Live(st, job.id);
    assert ResultKeepsId(st.tasks[i]);
    match phase.result {
      case Next(next) => assert Ids(st'.channel) == Ids(st.channel) + [job.id];
      case Retry(again) => assert Ids(st'.channel) == Ids(st.channel) + [job.id];
      case _ => RemoveIdIds(st.pending, job.id);
    }
  }

  // ---- whole runs ----

  /** Every step can be taken, and a commit finds its id neither queued nor running: check and commit
      were not separated by another admission of the id. */
  predicate CleanRun(st: State, steps: seq<Step>)
    decreases |steps|
  {
    steps == []
    || (Enabled(st, steps[0])
        && (steps[0].Commit? ==> !Live(st, st.checked[steps[0].request].id))
        && CleanRun(Apply(st, steps[0]), steps[1..]))
  }

  function After(st: State, steps: seq<Step>): State
    requires CleanRun(st, steps)
    decreases |steps|
  {
    if steps == [] then st else After(Apply(st, steps[0]), steps[1..])
  }

  lemma {:induction false} RunsAreSafe(st: State, steps: seq<Step>)
    requires Safe(st) && CleanRun(st, steps)
    ensures Safe(After(st, steps))
    decreases |steps|
  {
    if steps != [] {
      if steps[0].Commit? {
        CommitIsSafeIff(st, steps[0].request);
      } else {
        StepIsSafe(st, steps[0]);
      }
      RunsAreSafe(Apply(st, steps[0]), steps[1..]);
    }
  }

  /** From any stored set with unique ids, every clean run keeps the protocol safe. */
  lemma ProtocolIsSafe(s3: bool, convertPermits: nat, migratePermits: nat, stored: seq<Job>, steps: seq<Step>)
    requires Distinct(Ids(stored))
    requires CleanRun(Start(s3, convertPermits, migratePermits, stored), steps)
    ensures Safe(After(Start(s3, convertPermits, migratePermits, stored), steps))
  {
    StartIsSafe(s3, convertPermits, migratePermits, stored);
    RunsAreSafe(Start(s3, convertPermits, migratePermits, stored), steps);
  }

  function CheckedTwice(st: State, id: string): State {
    var check := Check(id, Convert, 1);
    Apply(Apply(st, check), check)
  }

  function CommittedTwice(st: State): State
    requires |st.checked| == 2
  {
    Apply(Apply(st, Commit(0)), Commit(0))
  }

  /** Two requests for one new id that are both checked before either commits break safety in any state, and
      the second job is dropped although it was accepted. */
  lemma SeparatedCheckBreaks(st: State, id: string)
    requires Safe(st) && !AlreadyExists(st, id) && st.channel == [] && st.checked == []
    ensures |CheckedTwice(st, id).checked| == 2
    ensures var st' := CommittedTwice(CheckedTwice(st, id));
            && !Safe(st')
            && |st'.channel| == 2
            && var rest := Apply(st', Receive);
               |rest.tasks| == |st.tasks| + 1 && Apply(rest, Receive) == rest.(channel := [])
  {
    var st2 := CheckedTwice(st, id);
    assert st2.checked[0].id == id && st2.checked[1].id == id;
    var st3 := Apply(st2, Commit(0));
    assert st3.checked == [st2.checked[1]];
    var st4 := Apply(st3, Commit(0));
    assert st4.channel == st2.checked;
    assert Ids(st4.channel)[0] == Ids(st4.channel)[1];
    assert !Live(st, id);
    var st5 := Apply(st4, Receive);
    assert TaskIds(st5.tasks)[|st.tasks|] == id;
  }

  // ---- jobs that stay pending for ever ----

  /** In the pending set, but neither queued nor running. */
  predicate Stranded(st: State, id: string) {
    AlreadyExists(st, id) && !Live(st, id)
  }

  /** A step frees a stranded id exactly if it commits a request for it that was checked earlier; every
      new request for it is rejected. */
  lemma StrandedStays(st: State, step: Step, id: string)
    requires Safe(st) && Enabled(st, step) && Stranded(st, id)
    ensures Stranded(Apply(st, step), id) <==> !(step.Commit? && st.checked[step.request].id == id)
    ensures forall kind, permits | kind != Upload :: Apply(st, Admit(id, kind, permits)) == st
  {
    var st' := Apply(st, step);
    match step
    case Admit(other, kind, permits) =>
      if !AlreadyExists(st, other) {
        AddJobIds(st.pending, NewJob(st, other, kind, permits));
        assert Ids(st'.channel) == Ids(st.channel) + [other];
      }
    case Check(_, _, _) =>
    case Commit(k) =>
      AddJobIds(st.pending, st.checked[k]);
      assert Ids(st'.channel) == Ids(st.channel) + [st.checked[k].id];
      assert st.checked[k].id in Ids(st'.channel);
    case Receive =>
      assert Ids(st'.channel) == Ids(st.channel)[1..];
      assert Ids(st.channel)[0] == st.channel[0].id;
      assert TaskIds(st.tasks + [Task(st.channel[0], Waiting)]) == TaskIds(st.tasks) + [st.channel[0].id];
    case Acquire(i) => assert TaskIds(st'.tasks) == TaskIds(st.tasks);
    case Finish(i, ok) => assert TaskIds(st'.tasks) == TaskIds(st.tasks);
    case Handle(i) =>
      assert TaskIds(st.tasks)[i] == st.tasks[i].job.id;
      StrandedHandle(st, i, id);
    case LateAdd(k) => AddJobIds(st.pending, st.late[k]);
  }

  lemma StrandedHandle(st: State, i: nat, id: string)
    requires Safe(st) && Enabled(st, Handle(i))
    ensures Live(Apply(st, Handle(i)), id) <==> Live(st, id) && !(st.tasks[i].job.id == id && Settled(st.tasks[i]))
    ensures AlreadyExists(Apply(st, Handle(i)), id)
            <==> AlreadyExists(st, id) && !(st.tasks[i].job.id == id && Settled(st.tasks[i]))
  {
    var Task(job, phase) := st.tasks[i];
    var st' := Apply(st, Handle(i));
    WithoutIds(st.tasks, i);
    assert TaskIds(st.tasks)[i] == job.id;
    assert ResultKeepsId(st.tasks[i]);
    RemoveIdIds(st.pending, job.id);
    match phase.result {
      case Next(next) => assert Ids(st'.channel) == Ids(st.channel) + [job.id];
      case Retry(again) => assert Ids(st'.channel) == Ids(st.channel) + [job.id];
      case _ =>
    }
  }

  /** Finished for good: nothing is sent on. */
  predicate Settled(task: Task) {
    task.phase.Finished? && (task.phase.result.Done? || task.phase.result.Failed?)
  }

  ghost predicate NoneStranded(st: State) {
    forall id :: AlreadyExists(st, id) ==> Live(st, id)
  }

  /** A step strands a job exactly when it is the spawned addition of an upload that has already been
      settled. */
  lemma OnlyLateAddStrands(st: State, step: Step)
    requires Safe(st) && NoneStranded(st) && Enabled(st, step)
    ensures NoneStranded(Apply(st, step)) <==> !(step.LateAdd? && !Live(st, st.late[step.which].id))
  {
    if step.LateAdd? && !Live(st, st.late[step.which].id) {
      AddJobIds(st.pending, st.late[step.which]);
      assert AlreadyExists(Apply(st, step), st.late[step.which].id);
    } else {
      forall id
        ensures AlreadyExists(Apply(st, step), id) ==> Live(Apply(st, step), id)
      {
        NotStranded(st, step, id);
      }
    }
  }

  lemma NotStranded(st: State, step: Step, id: string)
    requires Safe(st) && Enabled(st, step)
    requires AlreadyExists(st, id) ==> Live(st, id)
    requires step.LateAdd? ==> Live(st, st.late[step.which].id)
    ensures AlreadyExists(Apply(st, step), id) ==> Live(Apply(st, step), id)
  {
    var st' := Apply(st, step);
    match step
    case Admit(other, kind, permits) =>
      if !AlreadyExists(st, other) {
        AddJobIds(st.pending, NewJob(st, other, kind, permits));
        assert Ids(st'.channel) == Ids(st.channel) + [other];
      }
    case Check(_, _, _) =>
    case Commit(k) =>
      AddJobIds(st.pending, st.checked[k]);
      assert Ids(st'.channel) == Ids(st.channel) + [st.checked[k].id];
    case Receive =>
      NeverSkipped(st);
      assert Ids(st.channel) == [st.channel[0].id] + Ids(st'.channel);
      assert TaskIds(st'.tasks) == TaskIds(st.tasks) + [st.channel[0].id];
    case Acquire(i) => assert TaskIds(st'.tasks) == TaskIds(st.tasks);
    case Finish(i, ok) => assert TaskIds(st'.tasks) == TaskIds(st.tasks);
    case Handle(i) => StrandedHandle(st, i, id);
    case LateAdd(k) => AddJobIds(st.pending, st.late[k]);
  }

  /** A restart frees stranded jobs: every stored id is queued again. */
  lemma RestartFrees(st: State, s3: bool, convertPermits: nat, migratePermits: nat)
    ensures NoneStranded(Start(s3, convertPermits, migratePermits, st.pending))
  {
    var st' := Start(s3, convertPermits, migratePermits, st.pending);
    assert Ids(st'.channel) == Ids(st'.pending);
  }

  lemma RunCons(st: State, step: Step, rest: seq<Step>)
    requires Enabled(st, step) && !step.Commit? && CleanRun(Apply(st, step), rest)
    ensures CleanRun(st, [step] + rest) && After(st, [step] + rest) == After(Apply(st, step), rest)
  {
    var steps := [step] + rest;
    assert steps[0] == step && steps[1..] == rest;
  }

  /** It happens: convert, upload and settle first, then the addition that the conversion spawned. */
  lemma StrandingRun(id: string)
    ensures exists steps :: CleanRun(Start(true, 1, 1, []), steps) && Stranded(After(Start(true, 1, 1, []), steps), id)
  {
    var job, upload := Job(id, Convert, 1, 0, 0), Job(id, Upload, 1, 0, 1);
    var s0 := Start(true, 1, 1, []);
    var s1 := s0.(pending := [job], channel := [job], nextTicket := 1);
    var s2 := Received(job);
    var r2 := StrandedAfterConvert(job, upload);
    var r1 := [Receive] + r2;
    assert Apply(s1, Receive) == s2;
    RunCons(s1, Receive, r2);
    assert Ids(s0.pending) == [];
    assert Apply(s0, Admit(id, Convert, 1)) == s1;
    RunCons(s0, Admit(id, Convert, 1), r1);
  }

  /** The state in which an admitted job waits for its permits. */
  function Received(job: Job): State {
    Start(true, 1, 1, []).(pending := [job], tasks := [Task(job, Waiting)], nextTicket := 1)
  }

  lemma StrandedAfterConvert(job: Job, upload: Job) returns (steps: seq<Step>)
    requires job == Job(upload.id, Convert, 1, 0, 0) && upload == Job(job.id, Upload, 1, 0, 1)
    ensures CleanRun(Received(job), steps) && Stranded(After(Received(job), steps), job.id)
  {
    var s2, s5 := Received(job), Converted(job, upload);
    var tail := StrandedAfterUpload(job, upload);
    var r4 := [Handle(0)] + tail;
    var r3 := [Finish(0, true)] + r4;
    var s3 := s2.(tasks := [Task(job, Running(1))], started := [job]);
    var s4 := s3.(tasks := [Task(job, Finished(Next(upload)))], late := [upload], nextTicket := 2);
    assert Apply(s4, Handle(0)) == s5;
    RunCons(s4, Handle(0), tail);
    assert Apply(s3, Finish(0, true)) == s4;
    RunCons(s3, Finish(0, true), r4);
    assert Apply(s2, Acquire(0)) == s3;
    RunCons(s2, Acquire(0), r3);
    steps := [Acquire(0)] + r3;
  }

  /** The state in which the converted job has been handed on and its addition is still outstanding. */
  function Converted(job: Job, upload: Job): State {
    Start(true, 1, 1, []).(pending := [job], channel := [upload], late := [upload], started := [job], nextTicket := 2)
  }

  lemma StrandedAfterUpload(job: Job, upload: Job) returns (steps: seq<Step>)
    requires job == Job(upload.id, Convert, 1, 0, 0) && upload == Job(job.id, Upload, 1, 0, 1)
    ensures CleanRun(Converted(job, upload), steps) && Stranded(After(Converted(job, upload), steps), job.id)
  {
    var s5 := Converted(job, upload);
    var s6 := s5.(channel := [], tasks := [Task(upload, Waiting)]);
    var s7 := s6.(tasks := [Task(upload, Running(1))], started := [job, upload]);
    var s8 := s7.(tasks := [Task(upload, Finished(Done))]);
    var s9 := s8.(tasks := [], pending := []);
    var s10 := s9.(pending := [upload], late := []);
    assert Ids(s10.pending)[0] == job.id;
    assert Stranded(s10, job.id);
    assert AddJob([], upload) == [upload];
    assert Apply(s9, LateAdd(0)) == s10;
    RunCons(s9, LateAdd(0), []);
    var r9 := [LateAdd(0)] + [];
    assert RemoveId([job], job.id) == [];
    assert Apply(s8, Handle(0)) == s9;
    RunCons(s8, Handle(0), r9);
    var r8 := [Handle(0)] + r9;
    assert Apply(s7, Finish(0, true)) == s8;
    RunCons(s7, Finish(0, true), r8);
    var r7 := [Finish(0, true)] + r8;
    assert Apply(s6, Acquire(0)) == s7;
    RunCons(s6, Acquire(0), r7);
    var r6 := [Acquire(0)] + r7;
    assert Apply(s5, Receive) == s6;
    RunCons(s5, Receive, r6);
    steps := [Receive] + r6;
  }
}
