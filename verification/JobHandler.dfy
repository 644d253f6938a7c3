/** The handler loop and the stored pending set (`crates/core/src/app_state.rs`,
    `crates/core/src/job/manager.rs`): their updates in place are the steps of `JobProtocol`. */
module JobHandlers {
  import opened Finite
  import opened JobProtocol
  import StreamMaps

  /** The file of pending jobs: one that was written in part is no list any more. */
  datatype File = Whole(jobs: seq<Job>) | Torn

  /** Writing empties the file first, so a failed write leaves it as it was or in part. */
  datatype Write = Written | NotOpened | BrokenOff

  function Stored(write: Write, before: File, jobs: seq<Job>): File {
    match write
    case Written => Whole(jobs)
    case NotOpened => before
    case BrokenOff => Torn
  }

  /** What the next process takes from the file: nothing from one that it cannot parse. */
  function Loaded(file: File): seq<Job> {
    match file
    case Whole(jobs) => jobs
    case Torn => []
  }

  /** No id is twice in the set, and none in what the next process loads. */
  ghost predicate IdsOnce(jobs: seq<Job>, file: File) {
    Distinct(Ids(jobs)) && Distinct(Ids(Loaded(file)))
  }

  /** The pending set and the file that keeps it for the next process. */
  class JobSetManager {
    var jobs: seq<Job>
    var stored: File

    constructor (file: File)
      ensures jobs == Loaded(file) && stored == file
    {
      jobs, stored := Loaded(file), file;
    }

    /** Keeps the jobs with another id, in order. */
    method Retain(id: string)
      modifies this`jobs
      ensures jobs == RemoveId(old(jobs), id)
    {
      var kept: seq<Job> := [];
      for i := 0 to |jobs|
        invariant kept == RemoveId(jobs[..i], id)
      {
        assert jobs[..i + 1][..i] == jobs[..i];
        if jobs[i].id != id {
          kept := kept + [jobs[i]];
        }
      }
      assert jobs[..|jobs|] == jobs;
      jobs := kept;
    }

    method Save(write: Write)
      modifies this`stored
      ensures stored == Stored(write, old(stored), jobs)
    {
      match write {
        case Written => stored := Whole(jobs);
        case NotOpened =>
        case BrokenOff => stored := Torn;
      }
    }

    /** Replaces any job with the same id and writes the set; a failed write is only logged. */
    method Add(job: Job, write: Write)
      modifies this
      ensures jobs == AddJob(old(jobs), job)
      ensures stored == Stored(write, old(stored), jobs)
      ensures old(IdsOnce(jobs, stored)) ==> IdsOnce(jobs, stored)
    {
      AddJobIds(jobs, job);
      Retain(job.id);
      jobs := jobs + [job];
      Save(write);
    }

    method Remove(id: string, write: Write)
      modifies this
      ensures jobs == RemoveId(old(jobs), id)
      ensures stored == Stored(write, old(stored), jobs)
      ensures old(IdsOnce(jobs, stored)) ==> IdsOnce(jobs, stored)
    {
      RemoveIdIds(jobs, id);
      Retain(id);
      Save(write);
    }
  }

  class JobHandler {
    var channel: seq<Job>
    const jobs: StreamMaps.StreamMap<string, Job>
    const manager: JobSetManager

    /** The handler's part of a protocol state. */
    ghost predicate Represents(st: State)
      reads this, jobs, manager
    {
      && jobs.Valid() && jobs.queue == map[]
      && channel == st.channel && manager.jobs == st.pending
      && (forall id :: id in jobs.inProgress <==> id in TaskIds(st.tasks))
      && (forall i | 0 <= i < |st.tasks| :: st.tasks[i].job.id in jobs.inProgress
                                            && jobs.inProgress[st.tasks[i].job.id] == st.tasks[i].job)
    }

    /** Every loaded job is sent to the channel. */
    constructor (file: File)
      ensures fresh(jobs) && fresh(manager) && manager.stored == file
      ensures forall st: State | st.channel == st.pending == Loaded(file) && st.tasks == [] :: Represents(st)
    {
      channel := Loaded(file);
      jobs := new StreamMaps.StreamMap();
      manager := new JobSetManager(file);
    }

    /** The channel gave a job: run it unless its id is already in progress. */
    method OnJob(ghost st: State) returns (added: bool)
      requires Represents(st) && channel != [] && Enabled(st, Receive)
      modifies this, jobs
      ensures Represents(Apply(st, Receive))
      ensures Safe(st) ==> added
    {
      var job := channel[0];
      channel := channel[1..];
      added := jobs.AddIfNotInProgress(job.id, job);
      ghost var st' := Apply(st, Receive);
      if Safe(st) {
        NeverSkipped(st);
      }
      if added {
        assert TaskIds(st'.tasks) == TaskIds(st.tasks) + [job.id];
        forall i | 0 <= i < |st.tasks|
          ensures st.tasks[i].job.id != job.id
        {
          assert TaskIds(st.tasks)[i] in TaskIds(st.tasks);
        }
      }
    }

    /** Sends on what follows a job, or removes the job from the pending set. */
    method Settle(id: string, result: Result, write: Write)
      modifies this, manager
      ensures channel == match result case Next(next) => old(channel) + [next]
                                      case Retry(again) => old(channel) + [again]
                                      case _ => old(channel)
      ensures manager.jobs == if result.Done? || result.Failed? then RemoveId(old(manager.jobs), id)
                              else old(manager.jobs)
      ensures manager.stored == if result.Done? || result.Failed? then Stored(write, old(manager.stored), manager.jobs)
                                else old(manager.stored)
    {
      match result {
        case Done => manager.Remove(id, write);
        case Next(next) => channel := channel + [next];
        case Retry(again) => channel := channel + [again];
        case Failed => manager.Remove(id, write);
      }
    }

    /** A job completed: settle it or send on what follows. */
    method OnResult(ghost st: State, ghost i: nat, id: string, result: Result, write: Write)
      requires Represents(st) && Distinct(TaskIds(st.tasks)) && Enabled(st, Handle(i))
      requires st.tasks[i].job.id == id && st.tasks[i].phase.result == result
      modifies this, jobs, manager
      ensures Represents(Apply(st, Handle(i)))
      ensures manager.stored == if result.Done? || result.Failed? then Stored(write, old(manager.stored), manager.jobs)
                                else old(manager.stored)
    {
      assert TaskIds(st.tasks)[i] == id;
      var polled := jobs.PollNextEntry(StreamMaps.Completed(id, result));
      Settle(id, result, write);
      WithoutIds(st.tasks, i);
      ghost var rest := Without(st.tasks, i);
      forall j | 0 <= j < |rest|
        ensures rest[j].job.id in jobs.inProgress && jobs.inProgress[rest[j].job.id] == rest[j].job
      {
        assert TaskIds(rest)[j] in TaskIds(rest);
      }
    }
  }
}
