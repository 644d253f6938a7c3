/** Futures keyed by index: at most one in progress per index, the others queued behind it
    (`crates/core/src/stream_map.rs`). */
module StreamMaps {
  import opened Options

  /** What the pool of in-progress futures reports when it is polled. */
  datatype Ready<+I, +R> = Pending | Completed(index: I, result: R)

  datatype Poll<+T> = NotReady | Ready(value: T)

  // ---- histories ----

  /** The futures of one index, in order. */
  function Of<I(==), F>(history: seq<(I, F)>, index: I): seq<F> {
    if history == [] then []
    else
      var rest := Of(history[..|history| - 1], index);
      var (i, f) := history[|history| - 1];
      if i == index then rest + [f] else rest
  }

  lemma OfAppend<I, F>(history: seq<(I, F)>, i: I, f: F, index: I)
    ensures Of(history + [(i, f)], index) == if i == index then Of(history, index) + [f] else Of(history, index)
  {
    var h := history + [(i, f)];
    assert h[..|h| - 1] == history;
  }

  lemma {:induction false} CountInOf<I, F>(history: seq<(I, F)>, i: I, f: F)
    ensures multiset(history)[(i, f)] == multiset(Of(history, i))[f]
  {
    if history != [] {
      var front, last := history[..|history| - 1], history[|history| - 1];
      CountInOf(front, i, f);
      assert history == front + [last];
      assert multiset(history) == multiset(front) + multiset{last};
      if last.0 == i {
        assert multiset(Of(history, i)) == multiset(Of(front, i)) + multiset{last.1};
      }
    }
  }

  /** Everything given was accepted, as often as it was given. */
  lemma GivenWithinAccepted<I(!new), F(!new)>(accepted: seq<(I, F)>, given: seq<(I, F)>, work: map<I, seq<F>>)
    requires forall i :: Of(accepted, i) == Of(given, i) + (if i in work then work[i] else [])
    ensures multiset(given) <= multiset(accepted) && |given| <= |accepted|
    ensures (forall i | i in work :: work[i] == []) ==> multiset(given) == multiset(accepted)
  {
    forall p: (I, F)
      ensures multiset(given)[p] <= multiset(accepted)[p]
      ensures (forall i | i in work :: work[i] == []) ==> multiset(given)[p] == multiset(accepted)[p]
    {
      var (i, f) := p;
      CountInOf(accepted, i, f);
      CountInOf(given, i, f);
      var w := if i in work then work[i] else [];
      assert multiset(Of(accepted, i)) == multiset(Of(given, i)) + multiset(w);
    }
    var rest := multiset(accepted) - multiset(given);
    assert multiset(accepted) == multiset(given) + rest;
  }

  // ---- the map ----

  class StreamMap<I(==, !new), F(!new)> {
    var inProgress: map<I, F>
    var queue: map<I, seq<F>>
    ghost var Accepted: seq<(I, F)>
    ghost var Given: seq<(I, F)>

    /** Work left for an index: the future in progress, then the queued ones. */
    ghost function Work(index: I): seq<F>
      reads this`inProgress, this`queue
    {
      (if index in inProgress then [inProgress[index]] else []) + (if index in queue then queue[index] else [])
    }

    /** Queued indices are in progress, no empty queue is stored, and per index what was accepted is
        what was given followed by what is left. */
    ghost predicate Valid()
      reads this
    {
      && queue.Keys <= inProgress.Keys
      && (forall index | index in queue :: queue[index] != [])
      && (forall index: I :: Of(Accepted, index) == Of(Given, index) + Work(index))
    }

    constructor ()
      ensures Valid() && inProgress == map[] && queue == map[]
      ensures Accepted == [] && Given == []
    {
      inProgress, queue := map[], map[];
      Accepted, Given := [], [];
    }

    /** Runs the future now, or behind the others of its index. */
    method Push(index: I, fut: F)
      requires Valid()
      modifies this
      ensures Valid()
      ensures Accepted == old(Accepted) + [(index, fut)] && Given == old(Given)
      ensures Work(index) == old(Work(index)) + [fut]
      ensures forall i | i != index :: Work(i) == old(Work(i))
      ensures index in inProgress && (old(index in inProgress) ==> inProgress == old(inProgress))
    {
      if index in inProgress {
        var tasks := if index in queue then queue[index] else [];
        queue := queue[index := tasks + [fut]];
      } else {
        inProgress := inProgress[index := fut];
      }
      Accept(index, fut);
    }

    ghost method Accept(index: I, fut: F)
      modifies this`Accepted
      ensures Accepted == old(Accepted) + [(index, fut)]
      ensures forall i: I :: Of(Accepted, i) ==
                if i == index then Of(old(Accepted), i) + [fut] else Of(old(Accepted), i)
    {
      forall i: I
        ensures Of(Accepted + [(index, fut)], i) == if i == index then Of(Accepted, i) + [fut] else Of(Accepted, i)
      {
        OfAppend(Accepted, index, fut, i);
      }
      Accepted := Accepted + [(index, fut)];
    }

    /** Refuses the future when its index is busy. */
    method AddIfNotInProgress(index: I, fut: F) returns (added: bool)
      requires Valid()
      modifies this
      ensures Valid()
      ensures added == old(index !in inProgress)
      ensures added ==> Accepted == old(Accepted) + [(index, fut)] && Work(index) == [fut]
      ensures !added ==> Accepted == old(Accepted) && Work(index) == old(Work(index))
      ensures Given == old(Given) && queue == old(queue)
      ensures inProgress == if added then old(inProgress)[index := fut] else old(inProgress)
      ensures forall i | i != index :: Work(i) == old(Work(i))
    {
      if index in inProgress {
        added := false;
      } else {
        inProgress := inProgress[index := fut];
        Accept(index, fut);
        added := true;
      }
    }

    /** Starts the next queued future of an index that has just become free. */
    method ProcessQueue(index: I)
      requires index !in inProgress
      requires forall i | i in queue :: queue[i] != []
      requires forall i | i in queue && i != index :: i in inProgress
      modifies this`inProgress, this`queue
      ensures queue.Keys <= inProgress.Keys && forall i | i in queue :: queue[i] != []
      ensures forall i :: Work(i) == old(Work(i))
      ensures old(index !in queue) ==> inProgress == old(inProgress) && queue == old(queue)
    {
      if index in queue {
        var tasks := queue[index];
        inProgress := inProgress[index := tasks[0]];
        tasks := tasks[1..];
        queue := queue[index := tasks];
        if |tasks| == 0 {
          queue := map i | i in queue && i != index :: queue[i];
        }
      }
    }

    /** Takes a completed future out and starts the next one of its index. */
    method Finish(index: I)
      requires Valid() && index in inProgress
      modifies this
      ensures Valid() && Accepted == old(Accepted)
      ensures Given == old(Given) + [(index, old(inProgress[index]))]
      ensures old(Work(index)) == [old(inProgress[index])] + Work(index)
      ensures forall i | i != index :: Work(i) == old(Work(i))
      ensures old(index !in queue) ==> inProgress == old(inProgress) - {index} && queue == old(queue)
    {
      ghost var fut := inProgress[index];
      label before:
      inProgress := inProgress - {index};
      assert forall i | i != index :: Work(i) == old@before(Work(i));
      assert old(Work(index)) == [fut] + Work(index);
      ProcessQueue(index);
      Give(index, fut);
      forall i: I
        ensures Of(Accepted, i) == Of(Given, i) + Work(i)
      {
        assert Of(Accepted, i) == Of(old(Given), i) + old(Work(i));
        if i == index {
          assert Of(old(Given), i) + ([fut] + Work(i)) == Of(old(Given), i) + [fut] + Work(i);
        } else {
          assert Work(i) == old(Work(i));
        }
      }
    }

    /** One poll.  With nothing in progress the stream is over, and then nothing is queued either;
        otherwise the completed index gives its oldest future and the next one starts. */
    method PollNextEntry<R>(ready: Ready<I, R>) returns (poll: Poll<Option<(I, R)>>)
      requires Valid()
      requires ready.Completed? ==> ready.index in inProgress
      modifies this
      ensures Valid() && Accepted == old(Accepted)
      ensures old(inProgress) == map[] ==> poll == Ready(None) && queue == map[] && Given == old(Given)
      ensures old(inProgress) != map[] && ready.Pending? ==>
                poll == NotReady && inProgress == old(inProgress) && queue == old(queue) && Given == old(Given)
      ensures ready.Completed? ==>
                && poll == Ready(Some((ready.index, ready.result)))
                && Given == old(Given) + [(ready.index, old(inProgress[ready.index]))]
                && old(Work(ready.index)) == [old(inProgress[ready.index])] + Work(ready.index)
                && (forall i | i != ready.index :: Work(i) == old(Work(i)))
                && (old(ready.index !in queue) ==> inProgress == old(inProgress) - {ready.index} && queue == old(queue))
      // Remaining work: never negative, and one less after every completion.
      ensures |Accepted| - |Given| == old(|Accepted| - |Given|) - (if ready.Completed? then 1 else 0)
      ensures |Given| <= |Accepted|
    {
      if inProgress == map[] {
        assert queue == map[];
        poll := Ready(None);
      } else if ready.Pending? {
        poll := NotReady;
      } else {
        Finish(ready.index);
        poll := Ready(Some((ready.index, ready.result)));
      }
      Remaining();
    }

    ghost method Give(index: I, fut: F)
      modifies this`Given
      ensures Given == old(Given) + [(index, fut)]
      ensures forall i: I :: Of(Given, i) == if i == index then Of(old(Given), i) + [fut] else Of(old(Given), i)
    {
      forall i: I
        ensures Of(Given + [(index, fut)], i) == if i == index then Of(Given, i) + [fut] else Of(Given, i)
      {
        OfAppend(Given, index, fut, i);
      }
      Given := Given + [(index, fut)];
    }

    lemma Remaining()
      requires Valid()
      ensures |Given| <= |Accepted|
      ensures multiset(Given) <= multiset(Accepted)
    {
      GivenWithinAccepted(Accepted, Given, map i | i in inProgress :: Work(i));
    }

    /** Terminated exactly when everything accepted has been given, each future as often as it was accepted. */
    function IsTerminated(): (done: bool)
      requires Valid()
      reads this
      ensures done <==> multiset(Given) == multiset(Accepted)
    {
      TerminatedIffAllGiven();
      inProgress == map[] && queue == map[]
    }

    lemma TerminatedIffAllGiven()
      requires Valid()
      ensures inProgress == map[] && queue == map[] <==> multiset(Given) == multiset(Accepted)
    {
      if inProgress == map[] && queue == map[] {
        GivenWithinAccepted(Accepted, Given, map[]);
      } else {
        var i :| i in inProgress;
        CountInOf(Accepted, i, inProgress[i]);
        CountInOf(Given, i, inProgress[i]);
        assert inProgress[i] in multiset(Work(i));
        assert multiset(Of(Accepted, i)) == multiset(Of(Given, i)) + multiset(Work(i));
      }
    }
  }
}
