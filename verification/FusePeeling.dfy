/** Third phase of a construction attempt: hashes that are alone in some slot are taken off one by one. */
module FusePeeling {
  import opened Bits
  import opened Finite
  import opened FuseCounting
  import opened FuseFilter
  import opened FuseHash
  import opened Hypergraph

  function Mod3(x: nat): nat {
    if x > 2 then x - 3 else x
  }

  ghost function Used(pops: seq<Pop>): set<nat> {
    set i | 0 <= i < |pops| :: pops[i].slot
  }

  /** The slots waiting in the queue are distinct, unused, and hit by at most one live edge. */
  ghost predicate Waiting(E: seq<Edge>, live: set<nat>, used: set<nat>, queue: seq<nat>, slots: nat) {
    && Distinct(queue)
    && forall i | 0 <= i < |queue| :: queue[i] < slots && queue[i] !in used && Summary(E, live, queue[i]).count <= 1
  }

  /** Every unused slot that is hit by exactly one live edge is waiting. */
  ghost predicate NoneForgotten(E: seq<Edge>, live: set<nat>, used: set<nat>, queue: seq<nat>, slots: nat) {
    forall s | 0 <= s < slots && s !in used && Summary(E, live, s).count == 1 :: s in queue
  }

  ghost predicate Untouched(E: seq<Edge>, live: set<nat>, used: set<nat>) {
    forall k, s | k in live && s in used :: !HitBy(E, k, s)
  }

  ghost predicate PeelState(E: seq<Edge>, kept: set<nat>, live: set<nat>, pops: seq<Pop>,
                            c: seq<nat>, h: seq<nat>, queue: seq<nat>) {
    && live <= kept && Within(kept, |E|)
    && PeelOrder(E, pops) && Covers(pops, kept - live) && |pops| + |live| == |kept|
    && Untouched(E, live, Used(pops))
    && Matches(c, h, E, live, Used(pops))
    && Waiting(E, live, Used(pops), queue, |c|)
    && NoneForgotten(E, live, Used(pops), queue, |c|)
  }

  // ---- one step ----

  /** The queue after a slot reached count one, or stayed out. */
  ghost function Enqueue(queue: seq<nat>, s: nat, count: nat): seq<nat> {
    if count == 2 then queue + [s] else queue
  }

  /** The packed counts of two slots after one hash left them in the given roles. */
  ghost function Lowered(c: seq<nat>, o1: nat, r1: nat, o2: nat, r2: nat): seq<nat>
    requires o1 < |c| && o2 < |c| && o1 != o2 && c[o1] >= 4 && c[o2] >= 4
  {
    c[o1 := Xor(c[o1] - 4, r1)][o2 := Xor(c[o2] - 4, r2)]
  }

  ghost function Unmixed(h: seq<nat>, o1: nat, o2: nat, hash: nat): seq<nat>
    requires o1 < |h| && o2 < |h| && o1 != o2
  {
    h[o1 := Xor(h[o1], hash)][o2 := Xor(h[o2], hash)]
  }

  lemma SlotSummary(c: seq<nat>, h: seq<nat>, E: seq<Edge>, live: set<nat>, used: set<nat>, k: nat, s: nat)
    requires Matches(c, h, E, live, used) && s < |c| && s !in used
    requires k in live && k < |E| && E[k].Hits(s)
    ensures c[s] >= 4 && Shr(c[s], 2) == Summary(E, live, s).count
    ensures Packs(Xor(c[s] - 4, E[k].RoleOf(s)), Xor(h[s], E[k].hash), Summary(E, live - {k}, s))
    ensures Summary(E, live, s).count == Summary(E, live - {k}, s).count + 1
  {
    SummaryRemove(E, live, k, s);
    RoleBelowFour(E, live - {k}, |E|, s);
    Unpack(c[s], h[s], Summary(E, live, s));
    PackRemove(c[s], h[s], Summary(E, live - {k}, s), E[k], s);
  }

  lemma HitSlotsUnused(E: seq<Edge>, live: set<nat>, used: set<nat>, k: nat)
    requires Untouched(E, live, used) && k in live && k < |E|
    ensures E[k].s0 !in used && E[k].s1 !in used && E[k].s2 !in used
  {
    assert E[k].s0 in used ==> !HitBy(E, k, E[k].s0);
    assert E[k].s1 in used ==> !HitBy(E, k, E[k].s1);
    assert E[k].s2 in used ==> !HitBy(E, k, E[k].s2);
  }

  lemma StepMatches(c: seq<nat>, h: seq<nat>, E: seq<Edge>, live: set<nat>, used: set<nat>, k: nat,
                    index: nat, o1: nat, r1: nat, o2: nat, r2: nat)
    requires Matches(c, h, E, live, used) && Untouched(E, live, used)
    requires k in live && k < |E| && Roles(E[k], |c|, index, o1, r1, o2, r2)
    ensures c[o1] >= 4 && c[o2] >= 4
    ensures Matches(Lowered(c, o1, r1, o2, r2), Unmixed(h, o1, o2, E[k].hash), E, live - {k}, used + {index})
  {
    HitSlotsUnused(E, live, used, k);
    SlotSummary(c, h, E, live, used, k, o1);
    SlotSummary(c, h, E, live, used, k, o2);
    var c', h' := Lowered(c, o1, r1, o2, r2), Unmixed(h, o1, o2, E[k].hash);
    forall s | 0 <= s < |c| && s !in used + {index}
      ensures Packs(c'[s], h'[s], Summary(E, live - {k}, s))
    {
      SummaryRemove(E, live, k, s);
    }
  }

  /** `index` and the other two slots of an edge, with the roles those two play in it. */
  ghost predicate Roles(e: Edge, slots: nat, index: nat, o1: nat, r1: nat, o2: nat, r2: nat) {
    && index < slots && o1 < slots && o2 < slots
    && index != o1 && index != o2 && o1 != o2
    && (forall s :: e.Hits(s) <==> s == index || s == o1 || s == o2)
    && r1 == e.RoleOf(o1) && r2 == e.RoleOf(o2)
  }

  lemma RolesInTurn(e: Edge, slots: nat, found: nat)
    requires e.Proper(slots) && found < 3
    ensures Roles(e, slots, e.Slot(found), e.Slot(Mod3(found + 1)), Mod3(found + 1), e.Slot(Mod3(found + 2)),
              Mod3(found + 2))
  {
  }

  lemma StepOrder(E: seq<Edge>, kept: set<nat>, live: set<nat>, pops: seq<Pop>, k: nat, s: nat)
    requires live <= kept && PeelOrder(E, pops) && Covers(pops, kept - live)
    requires Untouched(E, live, Used(pops)) && k in live && HitBy(E, k, s)
    requires forall j | j in live && j != k :: !HitBy(E, j, s)
    ensures PeelOrder(E, pops + [Pop(k, s)]) && Covers(pops + [Pop(k, s)], kept - (live - {k}))
    ensures Used(pops + [Pop(k, s)]) == Used(pops) + {s}
    ensures Untouched(E, live - {k}, Used(pops) + {s})
  {
    var pops' := pops + [Pop(k, s)];
    forall i | 0 <= i < |pops|
      ensures pops[i].edge != k && !HitBy(E, k, pops[i].slot)
    {
      assert pops[i].slot in Used(pops);
      assert pops[i].edge in kept - live;
    }
    forall j
      ensures j in kept - (live - {k}) <==> exists i :: 0 <= i < |pops'| && pops'[i].edge == j
    {
      if j == k {
        assert pops'[|pops|].edge == k;
      } else if j in kept - live {
        var i :| 0 <= i < |pops| && pops[i].edge == j;
        assert pops'[i].edge == j;
      }
    }
    forall t
      ensures t in Used(pops') <==> t in Used(pops) + {s}
    {
      if t in Used(pops) {
        var i :| 0 <= i < |pops| && pops[i].slot == t;
        assert pops'[i].slot == t;
      }
      if t == s {
        assert pops'[|pops|].slot == s;
      }
    }
  }

  /** Summaries only shrink when an edge goes. */
  lemma SummaryShrinks(E: seq<Edge>, live: set<nat>, k: nat, s: nat)
    requires k in live && k < |E|
    ensures Summary(E, live, s).count == Summary(E, live - {k}, s).count + (if E[k].Hits(s) then 1 else 0)
  {
    SummaryRemove(E, live, k, s);
  }

  lemma StepQueue(E: seq<Edge>, live: set<nat>, used: set<nat>, queue: seq<nat>, slots: nat,
                  k: nat, index: nat, o1: nat, o2: nat, queue1: seq<nat>, queue2: seq<nat>)
    requires Waiting(E, live, used, queue + [index], slots) && NoneForgotten(E, live, used, queue + [index], slots)
    requires k in live && k < |E| && (exists r1, r2 :: Roles(E[k], slots, index, o1, r1, o2, r2))
    requires o1 !in used && o2 !in used
    requires queue1 == Enqueue(queue, o1, Summary(E, live, o1).count)
    requires queue2 == Enqueue(queue1, o2, Summary(E, live, o2).count)
    ensures Waiting(E, live - {k}, used + {index}, queue2, slots)
    ensures NoneForgotten(E, live - {k}, used + {index}, queue2, slots)
  {
    var q := queue + [index];
    forall s
      ensures Summary(E, live, s).count == Summary(E, live - {k}, s).count + (if E[k].Hits(s) then 1 else 0)
    {
      SummaryShrinks(E, live, k, s);
    }
    assert forall i | 0 <= i < |queue| :: queue[i] == q[i] && q[i] != q[|queue|];
    forall s | 0 <= s < slots && s !in used + {index} && Summary(E, live - {k}, s).count == 1
      ensures s in queue2
    {
      if s == o1 {
        assert s in queue1;
      } else if s == o2 {
      } else {
        assert s in q;
        var i :| 0 <= i < |q| && q[i] == s;
        assert queue[i] == s;
      }
    }
  }

  /** The slot taken from the queue: its stored summary is exact. */
  lemma TakenSlot(E: seq<Edge>, kept: set<nat>, live: set<nat>, pops: seq<Pop>,
                  c: seq<nat>, h: seq<nat>, queue: seq<nat>, index: nat)
    requires PeelState(E, kept, live, pops, c, h, queue + [index])
    ensures index < |c| && index !in Used(pops)
    ensures Packs(c[index], h[index], Summary(E, live, index))
    ensures Shr(c[index], 2) == Summary(E, live, index).count <= 1
    ensures And(c[index], 3) == Summary(E, live, index).role
  {
    var q := queue + [index];
    assert q[|queue|] == index;
    Unpack(c[index], h[index], Summary(E, live, index));
  }

  /** A slot that has lost all its edges is simply dropped. */
  lemma SkipStep(E: seq<Edge>, kept: set<nat>, live: set<nat>, pops: seq<Pop>,
                 c: seq<nat>, h: seq<nat>, queue: seq<nat>, index: nat)
    requires PeelState(E, kept, live, pops, c, h, queue + [index])
    requires index < |c| && Shr(c[index], 2) != 1
    ensures PeelState(E, kept, live, pops, c, h, queue)
  {
    TakenSlot(E, kept, live, pops, c, h, queue, index);
    var q, used := queue + [index], Used(pops);
    assert forall i | 0 <= i < |queue| :: queue[i] == q[i];
    forall s | 0 <= s < |c| && s !in used && Summary(E, live, s).count == 1
      ensures s in queue
    {
      var i :| 0 <= i < |q| && q[i] == s;
      assert queue[i] == s;
    }
  }

  /** A slot with one edge: which edge it is. */
  lemma AloneEdge(E: seq<Edge>, kept: set<nat>, live: set<nat>, pops: seq<Pop>,
                  c: seq<nat>, h: seq<nat>, queue: seq<nat>, index: nat) returns (k: nat)
    requires PeelState(E, kept, live, pops, c, h, queue + [index])
    requires index < |c| && Shr(c[index], 2) == 1
    ensures k in live && k < |E| && E[k].Hits(index)
    ensures h[index] == E[k].hash && And(c[index], 3) == E[k].RoleOf(index)
    ensures forall j | j in live && j != k :: !HitBy(E, j, index)
    ensures index !in Used(pops)
  {
    TakenSlot(E, kept, live, pops, c, h, queue, index);
    k := OneCount(E, live, |E|, index);
  }

  lemma PeelStep(E: seq<Edge>, kept: set<nat>, live: set<nat>, pops: seq<Pop>,
                 c: seq<nat>, h: seq<nat>, queue: seq<nat>, k: nat, index: nat, o1: nat, r1: nat, o2: nat, r2: nat)
    requires PeelState(E, kept, live, pops, c, h, queue + [index])
    requires k in live && k < |E| && Roles(E[k], |c|, index, o1, r1, o2, r2)
    requires forall j | j in live && j != k :: !HitBy(E, j, index)
    ensures c[o1] >= 4 && c[o2] >= 4
    ensures PeelState(E, kept, live - {k}, pops + [Pop(k, index)],
                      Lowered(c, o1, r1, o2, r2), Unmixed(h, o1, o2, E[k].hash),
                      Enqueue(Enqueue(queue, o1, Shr(c[o1], 2)), o2, Shr(c[o2], 2)))
  {
    var used := Used(pops);
    HitSlotsUnused(E, live, used, k);
    SlotSummary(c, h, E, live, used, k, o1);
    SlotSummary(c, h, E, live, used, k, o2);
    StepMatches(c, h, E, live, used, k, index, o1, r1, o2, r2);
    assert HitBy(E, k, index);
    StepOrder(E, kept, live, pops, k, index);
    var queue1 := Enqueue(queue, o1, Summary(E, live, o1).count);
    var queue2 := Enqueue(queue1, o2, Summary(E, live, o2).count);
    StepQueue(E, live, used, queue, |c|, k, index, o1, o2, queue1, queue2);
  }

  lemma QueueRoom(E: seq<Edge>, kept: set<nat>, live: set<nat>, pops: seq<Pop>,
                  c: seq<nat>, h: seq<nat>, queue: seq<nat>, k: nat, index: nat, o1: nat, r1: nat, o2: nat, r2: nat)
    requires PeelState(E, kept, live, pops, c, h, queue + [index])
    requires k in live && k < |E| && Roles(E[k], |c|, index, o1, r1, o2, r2)
    ensures |queue| < |c| && |Enqueue(queue, o1, Shr(c[o1], 2))| < |c|
  {
    var q, used := queue + [index], Used(pops);
    assert forall i | 0 <= i < |queue| :: queue[i] == q[i] && q[i] != q[|queue|];
    HitSlotsUnused(E, live, used, k);
    SlotSummary(c, h, E, live, used, k, o1);
    MissingOne(queue, |c|, index);
    if Shr(c[o1], 2) == 2 {
      MissingOne(queue + [o1], |c|, index);
    }
  }

  // ---- the stack of popped hashes ----

  ghost predicate Recorded(E: seq<Edge>, pops: seq<Pop>, order: seq<nat>, roles: seq<nat>) {
    && |pops| <= |order| && |pops| <= |roles|
    && forall i | 0 <= i < |pops| :: RecordedAt(E, pops[i], order[i], roles[i])
  }

  ghost predicate RecordedAt(E: seq<Edge>, pop: Pop, hash: nat, role: nat) {
    pop.edge < |E| && hash == E[pop.edge].hash && role < 3 && E[pop.edge].Slot(role) == pop.slot
  }

  lemma StackFits(E: seq<Edge>, kept: set<nat>, live: set<nat>, pops: seq<Pop>, k: nat)
    requires PeelOrder(E, pops) && Covers(pops, kept - live) && k in live && live <= kept && Within(kept, |E|)
    ensures |pops| < |E|
  {
    var edges := seq(|pops|, i requires 0 <= i < |pops| => pops[i].edge);
    forall i | 0 <= i < |pops|
      ensures edges[i] < |E| && edges[i] != k
    {
      assert pops[i].edge in kept - live;
    }
    MissingOne(edges, |E|, k);
  }

  // ---- the loops ----

  /** Collects every slot that is hit by exactly one hash. */
  method EnqueueAlone(t2count: array<u8>, alone: array<u32>, ghost h: seq<nat>, ghost E: seq<Edge>,
                      ghost kept: set<nat>)
    returns (qsize: nat)
    requires t2count as object != alone as object
    requires t2count.Length == alone.Length < U32 && Matches(t2count[..], h, E, kept, {}) && Within(kept, |E|)
    modifies alone
    ensures qsize <= alone.Length
    ensures PeelState(E, kept, kept, [], t2count[..], h, alone[..qsize])
  {
    qsize := 0;
    for i := 0 to alone.Length
      invariant qsize <= i
      invariant t2count[..] == old(t2count[..])
      invariant Distinct(alone[..qsize])
      invariant forall j | 0 <= j < qsize :: alone[j] < i && Summary(E, kept, alone[j]).count == 1
      invariant forall s | 0 <= s < i && Summary(E, kept, s).count == 1 :: s in alone[..qsize]
    {
      ghost var queue := alone[..qsize];
      Unpack(t2count[i], h[i], Summary(E, kept, i));
      alone[qsize] := i;
      assert alone[..qsize] == queue;
      assert alone[..qsize + 1] == queue + [i];
      if Shr(t2count[i], 2) == 1 {
        qsize := qsize + 1;
      }
    }
  }

  /** Takes a popped hash out of one of its other slots, queueing the slot when one hash is left in it. */
  method TakeOut(t2count: array<u8>, t2hash: array<u64>, alone: array<u32>, qsize: nat, other: nat, role: nat,
                 hash: u64)
    returns (qsize': nat)
    requires t2count as object != t2hash as object && t2count as object != alone as object
              && t2hash as object != alone as object
    requires t2count.Length == t2hash.Length == alone.Length < U32
    requires qsize < alone.Length && other < alone.Length && role < 3 && t2count[other] >= 4
    modifies t2count, t2hash, alone
    ensures qsize' <= alone.Length
    ensures alone[..qsize'] == Enqueue(old(alone[..qsize]), other, Shr(old(t2count[other]), 2))
    ensures t2count[..] == old(t2count[..])[other := Xor(old(t2count[other]) - 4, role)]
    ensures t2hash[..] == old(t2hash[..])[other := Xor(old(t2hash[other]), hash)]
  {
    alone[qsize] := other;
    qsize' := qsize;
    assert alone[..qsize] == old(alone[..qsize]);
    assert alone[..qsize + 1] == alone[..qsize] + [other];
    if Shr(t2count[other], 2) == 2 {
      qsize' := qsize' + 1;
    }
    RemoveHash(t2count, t2hash, other, role, hash);
  }

  predicate Separate(reverseOrder: array<u64>, reverseH: array<u8>, alone: array<u32>, t2count: array<u8>,
                     t2hash: array<u64>) {
    && reverseOrder as object != reverseH as object && reverseOrder as object != alone as object
    && reverseOrder as object != t2count as object && reverseOrder != t2hash
    && reverseH as object != alone as object && reverseH != t2count && reverseH as object != t2hash as object
    && alone as object != t2count as object && alone as object != t2hash as object
    && t2count as object != t2hash as object
  }

  lemma TakenInRange(E: seq<Edge>, kept: set<nat>, live: set<nat>, pops: seq<Pop>,
                     c: seq<nat>, h: seq<nat>, queue: seq<nat>, index: nat)
    requires PeelState(E, kept, live, pops, c, h, queue + [index])
    ensures index < |c|
  {
    TakenSlot(E, kept, live, pops, c, h, queue, index);
  }

  /** The state after popping edge k through `index`, and why every access on the way is in bounds. */
  lemma PopPlan(E: seq<Edge>, kept: set<nat>, live: set<nat>, pops: seq<Pop>,
                c: seq<nat>, h: seq<nat>, queue: seq<nat>, index: nat)
    returns (k: nat, o1: nat, r1: nat, o2: nat, r2: nat)
    requires PeelState(E, kept, live, pops, c, h, queue + [index]) && Wired(E, |c|)
    requires index < |c| && Shr(c[index], 2) == 1
    ensures k in live && k < |E| && E[k].Proper(|c|) && E[k].Hits(index) && |pops| < |E|
    ensures h[index] == E[k].hash && And(c[index], 3) == E[k].RoleOf(index)
    ensures r1 == Mod3(E[k].RoleOf(index) + 1) && r2 == Mod3(E[k].RoleOf(index) + 2)
    ensures o1 == E[k].Slot(r1) && o2 == E[k].Slot(r2) && o1 < |c| && o2 < |c| && o1 != o2
    ensures c[o1] >= 4 && c[o2] >= 4 && |queue| < |c| && |Enqueue(queue, o1, Shr(c[o1], 2))| < |c|
    ensures PeelState(E, kept, live - {k}, pops + [Pop(k, index)],
                      Lowered(c, o1, r1, o2, r2), Unmixed(h, o1, o2, E[k].hash),
                      Enqueue(Enqueue(queue, o1, Shr(c[o1], 2)), o2, Shr(c[o2], 2)))
  {
    k := AloneEdge(E, kept, live, pops, c, h, queue, index);
    r1, r2 := Mod3(E[k].RoleOf(index) + 1), Mod3(E[k].RoleOf(index) + 2);
    o1, o2 := E[k].Slot(r1), E[k].Slot(r2);
    RolesInTurn(E[k], |c|, E[k].RoleOf(index));
    StackFits(E, kept, live, pops, k);
    QueueRoom(E, kept, live, pops, c, h, queue, k, index, o1, r1, o2, r2);
    PeelStep(E, kept, live, pops, c, h, queue, k, index, o1, r1, o2, r2);
  }

  lemma RecordPop(E: seq<Edge>, pops: seq<Pop>, pop: Pop, order: seq<nat>, roles: seq<nat>, hash: nat, role: nat)
    requires Recorded(E, pops, order, roles) && |pops| < |order| && |pops| < |roles|
    requires RecordedAt(E, pop, hash, role)
    ensures Recorded(E, pops + [pop], order[|pops| := hash], roles[|pops| := role])
  {
  }

  /** Takes the hash that is alone in slot `index` out of its other slots. */
  method PeelOne(ly: Layout, alone: array<u32>, t2count: array<u8>, t2hash: array<u64>, qsize: nat, index: nat,
                 ghost e: Edge, ghost o1: nat, ghost r1: nat, ghost o2: nat, ghost r2: nat)
    returns (qsize': nat, hash: u64, found: u8)
    requires t2count as object != t2hash as object && t2count as object != alone as object
              && t2hash as object != alone as object
    requires t2count.Length == t2hash.Length == alone.Length < U32
    requires index < alone.Length && e.Hits(index)
    requires t2hash[index] == e.hash && And(t2count[index], 3) == e.RoleOf(index)
    requires HashOfHash(e.hash, ly.segmentLength, ly.mask, ly.segmentCountLength) == (e.s0, e.s1, e.s2)
    requires r1 == Mod3(e.RoleOf(index) + 1) && r2 == Mod3(e.RoleOf(index) + 2) && o1 == e.Slot(r1) && o2 == e.Slot(r2)
    requires o1 < alone.Length && o2 < alone.Length && o1 != o2 && t2count[o1] >= 4 && t2count[o2] >= 4
    requires qsize < alone.Length && |Enqueue(alone[..qsize], o1, Shr(t2count[o1], 2))| < alone.Length
    modifies alone, t2count, t2hash
    ensures hash == e.hash && found == e.RoleOf(index) && qsize' <= alone.Length
    ensures t2count[..] == Lowered(old(t2count[..]), o1, r1, o2, r2)
    ensures t2hash[..] == Unmixed(old(t2hash[..]), o1, o2, hash)
    ensures alone[..qsize']
              == Enqueue(Enqueue(old(alone[..qsize]), o1, Shr(old(t2count[o1]), 2)), o2, Shr(old(t2count[o2]), 2))
  {
    hash := t2hash[index];
    found := And(t2count[index], 3);
    var (index1, index2, index3) := HashOfHash(hash, ly.segmentLength, ly.mask, ly.segmentCountLength);
    var h012 := [0, index2, index3, index1, index2, 0];
    var otherIndex1, otherIndex2 := h012[found + 1], h012[found + 2];
    assert otherIndex1 == o1 && otherIndex2 == o2;
    qsize' := TakeFromBoth(t2count, t2hash, alone, qsize, otherIndex1, Mod3(found + 1), otherIndex2, Mod3(found + 2),
        hash);
  }

  method TakeFromBoth(t2count: array<u8>, t2hash: array<u64>, alone: array<u32>, qsize: nat,
                      other1: nat, role1: nat, other2: nat, role2: nat, hash: u64)
    returns (qsize': nat)
    requires t2count as object != t2hash as object && t2count as object != alone as object
              && t2hash as object != alone as object
    requires t2count.Length == t2hash.Length == alone.Length < U32
    requires other1 < alone.Length && other2 < alone.Length && other1 != other2 && role1 < 3 && role2 < 3
    requires t2count[other1] >= 4 && t2count[other2] >= 4
    requires qsize < alone.Length && |Enqueue(alone[..qsize], other1, Shr(t2count[other1], 2))| < alone.Length
    modifies t2count, t2hash, alone
    ensures qsize' <= alone.Length
    ensures alone[..qsize'] == Enqueue(Enqueue(old(alone[..qsize]), other1, Shr(old(t2count[other1]), 2)),
                                       other2, Shr(old(t2count[other2]), 2))
    ensures t2count[..] == Lowered(old(t2count[..]), other1, role1, other2, role2)
    ensures t2hash[..] == Unmixed(old(t2hash[..]), other1, other2, hash)
  {
    qsize' := TakeOut(t2count, t2hash, alone, qsize, other1, role1, hash);
    qsize' := TakeOut(t2count, t2hash, alone, qsize', other2, role2, hash);
  }

  lemma EdgeIsLocated(E: seq<Edge>, hashes: seq<u64>, ly: Layout, k: nat)
    requires AreEdges(E, hashes, ly) && k < |E|
    ensures HashOfHash(E[k].hash, ly.segmentLength, ly.mask, ly.segmentCountLength) == (E[k].s0, E[k].s1, E[k].s2)
  {
    assert E[k] == EdgeOf(hashes[k], ly);
  }

  /** Pops the hash that is alone in slot `index`. */
  method PopAlone(ly: Layout, alone: array<u32>, t2count: array<u8>, t2hash: array<u64>, qsize: nat, index: nat,
                  ghost E: seq<Edge>, ghost hashes: seq<u64>, ghost kept: set<nat>, ghost live: set<nat>,
                  ghost pops: seq<Pop>)
    returns (qsize': nat, hash: u64, found: u8, ghost live': set<nat>, ghost pop: Pop)
    requires t2count as object != t2hash as object && t2count as object != alone as object
              && t2hash as object != alone as object
    requires t2count.Length == t2hash.Length == alone.Length == ly.slots < U32
    requires AreEdges(E, hashes, ly) && Wired(E, ly.slots)
    requires qsize < alone.Length && index < alone.Length && Shr(t2count[index], 2) == 1
    requires PeelState(E, kept, live, pops, t2count[..], t2hash[..], alone[..qsize] + [index])
    modifies alone, t2count, t2hash
    ensures qsize' <= alone.Length
    ensures PeelState(E, kept, live', pops + [pop], t2count[..], t2hash[..], alone[..qsize'])
    ensures |pops| < |E| && |live'| < |live| && RecordedAt(E, pop, hash, found)
  {
    ghost var k, o1, r1, o2, r2 := PopPlan(E, kept, live, pops, t2count[..], t2hash[..], alone[..qsize], index);
    EdgeIsLocated(E, hashes, ly, k);
    qsize', hash, found := PeelOne(ly, alone, t2count, t2hash, qsize, index, E[k], o1, r1, o2, r2);
    pop, live' := Pop(k, index), live - {k};
  }

  /** Takes one slot from the queue and, when a hash is alone in it, pops that hash. */
  method PeelSlot(ly: Layout, alone: array<u32>, t2count: array<u8>, t2hash: array<u64>, qsize: nat,
                  ghost E: seq<Edge>, ghost hashes: seq<u64>, ghost kept: set<nat>, ghost live: set<nat>,
                  ghost pops: seq<Pop>)
    returns (qsize': nat, popped: bool, hash: u64, found: u8, ghost live': set<nat>, ghost pops': seq<Pop>)
    requires t2count as object != t2hash as object && t2count as object != alone as object
              && t2hash as object != alone as object
    requires t2count.Length == t2hash.Length == alone.Length == ly.slots < U32
    requires AreEdges(E, hashes, ly) && Wired(E, ly.slots)
    requires 0 < qsize <= alone.Length
    requires PeelState(E, kept, live, pops, t2count[..], t2hash[..], alone[..qsize])
    modifies alone, t2count, t2hash
    ensures qsize' <= alone.Length
    ensures PeelState(E, kept, live', pops', t2count[..], t2hash[..], alone[..qsize'])
    ensures !popped ==> pops' == pops && live' == live && qsize' < qsize
    ensures popped ==> |pops| < |E| && |pops'| == |pops| + 1 && pops'[..|pops|] == pops && |live'| < |live|
    ensures popped ==> RecordedAt(E, pops'[|pops|], hash, found)
  {
    qsize', live', pops', hash, found := qsize - 1, live, pops, 0, 0;
    var index := alone[qsize'];
    ghost var queue := alone[..qsize'];
    assert alone[..qsize] == queue + [index];
    TakenInRange(E, kept, live, pops, t2count[..], t2hash[..], queue, index);
    popped := Shr(t2count[index], 2) == 1;
    if popped {
      ghost var pop;
      qsize', hash, found, live', pop := PopAlone(ly, alone, t2count, t2hash, qsize', index, E, hashes, kept, live,
          pops);
      pops' := pops + [pop];
    } else {
      SkipStep(E, kept, live, pops, t2count[..], t2hash[..], queue, index);
    }
  }

  /** Peels until the queue is empty.  What is left over, if anything, is a core. */
  method Peel(ly: Layout, size: nat, reverseOrder: array<u64>, reverseH: array<u8>, alone: array<u32>,
              t2count: array<u8>, t2hash: array<u64>,
              ghost E: seq<Edge>, ghost hashes: seq<u64>, ghost kept: set<nat>)
    returns (stackSize: nat, ghost pops: seq<Pop>, ghost live: set<nat>)
    requires Separate(reverseOrder, reverseH, alone, t2count, t2hash)
    requires ly.Valid() && t2count.Length == t2hash.Length == alone.Length == ly.slots
    requires reverseOrder.Length == size + 1 && reverseH.Length == size
    requires |hashes| == size && AreEdges(E, hashes, ly)
    requires Matches(t2count[..], t2hash[..], E, kept, {}) && Within(kept, size)
    modifies reverseOrder, reverseH, alone, t2count, t2hash
    ensures reverseOrder[size] == old(reverseOrder[size])
    ensures stackSize == |pops| <= size && Recorded(E, pops, reverseOrder[..], reverseH[..])
    ensures live <= kept && PeelOrder(E, pops) && Covers(pops, kept - live) && |pops| + |live| == |kept|
    ensures live != {} ==> IsCore(E, live)
  {
    stackSize, pops, live := 0, [], kept;
    EdgesAreWired(E, hashes, ly);
    var qsize: nat := EnqueueAlone(t2count, alone, t2hash[..], E, kept);
    while qsize > 0
      invariant qsize <= alone.Length
      invariant PeelState(E, kept, live, pops, t2count[..], t2hash[..], alone[..qsize])
      invariant stackSize == |pops| <= size && Recorded(E, pops, reverseOrder[..], reverseH[..])
      invariant reverseOrder[size] == old(reverseOrder[size])
      decreases |live|, qsize
    {
      ghost var before, order, roles := pops, reverseOrder[..], reverseH[..];
      var popped, hash, found;
      qsize, popped, hash, found, live, pops := PeelSlot(ly, alone, t2count, t2hash, qsize, E, hashes, kept, live,
          pops);
      if popped {
        reverseH[stackSize] := found;
        reverseOrder[stackSize] := hash;
        RecordPop(E, before, pops[stackSize], order, roles, hash, found);
        assert pops == before + [pops[stackSize]];
        stackSize := stackSize + 1;
      }
    }
    if live != {} {
      LeftOver(E, kept, live, pops, t2count[..], t2hash[..]);
    }
  }

  lemma LeftOver(E: seq<Edge>, kept: set<nat>, live: set<nat>, pops: seq<Pop>, c: seq<nat>, h: seq<nat>)
    requires PeelState(E, kept, live, pops, c, h, []) && Wired(E, |c|) && live != {}
    ensures IsCore(E, live)
  {
    forall k, role | k in live && 0 <= role < 3
      ensures Summary(E, live, E[k].Slot(role)).count != 1
    {
      HitSlotsUnused(E, live, Used(pops), k);
    }
    ResidueIsCore(E, live);
  }
}
