/** Peeling a 3-uniform hypergraph: the theory behind the binary fuse filter.

    An edge is a hash together with its three slots.  Each slot keeps a summary of the live edges
    that hit it: how many, the xor of the roles the slot plays in them, the xor of their hashes. */
module Hypergraph {
  import opened Bits
  import opened Finite

  datatype Edge = Edge(hash: nat, s0: nat, s1: nat, s2: nat) {
    function Slot(role: nat): nat {
      if role == 0 then s0 else if role == 1 then s1 else s2
    }

    predicate Hits(s: nat) {
      s == s0 || s == s1 || s == s2
    }

    function RoleOf(s: nat): nat {
      if s == s0 then 0 else if s == s1 then 1 else 2
    }

    predicate Proper(slots: nat) {
      s0 < slots && s1 < slots && s2 < slots && s0 != s1 && s0 != s2 && s1 != s2
    }
  }

  datatype Cell = Cell(count: nat, role: nat, hash: nat) {
    function With(e: Edge, s: nat): Cell {
      if e.Hits(s) then Cell(count + 1, Xor(role, e.RoleOf(s)), Xor(hash, e.hash)) else this
    }
  }

  /** Summary at slot `s` of the live edges among the first `n`. */
  ghost function CellAt(E: seq<Edge>, live: set<nat>, n: nat, s: nat): Cell
    requires n <= |E|
  {
    if n == 0 then Cell(0, 0, 0)
    else if n - 1 in live then CellAt(E, live, n - 1, s).With(E[n - 1], s)
    else CellAt(E, live, n - 1, s)
  }

  ghost function Summary(E: seq<Edge>, live: set<nat>, s: nat): Cell {
    CellAt(E, live, |E|, s)
  }

  // ---- summaries ----

  lemma {:induction false} CellFrame(E: seq<Edge>, live: set<nat>, live': set<nat>, n: nat, s: nat)
    requires n <= |E|
    requires forall k | 0 <= k < n :: k in live <==> k in live'
    ensures CellAt(E, live, n, s) == CellAt(E, live', n, s)
  {
    if n > 0 {
      CellFrame(E, live, live', n - 1, s);
    }
  }

  lemma WithSwap(c: Cell, d: Edge, e: Edge, s: nat)
    ensures c.With(d, s).With(e, s) == c.With(e, s).With(d, s)
  {
    XorSwap(c.role, d.RoleOf(s), e.RoleOf(s));
    XorSwap(c.hash, d.hash, e.hash);
  }

  /** Bringing one more edge to life adds it to the summary, wherever it stands in the list. */
  lemma {:induction false} CellInsert(E: seq<Edge>, live: set<nat>, k: nat, n: nat, s: nat)
    requires k < n <= |E| && k !in live
    ensures CellAt(E, live + {k}, n, s) == CellAt(E, live, n, s).With(E[k], s)
  {
    if n - 1 == k {
      CellFrame(E, live, live + {k}, n - 1, s);
    } else {
      CellInsert(E, live, k, n - 1, s);
      WithSwap(CellAt(E, live, n - 1, s), E[k], E[n - 1], s);
    }
  }

  lemma SummaryInsert(E: seq<Edge>, live: set<nat>, k: nat, s: nat)
    requires k < |E| && k !in live
    ensures Summary(E, live + {k}, s) == Summary(E, live, s).With(E[k], s)
  {
    CellInsert(E, live, k, |E|, s);
  }

  lemma SummaryRemove(E: seq<Edge>, live: set<nat>, k: nat, s: nat)
    requires k < |E| && k in live
    ensures Summary(E, live, s) == Summary(E, live - {k}, s).With(E[k], s)
  {
    SummaryInsert(E, live - {k}, k, s);
    assert live - {k} + {k} == live;
  }

  lemma {:induction false} EmptySummary(E: seq<Edge>, n: nat, s: nat)
    requires n <= |E|
    ensures CellAt(E, {}, n, s) == Cell(0, 0, 0)
  {
    if n > 0 {
      EmptySummary(E, n - 1, s);
    }
  }

  lemma {:induction false} RoleBelowFour(E: seq<Edge>, live: set<nat>, n: nat, s: nat)
    requires n <= |E|
    ensures CellAt(E, live, n, s).role < 4
  {
    if n > 0 {
      RoleBelowFour(E, live, n - 1, s);
      assert Pow2(2) == 4;
      XorBound(CellAt(E, live, n - 1, s).role, E[n - 1].RoleOf(s), 2);
    }
  }

  lemma {:induction false} HashBelow(E: seq<Edge>, live: set<nat>, n: nat, s: nat, w: nat)
    requires n <= |E|
    requires forall e | e in E :: e.hash < Pow2(w)
    ensures CellAt(E, live, n, s).hash < Pow2(w)
  {
    if n > 0 {
      HashBelow(E, live, n - 1, s, w);
      assert E[n - 1] in E;
      XorBound(CellAt(E, live, n - 1, s).hash, E[n - 1].hash, w);
    }
  }

  ghost predicate HitBy(E: seq<Edge>, k: nat, s: nat) {
    k < |E| && E[k].Hits(s)
  }

  lemma {:induction false} CountBelow(E: seq<Edge>, live: set<nat>, n: nat, s: nat)
    requires n <= |E|
    ensures CellAt(E, live, n, s).count <= n
  {
    if n > 0 {
      CountBelow(E, live, n - 1, s);
    }
  }

  lemma {:induction false} ZeroCount(E: seq<Edge>, live: set<nat>, n: nat, s: nat)
    requires n <= |E|
    ensures CellAt(E, live, n, s).count == 0 <==> forall k | k in live && k < n :: !HitBy(E, k, s)
    ensures CellAt(E, live, n, s).count == 0 ==> CellAt(E, live, n, s) == Cell(0, 0, 0)
  {
    if n > 0 {
      ZeroCount(E, live, n - 1, s);
      if n - 1 in live && E[n - 1].Hits(s) {
        assert HitBy(E, n - 1, s);
      }
    }
  }

  /** A slot with count one holds the hash and the role of the one edge that hits it. */
  lemma {:induction false} OneCount(E: seq<Edge>, live: set<nat>, n: nat, s: nat) returns (k: nat)
    requires n <= |E|
    requires CellAt(E, live, n, s).count == 1
    ensures k in live && k < n && HitBy(E, k, s)
    ensures CellAt(E, live, n, s) == Cell(1, E[k].RoleOf(s), E[k].hash)
    ensures forall j | j in live && j < n && j != k :: !HitBy(E, j, s)
  {
    if n - 1 in live && E[n - 1].Hits(s) {
      k := n - 1;
      ZeroCount(E, live, n - 1, s);
    } else {
      k := OneCount(E, live, n - 1, s);
    }
  }

  /** A slot with count two has, beside any given hit, another one. */
  lemma SecondHit(E: seq<Edge>, live: set<nat>, k: nat, s: nat) returns (j: nat)
    requires k in live && k < |E| && E[k].Hits(s)
    requires Summary(E, live, s).count >= 2
    ensures j in live && j != k && j < |E| && HitBy(E, j, s)
  {
    SummaryRemove(E, live, k, s);
    ZeroCount(E, live - {k}, |E|, s);
    j :| j in live - {k} && j < |E| && HitBy(E, j, s);
  }

  // ---- peeling orders and cores ----

  /** One peeling step: the edge taken and the slot through which it was taken. */
  datatype Pop = Pop(edge: nat, slot: nat)

  /** No later edge touches the slot through which an earlier edge was taken. */
  ghost predicate PeelOrder(E: seq<Edge>, pops: seq<Pop>) {
    && (forall i | 0 <= i < |pops| :: HitBy(E, pops[i].edge, pops[i].slot))
    && (forall i, j | 0 <= i < j < |pops| :: pops[i].edge != pops[j].edge)
    && (forall i, j | 0 <= i < j < |pops| :: !HitBy(E, pops[j].edge, pops[i].slot))
  }

  ghost predicate Covers(pops: seq<Pop>, edges: set<nat>) {
    forall k :: k in edges <==> exists i :: 0 <= i < |pops| && pops[i].edge == k
  }

  ghost predicate Shared(E: seq<Edge>, core: set<nat>, k: nat, s: nat) {
    exists j :: j in core && j != k && HitBy(E, j, s)
  }

  /** A 2-core: a non-empty set of edges each of whose slots is shared with another edge of the set. */
  ghost predicate IsCore(E: seq<Edge>, core: set<nat>) {
    && core != {}
    && (forall k | k in core :: k < |E|)
    && (forall k, role | k in core && 0 <= role < 3 :: Shared(E, core, k, E[k].Slot(role)))
  }

  /** Peeling everything rules out a core. */
  lemma PeelableHasNoCore(E: seq<Edge>, edges: set<nat>, pops: seq<Pop>, core: set<nat>)
    requires PeelOrder(E, pops) && Covers(pops, edges) && core <= edges
    ensures !IsCore(E, core)
  {
    if IsCore(E, core) {
      var k :| k in core;
      var i :| 0 <= i < |pops| && pops[i].edge == k;
      EarliestContradicts(E, edges, pops, core, i);
    }
  }

  lemma EarliestContradicts(E: seq<Edge>, edges: set<nat>, pops: seq<Pop>, core: set<nat>, i: nat)
    requires PeelOrder(E, pops) && Covers(pops, edges) && core <= edges && IsCore(E, core)
    requires i < |pops| && pops[i].edge in core
    ensures false
    decreases i
  {
    var k, s := pops[i].edge, pops[i].slot;
    assert HitBy(E, k, s);
    var role := E[k].RoleOf(s);
    assert E[k].Slot(role) == s;
    assert Shared(E, core, k, s);
    var j :| j in core && j != k && HitBy(E, j, s);
    var i' :| 0 <= i' < |pops| && pops[i'].edge == j;
    if i' <= i {
      EarliestContradicts(E, edges, pops, core, i');
    }
  }

  /** Edges none of whose slots has count one form a core. */
  lemma ResidueIsCore(E: seq<Edge>, live: set<nat>)
    requires live != {} && forall k | k in live :: k < |E|
    requires forall k, role | k in live && 0 <= role < 3 :: Summary(E, live, E[k].Slot(role)).count != 1
    ensures IsCore(E, live)
  {
    forall k, role | k in live && 0 <= role < 3
      ensures Shared(E, live, k, E[k].Slot(role))
    {
      var s := E[k].Slot(role);
      assert HitBy(E, k, s);
      ZeroCount(E, live, |E|, s);
      assert Summary(E, live, s).count != 1;
      var j := SecondHit(E, live, k, s);
    }
  }

  // ---- cores of different edges, and of repeated ones ----

  ghost predicate SharedWith(edges: set<Edge>, e: Edge, s: nat) {
    exists d :: d in edges && d != e && d.Hits(s)
  }

  /** A 2-core as a set of edges, none of which counts twice. */
  ghost predicate IsEdgeCore(edges: set<Edge>) {
    && edges != {}
    && forall e, role | e in edges && 0 <= role < 3 :: SharedWith(edges, e, e.Slot(role))
  }

  ghost predicate AllDifferent(E: seq<Edge>, chosen: set<nat>) {
    forall i, j | i in chosen && j in chosen && i < |E| && j < |E| && i != j :: E[i] != E[j]
  }

  /** The edges of a core without repetitions are a core of different edges. */
  lemma CoreOfDifferent(E: seq<Edge>, core: set<nat>) returns (edges: set<Edge>)
    requires IsCore(E, core) && AllDifferent(E, core)
    ensures IsEdgeCore(edges) && edges <= Elements(E)
  {
    edges := set k | k in core && k < |E| :: E[k];
    var k0 :| k0 in core;
    assert E[k0] in edges;
    forall e, role | e in edges && 0 <= role < 3
      ensures SharedWith(edges, e, e.Slot(role))
    {
      var k :| k in core && k < |E| && E[k] == e;
      assert Shared(E, core, k, e.Slot(role));
      var j :| j in core && j != k && HitBy(E, j, e.Slot(role));
      assert E[j] in edges;
    }
  }

  /** A core of different edges lies in every selection that has all of them. */
  lemma CoreInSelection(E: seq<Edge>, edges: set<Edge>, selection: set<nat>) returns (core: set<nat>)
    requires IsEdgeCore(edges) && forall e | e in edges :: Selected(E, selection, e)
    ensures IsCore(E, core) && core <= selection
  {
    core := set k | k in selection && k < |E| && E[k] in edges;
    var e0 :| e0 in edges;
    assert Selected(E, selection, e0);
    var k0 :| k0 in selection && k0 < |E| && E[k0] == e0;
    assert k0 in core;
    forall k, role | k in core && 0 <= role < 3
      ensures Shared(E, core, k, E[k].Slot(role))
    {
      var s := E[k].Slot(role);
      assert SharedWith(edges, E[k], s);
      var d :| d in edges && d != E[k] && d.Hits(s);
      assert Selected(E, selection, d);
      var j :| j in selection && j < |E| && E[j] == d;
      assert j in core && HitBy(E, j, s);
    }
  }

  ghost predicate Selected(E: seq<Edge>, selection: set<nat>, e: Edge) {
    exists k :: k in selection && k < |E| && E[k] == e
  }

  /** An edge that is there twice is a core by itself. */
  lemma RepetitionIsCore(E: seq<Edge>, i: nat, j: nat)
    requires i < |E| && j < |E| && i != j && E[i] == E[j]
    ensures IsCore(E, {i, j})
  {
    forall k, role | k in {i, j} && 0 <= role < 3
      ensures Shared(E, {i, j}, k, E[k].Slot(role))
    {
      assert HitBy(E, i, E[k].Slot(role)) && HitBy(E, j, E[k].Slot(role));
    }
  }

  // ---- counts do not depend on the order of the edges ----

  /** How many edges of the list hit slot `s`. */
  ghost function HitCount(E: seq<Edge>, s: nat): nat {
    if E == [] then 0
    else HitCount(E[..|E| - 1], s) + (if E[|E| - 1].Hits(s) then 1 else 0)
  }

  lemma HitCountAppend(E: seq<Edge>, e: Edge, s: nat)
    ensures HitCount(E + [e], s) == HitCount(E, s) + (if e.Hits(s) then 1 else 0)
  {
    assert (E + [e])[..|E|] == E;
  }

  lemma {:induction false} HitCountWithout(E: seq<Edge>, j: nat, s: nat)
    requires j < |E|
    ensures HitCount(E, s) == HitCount(Without(E, j), s) + (if E[j].Hits(s) then 1 else 0)
  {
    if j == |E| - 1 {
      assert Without(E, j) == E[..j];
    } else {
      var front, last := E[..|E| - 1], E[|E| - 1];
      var rest := Without(front, j);
      HitCountWithout(front, j, s);
      assert Without(E, j) == rest + [last];
      HitCountAppend(rest, last, s);
    }
  }

  lemma {:induction false} HitCountRearranged(E: seq<Edge>, E': seq<Edge>, s: nat)
    requires multiset(E) == multiset(E')
    ensures HitCount(E, s) == HitCount(E', s)
    decreases |E|
  {
    if E == [] {
      assert |multiset(E')| == 0;
      assert E' == [];
    } else {
      var j := LastIn(E, E');
      HitCountWithout(E', j, s);
      HitCountRearranged(E[..|E| - 1], Without(E', j), s);
    }
  }

  lemma {:induction false} CountWithinHits(E: seq<Edge>, live: set<nat>, n: nat, s: nat)
    requires n <= |E|
    ensures CellAt(E, live, n, s).count <= HitCount(E[..n], s)
  {
    if n > 0 {
      CountWithinHits(E, live, n - 1, s);
      assert E[..n][..n - 1] == E[..n - 1];
    }
  }

  lemma {:induction false} AllLiveCountHits(E: seq<Edge>, live: set<nat>, n: nat, s: nat)
    requires n <= |E| && forall k | 0 <= k < n :: k in live
    ensures CellAt(E, live, n, s).count == HitCount(E[..n], s)
  {
    if n > 0 {
      AllLiveCountHits(E, live, n - 1, s);
      assert E[..n][..n - 1] == E[..n - 1];
    }
  }
}
