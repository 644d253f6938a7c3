/** Second phase of a construction attempt: every slot learns how many hashes meet in it. */
module FuseCounting {
  import opened Bits
  import opened Finite
  import opened FuseFilter
  import opened FuseHash
  import opened Hypergraph

  /** Some slot is hit by at least 64 hashes, more than six bits can count. */
  ghost predicate Crowded(E: seq<Edge>, slots: nat) {
    exists s: nat :: s < slots && HitCount(E, s) >= 64
  }

  ghost predicate Within(live: set<nat>, n: nat) {
    forall k | k in live :: k < n
  }

  /** Adds one hash to a slot; false, with nothing changed, when the byte would overflow. */
  method AddHash(t2count: array<u8>, t2hash: array<u64>, s: nat, role: nat, hash: u64) returns (fits: bool)
    requires t2count as object != t2hash as object
    requires s < t2count.Length == t2hash.Length && role < 3
    modifies t2count, t2hash
    ensures fits == (old(t2count[s]) < 252)
    ensures fits ==> t2count[..] == old(t2count[..])[s := Xor(old(t2count[s]) + 4, role)]
    ensures fits ==> t2hash[..] == old(t2hash[..])[s := Xor(old(t2hash[s]), hash)]
    ensures !fits ==> t2count[..] == old(t2count[..]) && t2hash[..] == old(t2hash[..])
  {
    if t2count[s] >= 252 {
      return false;
    }
    WordSizes();
    XorBound(t2hash[s], hash, 64);
    RoleFitsByte(t2count[s] + 4, role);
    t2count[s] := Xor(t2count[s] + 4, role);
    t2hash[s] := Xor(t2hash[s], hash);
    return true;
  }

  /** Takes one hash out of a slot. */
  method RemoveHash(t2count: array<u8>, t2hash: array<u64>, s: nat, role: nat, hash: u64)
    requires t2count as object != t2hash as object
    requires s < t2count.Length == t2hash.Length && role < 3
    requires t2count[s] >= 4
    modifies t2count, t2hash
    ensures t2count[..] == old(t2count[..])[s := Xor(old(t2count[s]) - 4, role)]
    ensures t2hash[..] == old(t2hash[..])[s := Xor(old(t2hash[s]), hash)]
  {
    WordSizes();
    XorBound(t2hash[s], hash, 64);
    RoleFitsByte(t2count[s] - 4, role);
    t2count[s] := Xor(t2count[s] - 4, role);
    t2hash[s] := Xor(t2hash[s], hash);
  }

  lemma RoleFitsByte(c: nat, role: nat)
    requires c < 256 && role < 3
    ensures Xor(c, role) < 256
  {
    assert Pow2(8) == 256;
    XorBound(c, role, 8);
  }

  /** The three slots of an edge updated by `AddHash`. */
  ghost function AddedCounts(c: seq<nat>, e: Edge): seq<nat>
    requires e.Proper(|c|)
  {
    c[e.s0 := Xor(c[e.s0] + 4, 0)][e.s1 := Xor(c[e.s1] + 4, 1)][e.s2 := Xor(c[e.s2] + 4, 2)]
  }

  ghost function XoredHashes(h: seq<nat>, e: Edge): seq<nat>
    requires e.Proper(|h|)
  {
    h[e.s0 := Xor(h[e.s0], e.hash)][e.s1 := Xor(h[e.s1], e.hash)][e.s2 := Xor(h[e.s2], e.hash)]
  }

  lemma InsertKeepsMatch(c: seq<nat>, h: seq<nat>, E: seq<Edge>, live: set<nat>, k: nat)
    requires Matches(c, h, E, live, {}) && k < |E| && k !in live && E[k].Proper(|c|)
    ensures Matches(AddedCounts(c, E[k]), XoredHashes(h, E[k]), E, live + {k}, {})
  {
    var c', h' := AddedCounts(c, E[k]), XoredHashes(h, E[k]);
    forall s | 0 <= s < |c|
      ensures Packs(c'[s], h'[s], Summary(E, live + {k}, s))
    {
      SummaryInsert(E, live, k, s);
      if E[k].Hits(s) {
        PackInsert(c[s], h[s], Summary(E, live, s), E[k], s);
      }
    }
  }

  lemma LiveSlotCounts(c: seq<nat>, h: seq<nat>, E: seq<Edge>, live: set<nat>, k: nat, s: nat)
    requires Matches(c, h, E, live, {}) && s < |c|
    requires k in live && k < |E| && E[k].Hits(s)
    ensures c[s] >= 4
  {
    assert HitBy(E, k, s);
    ZeroCount(E, live, |E|, s);
  }

  /** Two hashes of one slot that cancel and whose roles cancel are the same hash. */
  lemma CancellingSlot(c: seq<nat>, h: seq<nat>, E: seq<Edge>, live: set<nat>, i: nat, s: nat) returns (k: nat)
    requires Matches(c, h, E, live, {}) && s < |c|
    requires i < |E| && i !in live && E[i].Hits(s)
    requires Xor(c[s] + 4, E[i].RoleOf(s)) == 8 && Xor(h[s], E[i].hash) == 0
    ensures k in live && k < |E| && E[k].hash == E[i].hash
  {
    PackInsert(c[s], h[s], Summary(E, live, s), E[i], s);
    k := OneCount(E, live, |E|, s);
    XorZeroIffEqual(E[k].hash, E[i].hash);
  }

  lemma SlotOverflow(c: seq<nat>, h: seq<nat>, E: seq<Edge>, live: set<nat>, i: nat, s: nat)
    requires Matches(c, h, E, live, {}) && s < |c|
    requires Within(live, i) && i < |E| && E[i].Hits(s) && c[s] >= 252
    ensures Crowded(E, |c|)
  {
    SummaryInsert(E, live, i, s);
    CountWithinHits(E, live + {i}, |E|, s);
    assert E[..|E|] == E;
  }

  lemma RollBack(c: seq<nat>, h: seq<nat>, s: nat, r: nat, hash: nat)
    requires s < |c| == |h| && r < 3
    ensures Xor(c[s] + 4, r) >= 4
    ensures Xor(Xor(c[s] + 4, r) - 4, r) == c[s]
    ensures Xor(Xor(h[s], hash), hash) == h[s]
  {
    var m, q := c[s] / 4, c[s] % 4;
    XorLowRole(m + 1, q, r);
    XorLowRole(m, Xor(q, r), r);
    XorCancel(q, r);
    XorCancel(h[s], hash);
  }

  /** Some kept hash stands for hash k. */
  ghost predicate Kept(E: seq<Edge>, live: set<nat>, k: nat)
    requires k < |E|
  {
    exists j :: j in live && j < |E| && E[j] == E[k]
  }

  ghost predicate AllKept(E: seq<Edge>, live: set<nat>, n: nat) {
    n <= |E| && forall k | 0 <= k < n :: Kept(E, live, k)
  }

  ghost predicate DistinctHashes(E: seq<Edge>) {
    forall i, j | 0 <= i < j < |E| :: E[i].hash != E[j].hash
  }

  // ---- which hashes are kept ----

  /** Some slot of the edge holds nothing but a copy of it. */
  ghost predicate LoneCopy(E: seq<Edge>, live: set<nat>, e: Edge) {
    exists s | s in {e.s0, e.s1, e.s2} :: Summary(E, live, s) == Cell(1, e.RoleOf(s), e.hash)
  }

  /** Some slot of the edge has as many hashes as six bits can count. */
  ghost predicate Full(E: seq<Edge>, live: set<nat>, e: Edge) {
    exists s | s in {e.s0, e.s1, e.s2} :: Summary(E, live, s).count >= 63
  }

  /** The hashes that are kept of the first n: all but those that find a lone copy of themselves. */
  ghost function KeptOf(E: seq<Edge>, n: nat): set<nat>
    requires n <= |E|
  {
    if n == 0 then {}
    else
      var live := KeptOf(E, n - 1);
      if LoneCopy(E, live, E[n - 1]) then live else live + {n - 1}
  }

  /** One of the first n hashes finds a full slot. */
  ghost predicate Overflows(E: seq<Edge>, n: nat)
    requires n <= |E|
  {
    n > 0 && (Overflows(E, n - 1) || Full(E, KeptOf(E, n - 1), E[n - 1]))
  }

  lemma KeptStep(E: seq<Edge>, i: nat)
    requires i < |E|
    ensures var live := KeptOf(E, i);
            && KeptOf(E, i + 1) == (if LoneCopy(E, live, E[i]) then live else live + {i})
            && (Overflows(E, i + 1) <==> Overflows(E, i) || Full(E, live, E[i]))
  {
  }

  lemma {:induction false} OverflowsLater(E: seq<Edge>, i: nat, n: nat)
    requires i <= n <= |E| && Overflows(E, i)
    ensures Overflows(E, n)
    decreases n
  {
    if i < n {
      OverflowsLater(E, i, n - 1);
    }
  }

  /** Different hashes are all kept. */
  lemma {:induction false} DistinctAreKept(E: seq<Edge>, n: nat)
    requires DistinctHashes(E) && n <= |E|
    ensures KeptOf(E, n) == Below(n)
  {
    if n > 0 {
      DistinctAreKept(E, n - 1);
      if LoneCopy(E, Below(n - 1), E[n - 1]) {
        var k := LoneCopyIsKept(E, Below(n - 1), E[n - 1]);
      }
    }
  }

  lemma LoneCopyIsKept(E: seq<Edge>, live: set<nat>, e: Edge) returns (k: nat)
    requires LoneCopy(E, live, e)
    ensures k in live && k < |E| && E[k].hash == e.hash
  {
    var s :| s in {e.s0, e.s1, e.s2} && Summary(E, live, s) == Cell(1, e.RoleOf(s), e.hash);
    k := OneCount(E, live, |E|, s);
  }

  /** Some repetition is kept beside the hash it repeats. */
  ghost predicate Escapes(E: seq<Edge>) {
    !AllDifferent(E, KeptOf(E, |E|))
  }

  /** Adds one hash to its three slots; stops at the first byte that would overflow. */
  method AddEverywhere(t2count: array<u8>, t2hash: array<u64>, ghost e: Edge,
                       index1: nat, index2: nat, index3: nat, hash: u64)
    returns (fits: bool)
    requires t2count as object != t2hash as object && t2count.Length == t2hash.Length
    requires e == Edge(hash, index1, index2, index3) && e.Proper(t2count.Length)
    modifies t2count, t2hash
    ensures fits ==> t2count[..] == AddedCounts(old(t2count[..]), e)
    ensures fits ==> t2hash[..] == XoredHashes(old(t2hash[..]), e)
    ensures !fits <==> old(t2count[index1] >= 252 || t2count[index2] >= 252 || t2count[index3] >= 252)
  {
    fits := AddHash(t2count, t2hash, index1, 0, hash);
    if fits {
      fits := AddHash(t2count, t2hash, index2, 1, hash);
      if fits {
        fits := AddHash(t2count, t2hash, index3, 2, hash);
      }
    }
  }

  lemma ThreeUpdatesBack(c: seq<nat>, s0: nat, s1: nat, s2: nat, x: nat, y: nat, z: nat)
    requires s0 < |c| && s1 < |c| && s2 < |c| && s0 != s1 && s0 != s2 && s1 != s2
    ensures c[s0 := x][s1 := y][s2 := z][s0 := c[s0]][s1 := c[s1]][s2 := c[s2]] == c
  {
  }

  lemma RollBackCounts(c: seq<nat>, e: Edge)
    requires e.Proper(|c|)
    ensures var a := AddedCounts(c, e);
            && a[e.s0] >= 4 && a[e.s1] >= 4 && a[e.s2] >= 4
            && a[e.s0 := Xor(a[e.s0] - 4, 0)][e.s1 := Xor(a[e.s1] - 4, 1)][e.s2 := Xor(a[e.s2] - 4, 2)] == c
  {
    CountsBack(c, e.s0, e.s1, e.s2, 0, 1, 2);
  }

  lemma CountsBack(c: seq<nat>, s0: nat, s1: nat, s2: nat, r0: nat, r1: nat, r2: nat)
    requires s0 < |c| && s1 < |c| && s2 < |c| && s0 != s1 && s0 != s2 && s1 != s2
    requires r0 < 3 && r1 < 3 && r2 < 3
    ensures var a := c[s0 := Xor(c[s0] + 4, r0)][s1 := Xor(c[s1] + 4, r1)][s2 := Xor(c[s2] + 4, r2)];
            && a[s0] >= 4 && a[s1] >= 4 && a[s2] >= 4
            && a[s0 := Xor(a[s0] - 4, r0)][s1 := Xor(a[s1] - 4, r1)][s2 := Xor(a[s2] - 4, r2)] == c
  {
    RollBack(c, c, s0, r0, 0);
    RollBack(c, c, s1, r1, 0);
    RollBack(c, c, s2, r2, 0);
    ThreeUpdatesBack(c, s0, s1, s2, Xor(c[s0] + 4, r0), Xor(c[s1] + 4, r1), Xor(c[s2] + 4, r2));
  }

  lemma RollBackHashes(h: seq<nat>, e: Edge)
    requires e.Proper(|h|)
    ensures XoredHashes(XoredHashes(h, e), e) == h
  {
    XorCancel(h[e.s0], e.hash);
    XorCancel(h[e.s1], e.hash);
    XorCancel(h[e.s2], e.hash);
    RestoredHashes(h, e, Xor(h[e.s0], e.hash), Xor(h[e.s1], e.hash), Xor(h[e.s2], e.hash));
  }

  lemma RestoredHashes(h: seq<nat>, e: Edge, x: nat, y: nat, z: nat)
    requires e.Proper(|h|)
    requires Xor(x, e.hash) == h[e.s0] && Xor(y, e.hash) == h[e.s1] && Xor(z, e.hash) == h[e.s2]
    ensures XoredHashes(h[e.s0 := x][e.s1 := y][e.s2 := z], e) == h
  {
    ThreeUpdatesBack(h, e.s0, e.s1, e.s2, x, y, z);
  }

  /** Undoes `AddEverywhere`. */
  method RemoveEverywhere(t2count: array<u8>, t2hash: array<u64>, ghost e: Edge,
                          index1: nat, index2: nat, index3: nat, hash: u64,
                          ghost c: seq<nat>, ghost h: seq<nat>)
    requires t2count as object != t2hash as object && t2count.Length == t2hash.Length == |c| == |h|
    requires e == Edge(hash, index1, index2, index3) && e.Proper(t2count.Length)
    requires t2count[..] == AddedCounts(c, e) && t2hash[..] == XoredHashes(h, e)
    modifies t2count, t2hash
    ensures t2count[..] == c && t2hash[..] == h
  {
    RollBackCounts(c, e);
    RollBackHashes(h, e);
    RemoveHash(t2count, t2hash, index1, 0, hash);
    RemoveHash(t2count, t2hash, index2, 1, hash);
    RemoveHash(t2count, t2hash, index3, 2, hash);
  }

  lemma OverflowIsCrowded(c: seq<nat>, h: seq<nat>, E: seq<Edge>, live: set<nat>, i: nat)
    requires Matches(c, h, E, live, {}) && Within(live, i) && i < |E| && E[i].Proper(|c|)
    requires c[E[i].s0] >= 252 || c[E[i].s1] >= 252 || c[E[i].s2] >= 252
    ensures Crowded(E, |c|)
  {
    if c[E[i].s0] >= 252 {
      SlotOverflow(c, h, E, live, i, E[i].s0);
    } else if c[E[i].s1] >= 252 {
      SlotOverflow(c, h, E, live, i, E[i].s1);
    } else {
      SlotOverflow(c, h, E, live, i, E[i].s2);
    }
  }

  /** The repetition test of the source on the slots just updated. */
  predicate Cancels(c0: nat, h0: nat, c1: nat, h1: nat, c2: nat, h2: nat) {
    && And(And(h0, h1), h2) == 0
    && ((h0 == 0 && c0 == 8) || (h1 == 0 && c1 == 8) || (h2 == 0 && c2 == 8))
  }

  lemma CancelledHashIsKept(c: seq<nat>, h: seq<nat>, E: seq<Edge>, live: set<nat>, i: nat) returns (k: nat)
    requires Matches(c, h, E, live, {}) && i < |E| && i !in live && E[i].Proper(|c|)
    requires var c', h', e := AddedCounts(c, E[i]), XoredHashes(h, E[i]), E[i];
             Cancels(c'[e.s0], h'[e.s0], c'[e.s1], h'[e.s1], c'[e.s2], h'[e.s2])
    ensures k in live && k < |E| && E[k].hash == E[i].hash
  {
    var c', h', e := AddedCounts(c, E[i]), XoredHashes(h, E[i]), E[i];
    if h'[e.s0] == 0 && c'[e.s0] == 8 {
      k := CancellingSlot(c, h, E, live, i, e.s0);
    } else if h'[e.s1] == 0 && c'[e.s1] == 8 {
      k := CancellingSlot(c, h, E, live, i, e.s1);
    } else {
      k := CancellingSlot(c, h, E, live, i, e.s2);
    }
  }

  /** The two conditions of the test at one slot say that its only hash so far is this one. */
  lemma SlotCancelsIff(c: nat, h: nat, cell: Cell, e: Edge, s: nat)
    requires Packs(c, h, cell) && e.Hits(s)
    ensures Xor(h, e.hash) == 0 && Xor(c + 4, e.RoleOf(s)) == 8 <==> cell == Cell(1, e.RoleOf(s), e.hash)
  {
    PackInsert(c, h, cell, e, s);
    XorZeroIffEqual(h, e.hash);
    XorZeroIffEqual(cell.role, e.RoleOf(s));
  }

  /** A hash is taken for a repetition exactly if one of its slots holds nothing but a copy of it. */
  lemma CancelsIff(c: seq<nat>, h: seq<nat>, E: seq<Edge>, live: set<nat>, i: nat)
    requires Matches(c, h, E, live, {}) && i < |E| && i !in live && E[i].Proper(|c|)
    ensures var c', h', e := AddedCounts(c, E[i]), XoredHashes(h, E[i]), E[i];
            Cancels(c'[e.s0], h'[e.s0], c'[e.s1], h'[e.s1], c'[e.s2], h'[e.s2])
            <==> LoneCopy(E, live, e)
  {
    var e := E[i];
    LoneCopyCells(E, live, e);
    SlotCancelsIff(c[e.s0], h[e.s0], Summary(E, live, e.s0), e, e.s0);
    SlotCancelsIff(c[e.s1], h[e.s1], Summary(E, live, e.s1), e, e.s1);
    SlotCancelsIff(c[e.s2], h[e.s2], Summary(E, live, e.s2), e, e.s2);
  }

  lemma LoneCopyCells(E: seq<Edge>, live: set<nat>, e: Edge)
    requires e.s0 != e.s1 && e.s0 != e.s2 && e.s1 != e.s2
    ensures LoneCopy(E, live, e) <==> || Summary(E, live, e.s0) == Cell(1, 0, e.hash)
                                      || Summary(E, live, e.s1) == Cell(1, 1, e.hash)
                                      || Summary(E, live, e.s2) == Cell(1, 2, e.hash)
  {
  }

  /** A byte overflows exactly if one of the slots is full. */
  lemma FullIff(c: seq<nat>, h: seq<nat>, E: seq<Edge>, live: set<nat>, e: Edge)
    requires Matches(c, h, E, live, {}) && e.Proper(|c|)
    ensures Full(E, live, e) <==> c[e.s0] >= 252 || c[e.s1] >= 252 || c[e.s2] >= 252
  {
    assert forall s | s in {e.s0, e.s1, e.s2} :: Packs(c[s], h[s], Summary(E, live, s));
    assert Summary(E, live, e.s0).count >= 63 <==> c[e.s0] >= 252;
    assert Summary(E, live, e.s1).count >= 63 <==> c[e.s1] >= 252;
    assert Summary(E, live, e.s2).count >= 63 <==> c[e.s2] >= 252;
  }

  /** So a repetition whose first copy was kept escapes exactly if all its slots are shared by other
      hashes already: then it is kept a second time. */
  lemma RepetitionEscapesIff(c: seq<nat>, h: seq<nat>, E: seq<Edge>, live: set<nat>, i: nat, k: nat)
    requires Matches(c, h, E, live, {}) && i < |E| && i !in live && E[i].Proper(|c|)
    requires k in live && k < |E| && E[k] == E[i]
    ensures var c', h', e := AddedCounts(c, E[i]), XoredHashes(h, E[i]), E[i];
            !Cancels(c'[e.s0], h'[e.s0], c'[e.s1], h'[e.s1], c'[e.s2], h'[e.s2])
            <==> forall s | s in {e.s0, e.s1, e.s2} :: Summary(E, live, s).count >= 2
  {
    CancelsIff(c, h, E, live, i);
    forall s | s in {E[i].s0, E[i].s1, E[i].s2}
      ensures Summary(E, live, s).count >= 1
      ensures Summary(E, live, s).count == 1 ==> Summary(E, live, s) == Cell(1, E[i].RoleOf(s), E[i].hash)
    {
      CopyInSlot(E, live, k, s);
    }
  }

  /** Hashes 8, 16 and 8 again with the layout that the sizing chooses for three keys: both different
      hashes lie in slots 0, 8 and 16, and the repetition of the first is kept. */
  lemma EscapingRepetition()
    ensures Layout(8, 7, 8, 24).Valid() && Sizing(8, 12) == (24, 1)
    ensures Escapes(EdgesOf([8, 16, 8], Layout(8, 7, 8, 24)))
  {
    var ly := Layout(8, 7, 8, 24);
    var E := EdgesOf([8, 16, 8], ly);
    SmallHashes(ly);
    EmptyHasNoCopy(E, E[0]);
    assert KeptOf(E, 1) == {0};
    OtherInSlots(E);
    assert KeptOf(E, 2) == {0, 1};
    forall s | s in {0, 8, 16}
      ensures Summary(E, {0, 1}, s).count >= 2
    {
      TwoInSlot(E, s);
    }
    assert KeptOf(E, 3) == {0, 1, 2};
    assert E[0] == E[2];
  }

  lemma EmptyHasNoCopy(E: seq<Edge>, e: Edge)
    ensures !LoneCopy(E, {}, e)
  {
    forall s ensures Summary(E, {}, s).count == 0 {
      EmptySummary(E, |E|, s);
    }
  }

  lemma OtherInSlots(E: seq<Edge>)
    requires |E| >= 2 && E[0].hash != E[1].hash
    requires forall s | s in {E[1].s0, E[1].s1, E[1].s2} :: E[0].Hits(s)
    ensures !LoneCopy(E, {0}, E[1])
  {
    forall s | s in {E[1].s0, E[1].s1, E[1].s2}
      ensures Summary(E, {0}, s).hash == E[0].hash
    {
      EmptySummary(E, |E|, s);
      SummaryInsert(E, {}, 0, s);
      assert {} + {0} == {0};
    }
  }

  lemma SmallHashes(ly: Layout)
    requires ly == Layout(8, 7, 8, 24)
    ensures ly.Valid() && EdgeOf(8, ly) == Edge(8, 0, 8, 16) && EdgeOf(16, ly) == Edge(16, 0, 8, 16)
  {
    assert Pow2(3) == 8;
    SmallHash(8);
    SmallHash(16);
  }

  /** Small multiples of eight select the first slot of each segment. */
  lemma SmallHash(hash: nat)
    requires hash < 512 && hash % 8 == 0
    ensures Shr(hash, 18) == 0 && And(hash, 7) == 0
  {
    ShrIsDivision(hash, 18);
    Pow2Add(9, 9);
    assert Pow2(9) == 512;
    MaskedByEight(hash);
  }

  lemma MaskedByEight(hash: nat)
    ensures And(hash, 7) == hash % 8
  {
    AndMask(hash, 3);
    assert Pow2(3) == 8;
  }

  lemma TwoInSlot(E: seq<Edge>, s: nat)
    requires |E| >= 2 && E[0].Hits(s) && E[1].Hits(s)
    ensures Summary(E, {0, 1}, s).count >= 2
  {
    SummaryRemove(E, {0, 1}, 0, s);
    assert {0, 1} - {0} == {1};
    assert HitBy(E, 1, s);
    ZeroCount(E, {1}, |E|, s);
  }

  lemma CopyInSlot(E: seq<Edge>, live: set<nat>, k: nat, s: nat)
    requires k in live && k < |E| && E[k].Hits(s)
    ensures Summary(E, live, s).count >= 1
    ensures Summary(E, live, s).count == 1 ==> Summary(E, live, s) == Cell(1, E[k].RoleOf(s), E[k].hash)
  {
    assert HitBy(E, k, s);
    ZeroCount(E, live, |E|, s);
    if Summary(E, live, s).count == 1 {
      var j := OneCount(E, live, |E|, s);
    }
  }

  lemma EdgeSlotsCount(c: seq<nat>, h: seq<nat>, E: seq<Edge>, live: set<nat>, k: nat)
    requires Matches(c, h, E, live, {}) && k in live && k < |E| && E[k].Proper(|c|)
    ensures c[E[k].s0] >= 4 && c[E[k].s1] >= 4 && c[E[k].s2] >= 4
  {
    LiveSlotCounts(c, h, E, live, k, E[k].s0);
    LiveSlotCounts(c, h, E, live, k, E[k].s1);
    LiveSlotCounts(c, h, E, live, k, E[k].s2);
  }

  /** What holds after the first i hashes. */
  ghost predicate Counted(c: seq<nat>, h: seq<nat>, E: seq<Edge>, live: set<nat>, i: nat, duplicates: nat) {
    && Matches(c, h, E, live, {})
    && Within(live, i)
    && |live| + duplicates == i
    && AllKept(E, live, i)
  }

  /** What holds while the loop goes on: the kept hashes are the specified ones and nothing has overflowed. */
  ghost predicate CountedTo(c: seq<nat>, h: seq<nat>, E: seq<Edge>, live: set<nat>, i: nat, duplicates: nat) {
    i <= |E| && Counted(c, h, E, live, i, duplicates) && live == KeptOf(E, i) && !Overflows(E, i)
  }

  lemma CountKept(c: seq<nat>, h: seq<nat>, E: seq<Edge>, live: set<nat>, i: nat, duplicates: nat)
    requires Counted(c, h, E, live, i, duplicates) && i < |E| && E[i].Proper(|c|)
    ensures var c' := AddedCounts(c, E[i]);
            && Counted(c', XoredHashes(h, E[i]), E, live + {i}, i + 1, duplicates)
            && c'[E[i].s0] >= 4 && c'[E[i].s1] >= 4 && c'[E[i].s2] >= 4
  {
    InsertKeepsMatch(c, h, E, live, i);
    KeptGrows(E, live, i);
    EdgeSlotsCount(AddedCounts(c, E[i]), XoredHashes(h, E[i]), E, live + {i}, i);
  }

  lemma CountRepeated(c: seq<nat>, h: seq<nat>, E: seq<Edge>, live: set<nat>, i: nat, duplicates: nat, k: nat)
    requires Counted(c, h, E, live, i, duplicates) && i < |E| && E[i].Proper(|c|)
    requires k in live && E[k] == E[i]
    ensures Counted(c, h, E, live, i + 1, duplicates + 1)
    ensures c[E[i].s0] >= 4 && c[E[i].s1] >= 4 && c[E[i].s2] >= 4
  {
    KeptTwice(E, live, i, k);
    EdgeSlotsCount(c, h, E, live, k);
  }

  /** Counts all hashes.  A hash whose addition cancels a slot exactly is a repetition: it is taken
      out again and counted as a duplicate.  The `error` flag never ends up set. */
  method CountHashes(ly: Layout, size: nat, reverseOrder: array<u64>, t2count: array<u8>, t2hash: array<u64>,
                     ghost E: seq<Edge>)
    returns (overflow: bool, error: bool, duplicates: nat, ghost live: set<nat>)
    requires t2count as object != t2hash as object
    requires reverseOrder as object != t2count as object && reverseOrder != t2hash
    requires ly.Valid() && t2count.Length == t2hash.Length == ly.slots
    requires size <= reverseOrder.Length && AreEdges(E, reverseOrder[..size], ly)
    requires forall s | 0 <= s < ly.slots :: t2count[s] == 0 && t2hash[s] == 0
    modifies t2count, t2hash
    ensures overflow <==> Overflows(E, size)
    ensures overflow ==> Crowded(E, ly.slots)
    ensures !overflow ==> !error && Counted(t2count[..], t2hash[..], E, live, size, duplicates)
    ensures !overflow ==> live == KeptOf(E, size) && (DistinctHashes(E) ==> duplicates == 0)
  {
    EdgesAreWired(E, reverseOrder[..size], ly);
    NothingCounted(t2count[..], t2hash[..], E);
    overflow, error, duplicates, live := CountEach(ly, size, reverseOrder, t2count, t2hash, E, reverseOrder[..size]);
    if DistinctHashes(E) {
      DistinctAreKept(E, size);
    }
  }

  /** The counting loop. */
  method CountEach(ly: Layout, size: nat, reverseOrder: array<u64>, t2count: array<u8>, t2hash: array<u64>,
                   ghost E: seq<Edge>, ghost hashes: seq<u64>)
    returns (overflow: bool, error: bool, duplicates: nat, ghost live: set<nat>)
    requires t2count as object != t2hash as object && t2count.Length == t2hash.Length == ly.slots
    requires reverseOrder as object != t2count as object && reverseOrder != t2hash
    requires size <= reverseOrder.Length && reverseOrder[..size] == hashes
    requires AreEdges(E, hashes, ly) && Wired(E, ly.slots)
    requires CountedTo(t2count[..], t2hash[..], E, {}, 0, 0)
    modifies t2count, t2hash
    ensures !error && (overflow <==> Overflows(E, size))
    ensures overflow ==> Crowded(E, ly.slots)
    ensures !overflow ==> CountedTo(t2count[..], t2hash[..], E, live, size, duplicates)
  {
    overflow, error, duplicates, live := false, false, 0, {};
    for i := 0 to size
      invariant !overflow && !error
      invariant CountedTo(t2count[..], t2hash[..], E, live, i, duplicates)
    {
      overflow, error, duplicates, live :=
        CountNext(ly, reverseOrder[i], t2count, t2hash, E, hashes, live, i, duplicates);
      if overflow {
        OverflowsLater(E, i + 1, size);
        return;
      }
    }
  }

  lemma SameHashSameEdge(E: seq<Edge>, hashes: seq<u64>, ly: Layout, i: nat)
    requires AreEdges(E, hashes, ly) && i < |E|
    ensures forall k | 0 <= k < |E| && E[k].hash == hashes[i] :: E[k] == E[i]
    ensures E[i] == EdgeOf(hashes[i], ly)
  {
  }

  /** One round of the counting loop. */
  method CountNext(ly: Layout, hash: u64, t2count: array<u8>, t2hash: array<u64>, ghost E: seq<Edge>,
                   ghost hashes: seq<u64>, ghost live: set<nat>, ghost i: nat, duplicates: nat)
    returns (overflow: bool, error: bool, duplicates': nat, ghost live': set<nat>)
    requires t2count as object != t2hash as object && t2count.Length == t2hash.Length == ly.slots
    requires i < |hashes| && hashes[i] == hash && AreEdges(E, hashes, ly) && Wired(E, ly.slots)
    requires CountedTo(t2count[..], t2hash[..], E, live, i, duplicates)
    modifies t2count, t2hash
    ensures !error && (overflow <==> Overflows(E, i + 1))
    ensures overflow ==> Crowded(E, ly.slots)
    ensures !overflow ==> CountedTo(t2count[..], t2hash[..], E, live', i + 1, duplicates')
  {
    error, duplicates', live' := false, duplicates, live;
    SameHashSameEdge(E, hashes, ly, i);
    var (index1, index2, index3) := HashOfHash(hash, ly.segmentLength, ly.mask, ly.segmentCountLength);
    KeptStep(E, i);
    var fits, repeated := CountOne(t2count, t2hash, E, live, i, duplicates, index1, index2, index3, hash);
    overflow := !fits;
    if fits {
      error := t2count[index1] < 4 || t2count[index2] < 4 || t2count[index3] < 4;
      if repeated {
        duplicates' := duplicates + 1;
      } else {
        live' := live + {i};
      }
    }
  }

  /** Counts hash i, or takes it out again when it turns out to be a repetition. */
  method CountOne(t2count: array<u8>, t2hash: array<u64>, ghost E: seq<Edge>, ghost live: set<nat>, ghost i: nat,
                  ghost duplicates: nat, index1: nat, index2: nat, index3: nat, hash: u64)
    returns (fits: bool, repeated: bool)
    requires t2count as object != t2hash as object && t2count.Length == t2hash.Length
    requires i < |E| && E[i] == Edge(hash, index1, index2, index3) && E[i].Proper(t2count.Length)
    requires forall k | k in live && k < |E| && E[k].hash == hash :: E[k] == E[i]
    requires Counted(t2count[..], t2hash[..], E, live, i, duplicates)
    modifies t2count, t2hash
    ensures !fits <==> Full(E, live, E[i])
    ensures !fits ==> Crowded(E, t2count.Length)
    ensures fits ==> (repeated <==> LoneCopy(E, live, E[i]))
    ensures fits && repeated ==> Counted(t2count[..], t2hash[..], E, live, i + 1, duplicates + 1)
    ensures fits && !repeated ==> Counted(t2count[..], t2hash[..], E, live + {i}, i + 1, duplicates)
    ensures fits ==> t2count[index1] >= 4 && t2count[index2] >= 4 && t2count[index3] >= 4
  {
    repeated := false;
    ghost var c, h := t2count[..], t2hash[..];
    FullIff(c, h, E, live, E[i]);
    fits := AddEverywhere(t2count, t2hash, E[i], index1, index2, index3, hash);
    if !fits {
      OverflowIsCrowded(c, h, E, live, i);
      return;
    }
    CancelsIff(c, h, E, live, i);
    repeated := Cancels(t2count[index1], t2hash[index1], t2count[index2], t2hash[index2],
                        t2count[index3], t2hash[index3]);
    if repeated {
      ghost var k := CancelledHashIsKept(c, h, E, live, i);
      RemoveEverywhere(t2count, t2hash, E[i], index1, index2, index3, hash, c, h);
      CountRepeated(c, h, E, live, i, duplicates, k);
    } else {
      CountKept(c, h, E, live, i, duplicates);
    }
  }

  /** If all hashes were counted and no byte overflowed, no slot is crowded. */
  lemma NotCrowded(c: seq<nat>, h: seq<nat>, E: seq<Edge>, live: set<nat>)
    requires Counted(c, h, E, live, |E|, 0) && forall s | 0 <= s < |c| :: c[s] < 256
    ensures !Crowded(E, |c|)
  {
    AllBelow(live, |E|);
    forall s: nat | s < |c|
      ensures HitCount(E, s) < 64
    {
      AllLiveCountHits(E, live, |E|, s);
      assert E[..|E|] == E;
      assert Packs(c[s], h[s], Summary(E, live, s));
    }
  }

  lemma AllBelow(live: set<nat>, n: nat)
    requires Within(live, n) && |live| == n
    ensures forall k: nat | k < n :: k in live
  {
    SubsetCard(live, Below(n));
  }

  lemma NothingCounted(c: seq<nat>, h: seq<nat>, E: seq<Edge>)
    requires |c| == |h| && forall s | 0 <= s < |c| :: c[s] == 0 && h[s] == 0
    ensures Matches(c, h, E, {}, {})
  {
    forall s | 0 <= s < |c|
      ensures Packs(c[s], h[s], Summary(E, {}, s))
    {
      EmptySummary(E, |E|, s);
    }
  }

  lemma KeptTwice(E: seq<Edge>, live: set<nat>, i: nat, k: nat)
    requires i < |E| && AllKept(E, live, i)
    requires k in live && k < |E| && E[k] == E[i]
    ensures AllKept(E, live, i + 1)
  {
    assert Kept(E, live, i);
  }

  lemma KeptGrows(E: seq<Edge>, live: set<nat>, i: nat)
    requires i < |E| && AllKept(E, live, i)
    ensures AllKept(E, live + {i}, i + 1)
  {
    forall k | 0 <= k <= i
      ensures Kept(E, live + {i}, k)
    {
      if k < i {
        assert Kept(E, live, k);
        var j :| j in live && j < |E| && E[j] == E[k];
        assert j in live + {i};
      }
    }
  }
}
