/** Construction of a binary fuse filter: attempts with fresh seeds until one peels completely, then
    the fingerprints are filled in from the last popped hash to the first. */
module FuseBuild {
  import opened Bits
  import opened Finite
  import opened FuseBucketing
  import opened FuseCounting
  import opened FuseFilter
  import opened FuseHash
  import opened FuseSeeds
  import opened FusePeeling
  import opened Hypergraph

  const MAX_ITER: nat := 1000

  // ---- filling ----

  ghost predicate BalancedFrom(E: seq<Edge>, pops: seq<Pop>, fp: seq<u16>, i: nat) {
    forall j | i <= j < |pops| :: BalancedEdge(E, pops[j].edge, fp)
  }

  ghost predicate BalancedEdge(E: seq<Edge>, k: nat, fp: seq<u16>) {
    k < |E| && E[k].Proper(|fp|) && E[k].hash < U64 && Balanced(E[k], fp)
  }

  /** The value that settles the equation of an edge, whatever the role of the slot it goes to. */
  lemma Settles(x: nat, a: nat, b: nat)
    ensures var own := Xor(Xor(x, a), b);
            && Xor(x, Xor(Xor(own, a), b)) == 0
            && Xor(x, Xor(Xor(b, own), a)) == 0
            && Xor(x, Xor(Xor(a, b), own)) == 0
  {
    var own := Xor(Xor(x, a), b);
    var y := Xor(a, b);
    XorAssoc(x, a, b);
    assert own == Xor(x, y);
    XorCancel(x, y);
    XorAssoc(own, a, b);
    assert Xor(Xor(own, a), b) == x;
    XorSelf(x);
    XorComm(b, own);
    XorSwap(own, b, a);
    XorComm(y, own);
  }

  lemma FillOne(E: seq<Edge>, pops: seq<Pop>, fp: seq<u16>, i: nat, found: nat, a: nat, b: nat, own: u16)
    requires PeelOrder(E, pops) && Wired(E, |fp|) && BalancedFrom(E, pops, fp, i + 1)
    requires i < |pops| && pops[i].edge < |E| && found < 3 && E[pops[i].edge].Slot(found) == pops[i].slot
    requires var e := E[pops[i].edge];
             && a == fp[e.Slot(Mod3(found + 1))] && b == fp[e.Slot(Mod3(found + 2))]
             && own == Xor(Xor(Fingerprint(e.hash), a), b)
    ensures BalancedFrom(E, pops, fp[pops[i].slot := own], i)
  {
    var e, s := E[pops[i].edge], pops[i].slot;
    var fp' := fp[s := own];
    Settles(Fingerprint(e.hash), a, b);
    assert Balanced(e, fp');
    forall j | i <= j < |pops|
      ensures BalancedEdge(E, pops[j].edge, fp')
    {
      if j > i {
        assert BalancedEdge(E, pops[j].edge, fp);
        assert !HitBy(E, pops[j].edge, s);
      }
    }
  }

  /** Fills the fingerprints so that the equations of all popped hashes hold together. */
  method Fill(ly: Layout, stackSize: nat, reverseOrder: array<u64>, reverseH: array<u8>, fingerprints: array<u16>,
              ghost E: seq<Edge>, ghost hashes: seq<u64>, ghost pops: seq<Pop>)
    requires reverseOrder as object != fingerprints as object && reverseH as object != fingerprints as object
    requires fingerprints.Length == ly.slots && AreEdges(E, hashes, ly) && Wired(E, ly.slots)
    requires PeelOrder(E, pops) && stackSize == |pops| && Recorded(E, pops, reverseOrder[..], reverseH[..])
    modifies fingerprints
    ensures BalancedFrom(E, pops, fingerprints[..], 0)
  {
    for i := stackSize downto 0
      invariant BalancedFrom(E, pops, fingerprints[..], i)
    {
      var hash := reverseOrder[i];
      var xor2 := Fingerprint(hash);
      var found := reverseH[i];
      assert RecordedAt(E, pops[i], reverseOrder[..][i], reverseH[..][i]);
      ghost var fp, e := fingerprints[..], E[pops[i].edge];
      var h012 := Located(ly, hash, E, hashes, pops[i].edge);
      var a, b := fingerprints[h012[found + 1]], fingerprints[h012[found + 2]];
      XorBelow16(xor2, a, b);
      var own := Xor(Xor(xor2, a), b);
      FillOne(E, pops, fp, i, found, a, b, own);
      fingerprints[h012[found]] := own;
    }
  }

  lemma XorBelow16(x: u16, a: u16, b: u16)
    ensures Xor(Xor(x, a), b) < U16
  {
    WordSizes();
    XorBound(x, a, 16);
    XorBound(Xor(x, a), b, 16);
  }

  /** The slots of a hash, written twice round so that "the next two after role r" can be indexed. */
  method Located(ly: Layout, hash: u64, ghost E: seq<Edge>, ghost hashes: seq<u64>, ghost k: nat)
    returns (h012: seq<nat>)
    requires AreEdges(E, hashes, ly) && k < |E| && E[k].hash == hash
    ensures h012 == [E[k].s0, E[k].s1, E[k].s2, E[k].s0, E[k].s1]
  {
    EdgeIsLocated(E, hashes, ly, k);
    var (index1, index2, index3) := HashOfHash(hash, ly.segmentLength, ly.mask, ly.segmentCountLength);
    h012 := [index1, index2, index3, index1, index2];
  }

  // ---- what decides an attempt ----

  /** The edges of the keys under a seed, in the order of the keys. */
  ghost function KeyEdges(keys: seq<u64>, seed: u64, ly: Layout): seq<Edge> {
    EdgesOf(HashesOf(keys, seed), ly)
  }

  /** Under this seed some different hashes of the keys block each other: each of their slots is also a
      slot of another one of them. */
  ghost predicate Blocked(keys: seq<u64>, seed: u64, ly: Layout) {
    exists core :: IsEdgeCore(core) && core <= Elements(KeyEdges(keys, seed, ly))
  }

  /** These are the hashes of the keys in some order. */
  ghost predicate Arranged(hs: seq<u64>, keys: seq<u64>, seed: u64) {
    multiset(hs) == multiset(HashesOf(keys, seed))
  }

  /** Under this seed 64 or more keys meet in one slot. */
  ghost predicate Overcrowded(keys: seq<u64>, seed: u64, ly: Layout) {
    Crowded(KeyEdges(keys, seed, ly), ly.slots)
  }

  lemma EdgesRearranged(hs: seq<u64>, hs': seq<u64>, ly: Layout)
    requires multiset(hs) == multiset(hs')
    ensures multiset(EdgesOf(hs, ly)) == multiset(EdgesOf(hs', ly))
  {
    var f := (h: u64) => EdgeOf(h, ly);
    MapRearranged(f, hs, hs');
    assert EdgesOf(hs, ly) == Map(f, hs);
    assert EdgesOf(hs', ly) == Map(f, hs');
  }

  lemma SameElements(keys: seq<u64>, seed: u64, ly: Layout, hs: seq<u64>)
    requires Arranged(hs, keys, seed)
    ensures Elements(EdgesOf(hs, ly)) == Elements(KeyEdges(keys, seed, ly))
  {
    EdgesRearranged(hs, HashesOf(keys, seed), ly);
    var E, E' := EdgesOf(hs, ly), KeyEdges(keys, seed, ly);
    forall e ensures e in Elements(E) <==> e in Elements(E') {
      assert e in Elements(E) <==> e in multiset(E);
      assert e in Elements(E') <==> e in multiset(E');
    }
  }

  /** What is left of an attempt blocks it, unless a repetition was kept. */
  lemma CoreBlocks(keys: seq<u64>, seed: u64, ly: Layout, hs: seq<u64>, kept: set<nat>, core: set<nat>)
    requires Arranged(hs, keys, seed) && IsCore(EdgesOf(hs, ly), core) && core <= kept
    requires AllDifferent(EdgesOf(hs, ly), kept)
    ensures Blocked(keys, seed, ly)
  {
    SameElements(keys, seed, ly, hs);
    var edges := CoreOfDifferent(EdgesOf(hs, ly), core);
  }

  lemma CrowdRearranged(keys: seq<u64>, seed: u64, ly: Layout, hs: seq<u64>)
    requires Arranged(hs, keys, seed) && Crowded(EdgesOf(hs, ly), ly.slots)
    ensures Overcrowded(keys, seed, ly)
  {
    EdgesRearranged(hs, HashesOf(keys, seed), ly);
    var s: nat :| s < ly.slots && HitCount(EdgesOf(hs, ly), s) >= 64;
    HitCountRearranged(EdgesOf(hs, ly), KeyEdges(keys, seed, ly), s);
  }

  /** Counting without a duplicate and without an overflow shows that no slot is crowded. */
  lemma CountedIsNotCrowded(keys: seq<u64>, seed: u64, ly: Layout, hs: seq<u64>,
                            c: seq<nat>, h: seq<nat>, kept: set<nat>)
    requires Arranged(hs, keys, seed)
    requires |c| == ly.slots && forall s | 0 <= s < |c| :: c[s] < 256
    requires Counted(c, h, EdgesOf(hs, ly), kept, |hs|, 0)
    ensures !Overcrowded(keys, seed, ly)
  {
    NotCrowded(c, h, EdgesOf(hs, ly), kept);
    if Overcrowded(keys, seed, ly) {
      EdgesRearranged(hs, HashesOf(keys, seed), ly);
      var s: nat :| s < ly.slots && HitCount(KeyEdges(keys, seed, ly), s) >= 64;
      HitCountRearranged(EdgesOf(hs, ly), KeyEdges(keys, seed, ly), s);
    }
  }

  lemma DistinctKeysDistinctHashes(keys: seq<u64>, seed: u64, hs: seq<u64>)
    requires Distinct(keys) && Arranged(hs, keys, seed)
    ensures Distinct(hs)
  {
    var hashes := HashesOf(keys, seed);
    forall i, j | 0 <= i < j < |hashes|
      ensures hashes[i] != hashes[j]
    {
      if hashes[i] == hashes[j] {
        MixInjective(keys[i], keys[j], seed);
      }
    }
    DistinctHasOnePlace(hashes, hs);
  }

  // ---- one attempt ----

  datatype Status = Complete | Incomplete | Overflow

  /** Every hash of the list was popped, or equals one that was. */
  ghost predicate AllPopped(E: seq<Edge>, pops: seq<Pop>) {
    forall k | 0 <= k < |E| :: IsPopped(E, pops, E[k])
  }

  ghost predicate IsPopped(E: seq<Edge>, pops: seq<Pop>, e: Edge) {
    exists i :: 0 <= i < |pops| && pops[i].edge < |E| && E[pops[i].edge] == e
  }

  /** What a complete attempt leaves on the stack. */
  ghost predicate Popped(keys: seq<u64>, seed: u64, ly: Layout, hs: seq<u64>, E: seq<Edge>, pops: seq<Pop>,
                         order: seq<nat>, roles: seq<nat>) {
    && Arranged(hs, keys, seed) && AreEdges(E, hs, ly)
    && PeelOrder(E, pops) && AllPopped(E, pops) && Recorded(E, pops, order, roles)
  }

  lemma AllKeptAllPopped(E: seq<Edge>, kept: set<nat>, pops: seq<Pop>)
    requires AllKept(E, kept, |E|) && Covers(pops, kept)
    ensures AllPopped(E, pops)
  {
    forall k | 0 <= k < |E|
      ensures IsPopped(E, pops, E[k])
    {
      assert Kept(E, kept, k);
      var j :| j in kept && j < |E| && E[j] == E[k];
      var i :| 0 <= i < |pops| && pops[i].edge == j;
    }
  }

  /** Peeling all kept hashes to the end shows that no hashes block each other and no repetition was kept. */
  lemma CompleteIsNotBlocked(keys: seq<u64>, seed: u64, ly: Layout, hs: seq<u64>, E: seq<Edge>, kept: set<nat>,
                             pops: seq<Pop>)
    requires Arranged(hs, keys, seed) && E == EdgesOf(hs, ly)
    requires Within(kept, |E|) && AllKept(E, kept, |E|) && PeelOrder(E, pops) && Covers(pops, kept)
    ensures !Blocked(keys, seed, ly) && AllDifferent(E, kept)
  {
    SameElements(keys, seed, ly, hs);
    forall chosen | chosen <= kept
      ensures !IsCore(E, chosen)
    {
      PeelableHasNoCore(E, kept, pops, chosen);
    }
    forall core | core <= Elements(E)
      ensures !IsEdgeCore(core)
    {
      if IsEdgeCore(core) {
        var chosen := KeptHasCore(E, kept, core);
      }
    }
    forall i: nat, j: nat | i in kept && j in kept && i != j
      ensures E[i] != E[j]
    {
      if E[i] == E[j] {
        RepetitionIsCore(E, i, j);
      }
    }
  }

  lemma KeptHasCore(E: seq<Edge>, kept: set<nat>, core: set<Edge>) returns (chosen: set<nat>)
    requires AllKept(E, kept, |E|) && IsEdgeCore(core) && core <= Elements(E)
    ensures IsCore(E, chosen) && chosen <= kept
  {
    forall e | e in core
      ensures Selected(E, kept, e)
    {
      assert e in E;
      var k :| 0 <= k < |E| && E[k] == e;
      assert Kept(E, kept, k);
    }
    chosen := CoreInSelection(E, core, kept);
  }

  lemma DistinctKeysDistinctEdges(keys: seq<u64>, seed: u64, hs: seq<u64>, E: seq<Edge>, ly: Layout)
    requires Distinct(keys) && Arranged(hs, keys, seed) && AreEdges(E, hs, ly)
    ensures DistinctHashes(E)
  {
    DistinctKeysDistinctHashes(keys, seed, hs);
  }

  lemma DistinctDoNotEscape(E: seq<Edge>)
    requires DistinctHashes(E)
    ensures !Escapes(E)
  {
  }

  /** One attempt under one seed, on the hashes in the order in which bucketing left them.  It overflows
      exactly when a hash finds a full slot, for distinct keys when 64 of them share a slot, and otherwise
      completes exactly when no different hashes block each other and no repetition is kept. */
  method Attempt(keys: seq<u64>, seed: u64, ly: Layout, blockBits: nat, startPos: array<nat>,
                 reverseOrder: array<u64>, reverseH: array<u8>, alone: array<u32>, t2count: array<u8>,
                 t2hash: array<u64>)
    returns (status: Status, stackSize: nat, ghost hs: seq<u64>, ghost E: seq<Edge>, ghost pops: seq<Pop>)
    requires Separate(reverseOrder, reverseH, alone, t2count, t2hash)
    requires startPos as object !in {reverseOrder as object, reverseH, alone, t2count, t2hash}
    requires 1 <= blockBits <= 64 && startPos.Length == Pow2(blockBits)
    requires ly.Valid() && t2count.Length == t2hash.Length == alone.Length == ly.slots
    requires reverseOrder.Length == |keys| + 1 && reverseH.Length == |keys|
    requires forall i | 0 <= i < |keys| :: reverseOrder[i] == 0
    requires reverseOrder[|keys|] == 1
    requires forall s | 0 <= s < ly.slots :: t2count[s] == 0 && t2hash[s] == 0
    modifies startPos, reverseOrder, reverseH, alone, t2count, t2hash
    ensures reverseOrder[|keys|] == 1
    ensures Arranged(hs, keys, seed) && E == EdgesOf(hs, ly)
    ensures status == Overflow <==> Overflows(E, |E|)
    ensures status != Overflow ==> (status == Complete <==> !Blocked(keys, seed, ly) && !Escapes(E))
    ensures status == Overflow ==> Overcrowded(keys, seed, ly)
    ensures Distinct(keys) ==> (status == Overflow <==> Overcrowded(keys, seed, ly)) && !Escapes(E)
    ensures status == Complete ==> stackSize == |pops|
    ensures status == Complete ==> Popped(keys, seed, ly, hs, E, pops, reverseOrder[..], reverseH[..])
  {
    var size := |keys|;
    stackSize, pops := 0, [];
    Bucket(keys, seed, blockBits, startPos, reverseOrder);
    hs := reverseOrder[..size];
    E := EdgesOf(hs, ly);
    var overflow, error, duplicates;
    ghost var kept;
    overflow, error, duplicates, kept := CountHashes(ly, size, reverseOrder, t2count, t2hash, E);
    if Distinct(keys) {
      DistinctKeysDistinctEdges(keys, seed, hs, E, ly);
      DistinctDoNotEscape(E);
    }
    if overflow {
      CrowdRearranged(keys, seed, ly, hs);
      status := Overflow;
      return;
    }
    if Distinct(keys) {
      CountedIsNotCrowded(keys, seed, ly, hs, t2count[..], t2hash[..], kept);
    }
    // The source leaves the attempt early on `error`; the flag is never set here.
    assert !error;
    ghost var live;
    stackSize, pops, live := Peel(ly, size, reverseOrder, reverseH, alone, t2count, t2hash, E, hs, kept);
    if stackSize + duplicates == size {
      status := Complete;
      assert live == {};
      assert kept - live == kept;
      AllKeptAllPopped(E, kept, pops);
      CompleteIsNotBlocked(keys, seed, ly, hs, E, kept, pops);
    } else {
      status := Incomplete;
      if !Escapes(E) {
        CoreBlocks(keys, seed, ly, hs, kept, live);
      }
    }
  }

  // ---- the whole construction ----

  datatype BuildResult = Built(filter: Filter) | Failed | CountOverflow | SizeOverflow

  /** Every key of a filled filter is found. */
  lemma FilledFindsKeys(keys: seq<u64>, seed: u64, ly: Layout, hs: seq<u64>, E: seq<Edge>, pops: seq<Pop>,
                        order: seq<nat>, roles: seq<nat>, f: Filter)
    requires Popped(keys, seed, ly, hs, E, pops, order, roles) && BalancedFrom(E, pops, f.fingerprints, 0)
    requires f.descriptor == Descriptor(seed, ly.segmentLength, ly.mask, ly.segmentCountLength)
    requires ly.slots == |f.fingerprints|
    ensures forall key | key in keys :: ContainsU64(f, key) == Answer(true)
  {
    var hashes := HashesOf(keys, seed);
    forall key | key in keys
      ensures ContainsU64(f, key) == Answer(true)
    {
      var n :| 0 <= n < |keys| && keys[n] == key;
      assert hashes[n] in multiset(hs);
      var k :| 0 <= k < |hs| && hs[k] == hashes[n];
      assert IsPopped(E, pops, E[k]);
      var i :| 0 <= i < |pops| && pops[i].edge < |E| && E[pops[i].edge] == E[k];
      assert BalancedEdge(E, pops[i].edge, f.fingerprints);
      BalancedIsFound(f, key, ly);
    }
  }

  /** The least number of bits, at least one, that can number the segments. */
  method BlockBits(segmentCount: u32) returns (blockBits: nat)
    ensures 1 <= blockBits <= 32 && segmentCount <= Pow2(blockBits)
    ensures blockBits > 1 ==> Pow2(blockBits - 1) < segmentCount
  {
    WordSizes();
    blockBits := 1;
    while Pow2(blockBits) < segmentCount
      invariant 1 <= blockBits <= 32
      invariant blockBits > 1 ==> Pow2(blockBits - 1) < segmentCount
      decreases 32 - blockBits
    {
      blockBits := blockBits + 1;
    }
  }

  /** In some order of the hashes under this seed a repetition is kept. */
  ghost predicate MayEscape(keys: seq<u64>, seed: u64, ly: Layout) {
    exists hs: seq<u64> :: Arranged(hs, keys, seed) && Escapes(EdgesOf(hs, ly))
  }

  /** What a seed that fails shows: different hashes block each other, or a key is repeated and a repetition
      of its hash can be kept. */
  ghost predicate Fails(keys: seq<u64>, seed: u64, ly: Layout) {
    && (Blocked(keys, seed, ly) || (!Distinct(keys) && MayEscape(keys, seed, ly)))
    && (Distinct(keys) ==> !Overcrowded(keys, seed, ly))
  }

  /** All seeds tried before attempt n failed. */
  ghost predicate FailedBefore(keys: seq<u64>, ly: Layout, n: nat) {
    forall m | 0 <= m < n :: Fails(keys, SeedAt(m), ly)
  }

  lemma OneMoreFailed(keys: seq<u64>, ly: Layout, n: nat)
    requires FailedBefore(keys, ly, n) && Fails(keys, SeedAt(n), ly)
    ensures FailedBefore(keys, ly, n + 1)
  {
  }

  /** So many different seeds all fail. */
  ghost predicate SeedsFail(keys: seq<u64>, ly: Layout, n: nat) {
    exists seeds: set<u64> :: |seeds| == n && AllFail(keys, ly, seeds)
  }

  ghost predicate AllFail(keys: seq<u64>, ly: Layout, seeds: set<u64>) {
    forall seed | seed in seeds :: Fails(keys, seed, ly)
  }

  /** The seeds tried are all different. */
  lemma FailedSeedsDiffer(keys: seq<u64>, ly: Layout, n: u64)
    requires FailedBefore(keys, ly, n)
    ensures SeedsFail(keys, ly, n)
  {
    SeedsBelowAre(n);
    forall seed | seed in SeedsBelow(n)
      ensures Fails(keys, seed, ly)
    {
      SeedIsBelow(seed, n);
      var m: nat :| m < n && SeedAt(m) == seed;
    }
    assert AllFail(keys, ly, SeedsBelow(n));
  }

  /** How every attempt finds its arrays: empty cells before the sentinel and empty slots. */
  ghost predicate CleanStart(size: nat, reverseOrder: array<u64>, t2count: array<u8>, t2hash: array<u64>)
    reads reverseOrder, t2count, t2hash
  {
    && reverseOrder.Length == size + 1 && t2count.Length == t2hash.Length
    && (forall i | 0 <= i < size :: reverseOrder[i] == 0) && reverseOrder[size] == 1
    && forall s | 0 <= s < t2count.Length :: t2count[s] == 0 && t2hash[s] == 0
  }

  method Reset(size: nat, reverseOrder: array<u64>, t2count: array<u8>, t2hash: array<u64>)
    requires reverseOrder as object != t2count as object && reverseOrder != t2hash
              && t2count as object != t2hash as object
    requires reverseOrder.Length == size + 1 && t2count.Length == t2hash.Length
    modifies reverseOrder, t2count, t2hash
    ensures reverseOrder[size] == old(reverseOrder[size])
    ensures forall i | 0 <= i < size :: reverseOrder[i] == 0
    ensures forall s | 0 <= s < t2count.Length :: t2count[s] == 0 && t2hash[s] == 0
  {
    for i := 0 to size
      invariant forall j | 0 <= j < i :: reverseOrder[j] == 0
      invariant reverseOrder[size] == old(reverseOrder[size])
    {
      reverseOrder[i] := 0;
    }
    for s := 0 to t2count.Length
      invariant forall t | 0 <= t < s :: t2count[t] == 0 && t2hash[t] == 0
      invariant forall j | 0 <= j < size :: reverseOrder[j] == 0
      invariant reverseOrder[size] == old(reverseOrder[size])
    {
      t2count[s] := 0;
      t2hash[s] := 0;
    }
  }

  method NextSeed(rng: u64, ghost n: nat) returns (rng': u64, seed: u64)
    requires rng == RngState(n)
    ensures rng' == RngState(n + 1) && seed == SeedAt(n)
  {
    Draw(n);
    var next := SplitMix64(rng);
    rng', seed := next.0, next.1;
  }

  /** What the attempts promise about their result; `attempt` is the last one made. */
  ghost predicate Delivers(keys: seq<u64>, ly: Layout, result: BuildResult, attempt: nat) {
    match result
    case Failed => FailedBefore(keys, ly, MAX_ITER)
    case _ => attempt < MAX_ITER && FailedBefore(keys, ly, attempt) && Decided(keys, ly, result, SeedAt(attempt))
  }

  /** What the attempt under this seed promises when it is the last one. */
  ghost predicate Decided(keys: seq<u64>, ly: Layout, result: BuildResult, seed: u64) {
    match result
    case Built(filter) =>
      && (forall key | key in keys :: ContainsU64(filter, key) == Answer(true))
      && filter.descriptor == Descriptor(seed, ly.segmentLength, ly.mask, ly.segmentCountLength)
      && |filter.fingerprints| == ly.slots
      && !Blocked(keys, seed, ly) && (Distinct(keys) ==> !Overcrowded(keys, seed, ly))
    case CountOverflow => Overcrowded(keys, seed, ly)
    case _ => false
  }

  /** Turns a complete attempt into a filter. */
  method Finish(keys: seq<u64>, seed: u64, ly: Layout, stackSize: nat, reverseOrder: array<u64>, reverseH: array<u8>,
                fingerprints: array<u16>, ghost hs: seq<u64>, ghost E: seq<Edge>, ghost pops: seq<Pop>)
    returns (filter: Filter)
    requires reverseOrder as object != fingerprints as object && reverseH as object != fingerprints as object
    requires ly.Valid() && fingerprints.Length == ly.slots && stackSize == |pops|
    requires Popped(keys, seed, ly, hs, E, pops, reverseOrder[..], reverseH[..])
    modifies fingerprints
    ensures forall key | key in keys :: ContainsU64(filter, key) == Answer(true)
    ensures filter.descriptor == Descriptor(seed, ly.segmentLength, ly.mask, ly.segmentCountLength)
    ensures |filter.fingerprints| == ly.slots
  {
    EdgesAreWired(E, hs, ly);
    Fill(ly, stackSize, reverseOrder, reverseH, fingerprints, E, hs, pops);
    filter := Filter(Descriptor(seed, ly.segmentLength, ly.mask, ly.segmentCountLength), fingerprints[..]);
    FilledFindsKeys(keys, seed, ly, hs, E, pops, reverseOrder[..], reverseH[..], filter);
  }

  /** One attempt and what follows it: a filter, the end, or the clean start of the next attempt. */
  method TrySeed(keys: seq<u64>, seed: u64, ly: Layout, blockBits: nat, startPos: array<nat>,
                 reverseOrder: array<u64>, reverseH: array<u8>, alone: array<u32>, t2count: array<u8>,
                 t2hash: array<u64>, fingerprints: array<u16>)
    returns (result: BuildResult)
    requires Separate(reverseOrder, reverseH, alone, t2count, t2hash)
    requires startPos as object !in {reverseOrder as object, reverseH, alone, t2count, t2hash}
    requires fingerprints as object !in {reverseOrder as object, reverseH}
    requires ly.Valid() && fingerprints.Length == ly.slots && 1 <= blockBits <= 64
    requires startPos.Length == Pow2(blockBits) && t2count.Length == t2hash.Length == alone.Length == ly.slots
    requires reverseOrder.Length == |keys| + 1 && reverseH.Length == |keys|
    requires CleanStart(|keys|, reverseOrder, t2count, t2hash)
    modifies startPos, reverseOrder, reverseH, alone, t2count, t2hash, fingerprints
    ensures result.Failed? ==> Fails(keys, seed, ly) && CleanStart(|keys|, reverseOrder, t2count, t2hash)
    ensures !result.Failed? ==> Decided(keys, ly, result, seed)
  {
    var status, stackSize;
    ghost var hs, E, pops;
    status, stackSize, hs, E, pops :=
      Attempt(keys, seed, ly, blockBits, startPos, reverseOrder, reverseH, alone, t2count, t2hash);
    if status == Overflow {
      return CountOverflow;
    }
    if status == Complete {
      var filter := Finish(keys, seed, ly, stackSize, reverseOrder, reverseH, fingerprints, hs, E, pops);
      return Built(filter);
    }
    Reset(|keys|, reverseOrder, t2count, t2hash);
    return Failed;
  }

  /** Tries seed after seed and fills the fingerprints once an attempt completes. */
  method RunAttempts(keys: seq<u64>, ly: Layout, blockBits: nat, startPos: array<nat>, reverseOrder: array<u64>,
                     reverseH: array<u8>, alone: array<u32>, t2count: array<u8>, t2hash: array<u64>,
                     fingerprints: array<u16>)
    returns (result: BuildResult, ghost attempt: nat)
    requires Separate(reverseOrder, reverseH, alone, t2count, t2hash)
    requires startPos as object !in {reverseOrder as object, reverseH, alone, t2count, t2hash}
    requires fingerprints as object !in {reverseOrder as object, reverseH}
    requires ly.Valid() && fingerprints.Length == ly.slots && 1 <= blockBits <= 64
    requires startPos.Length == Pow2(blockBits) && t2count.Length == t2hash.Length == alone.Length == ly.slots
    requires reverseOrder.Length == |keys| + 1 && reverseH.Length == |keys|
    requires CleanStart(|keys|, reverseOrder, t2count, t2hash)
    modifies startPos, reverseOrder, reverseH, alone, t2count, t2hash, fingerprints
    ensures Delivers(keys, ly, result, attempt)
  {
    var rng, seed := NextSeed(1, 0);
    attempt := 0;
    for n := 0 to MAX_ITER
      invariant rng == RngState(n + 1) && seed == SeedAt(n)
      invariant FailedBefore(keys, ly, n)
      invariant CleanStart(|keys|, reverseOrder, t2count, t2hash)
    {
      attempt := n;
      result := TrySeed(keys, seed, ly, blockBits, startPos, reverseOrder, reverseH, alone, t2count, t2hash,
          fingerprints);
      if !result.Failed? {
        return;
      }
      OneMoreFailed(keys, ly, n);
      rng, seed := NextSeed(rng, n + 1);
    }
    result := Failed;
  }

  /** Allocates the working arrays and runs the attempts on them. */
  method Construct(keys: seq<u64>, ly: Layout, blockBits: nat, fingerprints: array<u16>)
    returns (result: BuildResult, ghost attempt: nat)
    requires ly.Valid() && fingerprints.Length == ly.slots && 1 <= blockBits <= 64
    modifies fingerprints
    ensures Delivers(keys, ly, result, attempt)
  {
    var size := |keys|;
    var alone := new u32[ly.slots](_ => 0);
    var t2count := new u8[ly.slots](_ => 0);
    var t2hash := new u64[ly.slots](_ => 0);
    var reverseH := new u8[size](_ => 0);
    var reverseOrder := new u64[size + 1](_ => 0);
    reverseOrder[size] := 1;
    var startPos := new nat[Pow2(blockBits)](_ => 0);
    result, attempt := RunAttempts(keys, ly, blockBits, startPos, reverseOrder, reverseH, alone, t2count, t2hash,
        fingerprints);
  }

  /** What the sizing chooses from: the powers of two up to 2^18. */
  predicate IsSegmentLength(n: nat) {
    n > 0 && exists k: nat :: k <= 18 && n == Pow2(k)
  }

  /** Builds a filter from a list of keys.

      `segmentLength` and `requested` stand for the results of the floating-point sizing, `random` for
      the random contents that the fingerprint array starts with: nothing below depends on them. */
  method TryFromIterator(keys: seq<u64>, segmentLength: u32, requested: u32, random: nat -> u16)
    returns (result: BuildResult, ghost ly: Layout, ghost attempt: nat)
    requires IsSegmentLength(segmentLength)
    ensures result.SizeOverflow? <==> keys != [] && requested + segmentLength > U32
    ensures keys != [] && !result.SizeOverflow? ==>
              ly.Valid() && ly.segmentLength == segmentLength
                  && ly.slots == Sizing(segmentLength, requested).0 >= requested
    // No false negatives, for every list of keys, repeated keys included.
    ensures result.Built? ==> forall key | key in keys :: ContainsU64(result.filter, key) == Answer(true)
    ensures result.Built? && keys != [] ==>
              && attempt < MAX_ITER && FailedBefore(keys, ly, attempt)
              && result.filter.descriptor
                  == Descriptor(SeedAt(attempt), ly.segmentLength, ly.mask, ly.segmentCountLength)
              && |result.filter.fingerprints| == ly.slots
    // The seed taken is one under which no different hashes block each other.  Distinct keys: it is the
    // first such seed, unless under it or an earlier one 64 of them share a slot.
    ensures result.Built? && keys != [] ==> !Blocked(keys, SeedAt(attempt), ly)
    ensures result.Built? && keys != [] && Distinct(keys) ==> !Overcrowded(keys, SeedAt(attempt), ly)
    ensures result.Failed? ==> FailedBefore(keys, ly, MAX_ITER) && SeedsFail(keys, ly, 1000)
    ensures result.CountOverflow? ==>
              attempt < MAX_ITER && FailedBefore(keys, ly, attempt) && Overcrowded(keys, SeedAt(attempt), ly)
    ensures keys == [] ==> result == Built(Filter(Descriptor(0, 0, 0, 0), []))
  {
    ly, attempt := Layout(0, 0, 0, 0), 0;
    if |keys| == 0 {
      result := Built(Filter(Descriptor(0, 0, 0, 0), []));
      return;
    }
    ghost var k: nat :| k <= 18 && segmentLength == Pow2(k);
    SizingIsSized(k, requested);
    var (capacity, segmentCount) := Sizing(segmentLength, requested);
    if capacity >= U32 {
      result := SizeOverflow;
      return;
    }
    var layout := Layout(segmentLength, segmentLength - 1, segmentCount * segmentLength, capacity);
    ly := layout;
    var fingerprints := new u16[capacity](random);
    var blockBits := BlockBits(segmentCount);
    result, attempt := Construct(keys, layout, blockBits, fingerprints);
    if result.Failed? {
      FailedSeedsDiffer(keys, ly, MAX_ITER);
    }
  }

  /** A lookup leaves the array only when the filter was built from no keys, and then always. */
  lemma LookupInBounds(f: Filter, key: u64, ly: Layout)
    requires ly.Valid()
    ensures f.descriptor == Descriptor(f.descriptor.seed, ly.segmentLength, ly.mask, ly.segmentCountLength)
            && |f.fingerprints| == ly.slots
            ==> ContainsU64(f, key).Answer?
    ensures f == Filter(Descriptor(0, 0, 0, 0), []) ==> ContainsU64(f, key) == OutOfBounds
  {
    EdgeIsProper(Mix(key, f.descriptor.seed), ly);
  }
}
