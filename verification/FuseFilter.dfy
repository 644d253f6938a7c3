/** The filter value, its lookup, and the layout that ties hashes to hypergraph edges. */
module FuseFilter {
  import opened Bits
  import opened FuseHash
  import opened Hypergraph

  datatype Filter = Filter(descriptor: Descriptor, fingerprints: seq<u16>)

  /** A lookup answers, or stops because a slot lies outside the fingerprint array. */
  datatype Lookup = Answer(found: bool) | OutOfBounds

  function Fingerprint(hash: u64): u16 {
    Xor(hash, Shr(hash, 32)) % U16
  }

  function ContainsU64(f: Filter, key: u64): Lookup {
    var d := f.descriptor;
    var hash := Mix(key, d.seed);
    var (h0, h1, h2) := HashOfHash(hash, d.segmentLength, d.segmentLengthMask, d.segmentCountLength);
    if h0 < |f.fingerprints| && h1 < |f.fingerprints| && h2 < |f.fingerprints| then
      Answer(Xor(Fingerprint(hash), Xor(Xor(f.fingerprints[h0], f.fingerprints[h1]), f.fingerprints[h2])) == 0)
    else
      OutOfBounds
  }

  /** Everything that selects slots except the seed. */
  datatype Layout = Layout(segmentLength: u32, mask: u32, segmentCountLength: u32, slots: nat) {
    ghost predicate Valid() {
      Sized(segmentLength, mask, segmentCountLength, slots)
    }
  }

  function EdgeOf(hash: u64, ly: Layout): Edge {
    var (h0, h1, h2) := HashOfHash(hash, ly.segmentLength, ly.mask, ly.segmentCountLength);
    Edge(hash, h0, h1, h2)
  }

  lemma EdgeIsProper(hash: u64, ly: Layout)
    requires ly.Valid()
    ensures EdgeOf(hash, ly).Proper(ly.slots)
  {
    SlotsInConsecutiveSegments(hash, ly.segmentLength, ly.mask, ly.segmentCountLength, ly.slots);
  }

  /** The edges of a list of hashes. */
  ghost predicate AreEdges(E: seq<Edge>, hashes: seq<u64>, ly: Layout) {
    && |E| == |hashes|
    && forall k | 0 <= k < |E| :: E[k] == EdgeOf(hashes[k], ly)
  }

  ghost function EdgesOf(hashes: seq<u64>, ly: Layout): (E: seq<Edge>)
    ensures AreEdges(E, hashes, ly)
  {
    seq(|hashes|, i requires 0 <= i < |hashes| => EdgeOf(hashes[i], ly))
  }

  /** Every edge lies in the slot array and carries a 64-bit hash. */
  ghost predicate Wired(E: seq<Edge>, slots: nat) {
    forall k | 0 <= k < |E| :: E[k].Proper(slots) && E[k].hash < U64
  }

  lemma EdgesAreWired(E: seq<Edge>, hashes: seq<u64>, ly: Layout)
    requires AreEdges(E, hashes, ly) && ly.Valid()
    ensures Wired(E, ly.slots)
  {
    forall k | 0 <= k < |E|
      ensures E[k].Proper(ly.slots) && E[k].hash < U64
    {
      EdgeIsProper(hashes[k], ly);
    }
  }

  /** The equation that makes a lookup of this edge succeed. */
  ghost predicate Balanced(e: Edge, fp: seq<u16>)
    requires e.Proper(|fp|) && e.hash < U64
  {
    Xor(Fingerprint(e.hash), Xor(Xor(fp[e.s0], fp[e.s1]), fp[e.s2])) == 0
  }

  lemma BalancedIsFound(f: Filter, key: u64, ly: Layout)
    requires ly == Layout(f.descriptor.segmentLength, f.descriptor.segmentLengthMask,
                          f.descriptor.segmentCountLength, |f.fingerprints|)
    requires EdgeOf(Mix(key, f.descriptor.seed), ly).Proper(|f.fingerprints|)
    requires Balanced(EdgeOf(Mix(key, f.descriptor.seed), ly), f.fingerprints)
    ensures ContainsU64(f, key) == Answer(true)
  {
  }

  // ---- the packed byte: count in the top six bits, role xor in the low two ----

  ghost predicate Packs(c: nat, h: nat, cell: Cell) {
    c == 4 * cell.count + cell.role && cell.role < 4 && h == cell.hash
  }

  lemma Unpack(c: nat, h: nat, cell: Cell)
    requires Packs(c, h, cell)
    ensures Shr(c, 2) == cell.count && And(c, 3) == cell.role
  {
    assert Pow2(2) == 4;
    ShrIsDivision(c, 2);
    AndMask(c, 2);
    ModUnique(c, 4, cell.count, cell.role);
  }

  lemma XorLowRole(m: nat, q: nat, r: nat)
    requires q < 4 && r < 4
    ensures Xor(4 * m + q, r) == 4 * m + Xor(q, r)
    ensures Xor(q, r) < 4
  {
    var c := 4 * m + q;
    assert Pow2(2) == 4;
    XorBound(q, r, 2);
    XorKeepsBlock(c, r, 2);
    XorLowBits(c, r, 2);
    ModUnique(c, 4, m, q);
    ModUnique(r, 4, 0, r);
  }

  lemma PackInsert(c: nat, h: nat, cell: Cell, e: Edge, s: nat)
    requires Packs(c, h, cell) && e.Hits(s)
    ensures Packs(Xor(c + 4, e.RoleOf(s)), Xor(h, e.hash), cell.With(e, s))
  {
    XorLowRole(cell.count + 1, cell.role, e.RoleOf(s));
  }

  lemma PackRemove(c: nat, h: nat, cell: Cell, e: Edge, s: nat)
    requires Packs(c, h, cell.With(e, s)) && e.Hits(s) && cell.role < 4
    ensures c >= 4
    ensures Packs(Xor(c - 4, e.RoleOf(s)), Xor(h, e.hash), cell)
  {
    XorLowRole(cell.count, cell.With(e, s).role, e.RoleOf(s));
    XorCancel(cell.role, e.RoleOf(s));
    XorCancel(cell.hash, e.hash);
  }

  /** Outside the skipped slots the two arrays hold the summaries of the live edges. */
  ghost predicate Matches(c: seq<nat>, h: seq<nat>, E: seq<Edge>, live: set<nat>, skip: set<nat>) {
    && |c| == |h|
    && forall s | 0 <= s < |c| && s !in skip :: Packs(c[s], h[s], Summary(E, live, s))
  }
}
