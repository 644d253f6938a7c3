/** What a lookup answers in any laid-out filter, whatever its cells hold (`crates/xorf/src/lib.rs`). */
module FuseLookup {
  import opened Bits
  import opened FuseFilter
  import opened FuseHash
  import opened Hypergraph

  /** A filter whose cells and descriptor belong to this layout. */
  ghost predicate LaidOut(f: Filter, ly: Layout) {
    && ly.Valid() && |f.fingerprints| == ly.slots
    && f.descriptor == Descriptor(f.descriptor.seed, ly.segmentLength, ly.mask, ly.segmentCountLength)
  }

  ghost function KeyEdge(f: Filter, ly: Layout, key: u64): Edge {
    EdgeOf(Mix(key, f.descriptor.seed), ly)
  }

  function WithCell(f: Filter, s: nat, value: u16): Filter
    requires s < |f.fingerprints|
  {
    f.(fingerprints := f.fingerprints[s := value])
  }

  /** Where the slots of a hash are: the first is the hash scaled to the segments before the last two, the
      others are at its place in the next two segments, moved by the bits of the hash from 18 and from 0 on. */
  lemma SlotPlaces(hash: u64, ly: Layout)
    requires ly.Valid()
    ensures var e, L := EdgeOf(hash, ly), ly.segmentLength;
            && L > 0
            && e.s0 * U64 <= hash * ly.segmentCountLength < (e.s0 + 1) * U64
            && e.s1 / L == e.s0 / L + 1 && e.s1 % L == Xor(e.s0 % L, hash / 262144 % L)
            && e.s2 / L == e.s0 / L + 2 && e.s2 % L == Xor(e.s0 % L, hash % L)
  {
    var k: nat :| ly.segmentLength == Pow2(k);
    var L, n := ly.segmentLength, ly.segmentCountLength;
    NoWrap(hash, L, ly.mask, n);
    SlotsInConsecutiveSegments(hash, L, ly.mask, n, ly.slots);
    Scaled(hash * n);
    BitsFrom18(hash);
    SlotRests(HighWord(hash, n), L, Shr(hash, 18), hash, k);
  }

  lemma SlotRests(h: nat, L: nat, x: nat, y: nat, k: nat)
    requires L == Pow2(k) < U32
    ensures Xor(h + L, And(x % U32, L - 1)) % L == Xor(h % L, x % L)
    ensures Xor(h + L + L, And(y % U32, L - 1)) % L == Xor(h % L, y % L)
  {
    SamePlace(h, L);
    SlotRest(h + L, h % L, x, L, k);
    SlotRest(h + L + L, h % L, y, L, k);
  }

  lemma Scaled(x: nat)
    ensures x / U64 * U64 <= x < (x / U64 + 1) * U64
  {
  }

  lemma BitsFrom18(hash: nat)
    ensures Shr(hash, 18) == hash / 262144
  {
    ShrIsDivision(hash, 18);
    Pow2Add(9, 9);
    assert Pow2(9) == 512;
  }

  lemma SamePlace(a: nat, L: nat)
    requires L > 0
    ensures (a + L) % L == a % L && (a + L + L) % L == a % L
  {
    ModUnique(a + L, L, a / L + 1, a % L);
    ModUnique(a + L + L, L, a / L + 2, a % L);
  }

  lemma SlotRest(base: nat, place: nat, x: nat, L: nat, k: nat)
    requires L == Pow2(k) < U32 && base % L == place
    ensures Xor(base, And(x % U32, L - 1)) % L == Xor(place, x % L)
  {
    AndMask(x % U32, k);
    LowerBits(x, k);
    XorRest(base, x % L, L, k);
  }

  lemma XorRest(base: nat, y: nat, L: nat, k: nat)
    requires L == Pow2(k) && y < L
    ensures Xor(base, y) % L == Xor(base % L, y)
  {
    XorLowBits(base, y, k);
    ModUnique(y, L, 0, y);
  }

  lemma LowerBits(x: nat, k: nat)
    requires Pow2(k) < U32
    ensures x % U32 % Pow2(k) == x % Pow2(k)
  {
    WordSizes();
    if k > 32 {
      Pow2Mono(32, k);
    }
    Pow2Add(32 - k, k);
    MultipleDropped(x, Pow2(32 - k), Pow2(k));
  }

  lemma MultipleDropped(x: nat, c: nat, m: nat)
    requires c >= 1 && m >= 1 && c * m == U32
    ensures x % U32 % m == x % m
  {
    var q, r := x / U32, x % U32;
    assert x == q * U32 + r;
    assert q * U32 == (q * c) * m;
    assert r == r / m * m + r % m;
    assert x == (q * c + r / m) * m + r % m;
    ModUnique(x, m, q * c + r / m, r % m);
  }

  // ---- answers ----

  /** A lookup in terms of its three cells. */
  lemma LookupReads(f: Filter, ly: Layout, key: u64)
    requires LaidOut(f, ly)
    ensures var e, fp := KeyEdge(f, ly, key), f.fingerprints;
            && e.Proper(ly.slots)
            && ContainsU64(f, key) == Answer(Fingerprint(e.hash) == Xor(Xor(fp[e.s0], fp[e.s1]), fp[e.s2]))
  {
    EdgeIsProper(Mix(key, f.descriptor.seed), ly);
    var e, fp := KeyEdge(f, ly, key), f.fingerprints;
    XorZeroIffEqual(Fingerprint(e.hash), Xor(Xor(fp[e.s0], fp[e.s1]), fp[e.s2]));
  }

  lemma XorSolved(own: nat, a: nat, b: nat, goal: nat)
    ensures Xor(Xor(own, a), b) == goal <==> own == Xor(Xor(goal, b), a)
    ensures Xor(Xor(a, own), b) == goal <==> own == Xor(Xor(goal, b), a)
    ensures Xor(Xor(a, b), own) == goal <==> own == Xor(Xor(goal, b), a)
  {
    XorComm(own, a);
    XorSwap(own, a, b);
    XorAssoc(a, b, own);
    XorComm(b, own);
    XorAssoc(a, own, b);
    XorUndone(own, a, b);
    XorUndone(Xor(Xor(goal, b), a), a, b);
    XorUndone(goal, b, a);
  }

  lemma XorUndone(x: nat, a: nat, b: nat)
    ensures Xor(Xor(Xor(Xor(x, a), b), b), a) == x
  {
    XorCancel(Xor(x, a), b);
    XorCancel(x, a);
  }

  /** The value of a slot that makes the key found, given the other two cells. */
  function FindingValue(hash: u64, a: u16, b: u16): u16 {
    WordSizes();
    XorBound(Fingerprint(hash), b, 16);
    XorBound(Xor(Fingerprint(hash), b), a, 16);
    Xor(Xor(Fingerprint(hash), b), a)
  }

  /** Under this value of the cell the key is found, and under all others it is not. */
  ghost predicate OnlyValue(f: Filter, key: u64, s: nat, value: u16)
    requires s < |f.fingerprints|
  {
    forall v: u16 :: ContainsU64(WithCell(f, s, v), key) == Answer(v == value)
  }

  /** Of the 65536 values of any slot of a key, whatever the other cells hold, exactly one makes the lookup
      find the key; under all others it answers that the key is not there. */
  lemma OneValueFinds(f: Filter, ly: Layout, key: u64, s: nat)
    requires LaidOut(f, ly) && KeyEdge(f, ly, key).Hits(s) && s < ly.slots
    ensures exists value: u16 :: OnlyValue(f, key, s, value)
  {
    var value := TheValue(f, ly, key, s);
    forall v: u16
      ensures ContainsU64(WithCell(f, s, v), key) == Answer(v == value)
    {
      FoundWith(f, ly, key, s, v);
    }
    assert OnlyValue(f, key, s, value);
  }

  ghost function TheValue(f: Filter, ly: Layout, key: u64, s: nat): u16
    requires LaidOut(f, ly)
  {
    LookupReads(f, ly, key);
    var e, fp := KeyEdge(f, ly, key), f.fingerprints;
    if s == e.s0 then FindingValue(e.hash, fp[e.s1], fp[e.s2])
    else if s == e.s1 then FindingValue(e.hash, fp[e.s0], fp[e.s2])
    else FindingValue(e.hash, fp[e.s0], fp[e.s1])
  }

  lemma FoundWith(f: Filter, ly: Layout, key: u64, s: nat, v: u16)
    requires LaidOut(f, ly) && KeyEdge(f, ly, key).Hits(s) && s < ly.slots
    ensures ContainsU64(WithCell(f, s, v), key) == Answer(v == TheValue(f, ly, key, s))
  {
    LookupReads(f, ly, key);
    LookupReads(WithCell(f, s, v), ly, key);
    var e, fp := KeyEdge(f, ly, key), f.fingerprints;
    if s == e.s0 {
      XorSolved(v, fp[e.s1], fp[e.s2], Fingerprint(e.hash));
    } else if s == e.s1 {
      XorSolved(v, fp[e.s0], fp[e.s2], Fingerprint(e.hash));
    } else {
      XorSolved(v, fp[e.s0], fp[e.s1], Fingerprint(e.hash));
    }
  }

  /** No other cell matters. */
  lemma OtherCellsDoNotMatter(f: Filter, ly: Layout, key: u64, s: nat, value: u16)
    requires LaidOut(f, ly) && !KeyEdge(f, ly, key).Hits(s) && s < ly.slots
    ensures ContainsU64(WithCell(f, s, value), key) == ContainsU64(f, key)
  {
    LookupReads(f, ly, key);
    LookupReads(WithCell(f, s, value), ly, key);
  }

  /** With all cells zero a key is found exactly if the lowest 16 bits of its hash are those from bit 32 on. */
  lemma ZeroCellsFind(f: Filter, ly: Layout, key: u64)
    requires LaidOut(f, ly) && forall s | 0 <= s < ly.slots :: f.fingerprints[s] == 0
    ensures var hash := Mix(key, f.descriptor.seed);
            ContainsU64(f, key) == Answer(hash % U16 == hash / U32 % U16)
  {
    LookupReads(f, ly, key);
    FingerprintBits(Mix(key, f.descriptor.seed));
  }

  lemma FingerprintBits(hash: u64)
    ensures Fingerprint(hash) == 0 <==> hash % U16 == hash / U32 % U16
  {
    WordSizes();
    ShrIsDivision(hash, 32);
    XorLowBits(hash, hash / U32, 16);
    XorZeroIffEqual(hash % U16, hash / U32 % U16);
  }
}
