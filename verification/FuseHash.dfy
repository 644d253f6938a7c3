/** Key mixing and slot selection of the binary fuse filter (`crates/xorf/src/lib.rs`). */
module FuseHash {
  import opened Bits

  const MUL1: nat := 0xff51_afd7_ed55_8ccd
  const MUL2: nat := 0xc4ce_b9fe_1a85_ec53

  function XorShift(k: u64, n: nat): (r: u64)
  {
    WordSizes();
    ShrShrinks(k, n);
    XorBound(k, Shr(k, n), 64);
    Xor(k, Shr(k, n))
  }

  lemma {:induction false} ShrShrinks(a: nat, k: nat)
    ensures Shr(a, k) <= a
  {
    if k > 0 {
      ShrShrinks(a / 2, k - 1);
    }
  }

  /** Multiplication that keeps the low 64 bits. */
  function MulWrap(k: u64, factor: nat): u64 {
    k * factor % U64
  }

  /** The 64-bit finaliser. */
  function Mix64(k: u64): u64 {
    var k1 := XorShift(k, 33);
    var k2 := MulWrap(k1, MUL1);
    var k3 := XorShift(k2, 33);
    var k4 := MulWrap(k3, MUL2);
    XorShift(k4, 33)
  }

  function Mix(key: u64, seed: u64): u64 {
    Mix64((key + seed) % U64)
  }

  // ---- injectivity of the mixer ----

  /** Undoes a shift by a third of the word or more. */
  function UnXorShift(x: u64, n: nat): u64 {
    WordSizes();
    ShrShrinks(x, n + n);
    XorBound(XorShift(x, n), Shr(x, n + n), 64);
    Xor(XorShift(x, n), Shr(x, n + n))
  }

  lemma XorShiftUndone(a: u64, n: nat)
    requires 22 <= n <= 64
    ensures UnXorShift(XorShift(a, n), n) == a
  {
    var s, t, x := Shr(a, n), Shr(a, n + n), XorShift(a, n);
    XorShr(a, s, n);
    XorShr(a, s, n + n);
    ShrTwice(a, n, n);
    ShrTwice(a, n, n + n);
    ShrVanishes(a, n + (n + n));
    TripleXor(a, s, t);
  }

  lemma TripleXor(a: nat, s: nat, t: nat)
    ensures Xor(Xor(Xor(a, s), Xor(s, t)), t) == a
  {
    XorAssoc(Xor(a, s), s, t);
    XorCancel(a, s);
    XorCancel(a, t);
  }

  lemma {:induction false} ShrTwice(a: nat, j: nat, k: nat)
    ensures Shr(Shr(a, j), k) == Shr(a, j + k)
  {
    if j > 0 {
      ShrTwice(a / 2, j - 1, k);
    }
  }

  lemma ShrVanishes(a: u64, n: nat)
    requires n >= 64
    ensures Shr(a, n) == 0
  {
    WordSizes();
    Pow2Mono(64, n);
    ShrIsDivision(a, n);
    ModUnique(a, Pow2(n), 0, a);
  }

  lemma MulAssoc(a: int, b: int, c: int)
    ensures (a * b) * c == a * (b * c)
  {
  }

  lemma SubMul(a: int, b: int, c: int)
    ensures (a - b) * c == a * c - b * c
  {
  }

  lemma DivMod(a: nat, m: nat)
    requires m > 0
    ensures a == a / m * m + a % m
  {
  }

  lemma DistributeOne(d: int, x: int)
    ensures d * (x + 1) == d * x + d
  {
  }

  const UNMUL1: nat := 0x4f74_430c_22a5_4005
  const UNMUL2: nat := 0x9cb4_b2f8_1293_37db

  lemma Inverses()
    ensures MUL1 * UNMUL1 % U64 == 1 && MUL2 * UNMUL2 % U64 == 1
  {
  }

  lemma MulUndone(k: u64, factor: nat, inverse: nat)
    requires factor * inverse % U64 == 1
    ensures MulWrap(MulWrap(k, factor), inverse) == k
  {
    UndoneModulo(k, factor, inverse, U64);
  }

  lemma UndoneModulo(k: nat, c: nat, inverse: nat, m: nat)
    requires 1 < m && k < m && c * inverse % m == 1
    ensures k * c % m * inverse % m == k
  {
    var p, t := k * c / m, c * inverse / m;
    DivMod(k * c, m);
    DivMod(c * inverse, m);
    SubMul(k * c, p * m, inverse);
    MulAssoc(k, c, inverse);
    DistributeOne(k, t * m);
    MulAssoc(k, t, m);
    MulAssoc(p, m, inverse);
    MulAssoc(p, inverse, m);
    assert m * inverse == inverse * m;
    SubMul(k * t, p * inverse, m);
    assert k * c % m * inverse == (k * t - p * inverse) * m + k;
    ModUnique(k * c % m * inverse, m, k * t - p * inverse, k);
  }

  /** The inverse of the finaliser. */
  function Unmix64(hash: u64): u64 {
    var k3 := MulWrap(UnXorShift(hash, 33), UNMUL2);
    var k1 := MulWrap(UnXorShift(k3, 33), UNMUL1);
    UnXorShift(k1, 33)
  }

  lemma Mix64IsUndone(k: u64)
    ensures Unmix64(Mix64(k)) == k
  {
    var k1 := XorShift(k, 33);
    var k2 := MulWrap(k1, MUL1);
    var k3 := XorShift(k2, 33);
    Inverses();
    XorShiftUndone(MulWrap(k3, MUL2), 33);
    MulUndone(k3, MUL2, UNMUL2);
    XorShiftUndone(k2, 33);
    MulUndone(k1, MUL1, UNMUL1);
    XorShiftUndone(k, 33);
  }

  /** The key of a hash. */
  function KeyOf(hash: u64, seed: u64): u64 {
    (Unmix64(hash) + (U64 - seed)) % U64
  }

  /** Every key can be computed back from its hash and the seed. */
  lemma MixIsUndone(key: u64, seed: u64)
    ensures KeyOf(Mix(key, seed), seed) == key
  {
    Mix64IsUndone((key + seed) % U64);
    AddUndone(key, seed);
  }

  lemma AddUndone(a: u64, s: u64)
    ensures ((a + s) % U64 + (U64 - s)) % U64 == a
  {
  }

  /** Different keys have different hashes under every seed. */
  lemma MixInjective(a: u64, b: u64, seed: u64)
    requires Mix(a, seed) == Mix(b, seed)
    ensures a == b
  {
    MixIsUndone(a, seed);
    MixIsUndone(b, seed);
  }

  // ---- slot selection ----

  datatype Descriptor = Descriptor(seed: u64, segmentLength: u32, segmentLengthMask: u32, segmentCountLength: u32)

  /** The high 64 bits of a 128-bit product. */
  function HighWord(a: nat, b: nat): nat {
    a * b / U64
  }

  /** The three slots of a hash.  The additions wrap at 32 bits. */
  function HashOfHash(hash: u64, segmentLength: u32, mask: u32, segmentCountLength: u32): (nat, nat, nat) {
    var h0 := HighWord(hash, segmentCountLength) % U32;
    var h1 := (h0 + segmentLength) % U32;
    var h2 := (h1 + segmentLength) % U32;
    (h0, Xor(h1, And(Shr(hash, 18) % U32, mask)), Xor(h2, And(hash % U32, mask)))
  }

  /** What the sizing code establishes: power-of-two segments, a whole number of them, and an array
      with two spare segments that fits 32 bits. */
  ghost predicate Sized(segmentLength: nat, mask: nat, segmentCountLength: nat, arrayLength: nat) {
    && (exists k: nat :: segmentLength == Pow2(k))
    && mask == segmentLength - 1
    && segmentCountLength > 0
    && segmentCountLength % segmentLength == 0
    && arrayLength == segmentCountLength + 2 * segmentLength
    && arrayLength < U32
  }

  /** The slots of a hash lie in three consecutive segments; so they are distinct and in range. */
  lemma SlotsInConsecutiveSegments(hash: u64, segmentLength: u32, mask: u32, segmentCountLength: u32, arrayLength: nat)
    requires Sized(segmentLength, mask, segmentCountLength, arrayLength)
    ensures var (h0, h1, h2) := HashOfHash(hash, segmentLength, mask, segmentCountLength);
            && h0 < segmentCountLength
            && h1 / segmentLength == h0 / segmentLength + 1
            && h2 / segmentLength == h0 / segmentLength + 2
            && h0 != h1 && h0 != h2 && h1 != h2
            && h0 < arrayLength && h1 < arrayLength && h2 < arrayLength
  {
    var k: nat :| segmentLength == Pow2(k);
    NoWrap(hash, segmentLength, mask, segmentCountLength);
    ConsecutiveSegments(HighWord(hash, segmentCountLength), segmentLength, segmentCountLength, arrayLength,
                        Shr(hash, 18) % U32, hash % U32, k);
  }

  lemma NoWrap(hash: u64, L: u32, mask: u32, n: u32)
    requires 0 < n && n + 2 * L < U32
    ensures HighWord(hash, n) < n
    ensures var h0 := HighWord(hash, n);
            HashOfHash(hash, L, mask, n)
            == (h0, Xor(h0 + L, And(Shr(hash, 18) % U32, mask)), Xor(h0 + L + L, And(hash % U32, mask)))
  {
    HighWordBelow(hash, n);
    WrapFree(HighWord(hash, n), L);
  }

  lemma WrapFree(h: nat, L: nat)
    requires h + 2 * L < U32
    ensures h % U32 == h && (h + L) % U32 == h + L && (h + L + L) % U32 == h + L + L
  {
  }

  lemma ConsecutiveSegments(h0: nat, L: nat, n: nat, arrayLength: nat, x: nat, y: nat, k: nat)
    requires L == Pow2(k) && n % L == 0 && h0 < n && arrayLength == n + 2 * L
    ensures var h1, h2 := Xor(h0 + L, And(x, L - 1)), Xor(h0 + L + L, And(y, L - 1));
            && h1 / L == h0 / L + 1 && h2 / L == h0 / L + 2
            && h0 != h1 && h0 != h2 && h1 != h2
            && h0 < arrayLength && h1 < arrayLength && h2 < arrayLength
  {
    WholeSegments(h0, n, L, arrayLength);
    MaskedSlot(h0, L, x, k, n / L);
    MaskedSlot(h0 + L, L, y, k, n / L + 1);
  }

  lemma WholeSegments(h0: nat, n: nat, L: nat, arrayLength: nat)
    requires L > 0 && n % L == 0 && h0 < n && arrayLength == n + 2 * L
    ensures h0 / L < n / L && (h0 + L) / L == h0 / L + 1
    ensures (n / L + 1) * L <= arrayLength && (n / L + 2) * L == arrayLength
  {
    LastBlock(h0, n, L);
    NextBlock(h0, L);
    assert n == (n / L) * L;
  }

  /** One segment on from `base`, with the low bits flipped by a masked value. */
  lemma MaskedSlot(base: nat, L: nat, x: nat, k: nat, q: nat)
    requires L == Pow2(k) && base / L < q
    ensures Xor(base + L, And(x, L - 1)) / L == base / L + 1
    ensures (base + L) / L == base / L + 1
    ensures Xor(base + L, And(x, L - 1)) < (q + 1) * L
  {
    AndMask(x, k);
    FlippedSlot(base, L, x % L, k, q);
  }

  lemma FlippedSlot(base: nat, L: nat, y: nat, k: nat, q: nat)
    requires L == Pow2(k) && base / L < q && y < L
    ensures Xor(base + L, y) / L == base / L + 1
    ensures (base + L) / L == base / L + 1
    ensures Xor(base + L, y) < (q + 1) * L
  {
    XorKeepsBlock(base + L, y, k);
    NextBlock(base, L);
    BlockBound(Xor(base + L, y), L, q);
  }

  lemma NextBlock(a: nat, m: nat)
    requires m > 0
    ensures (a + m) / m == a / m + 1
  {
    ModUnique(a + m, m, a / m + 1, a % m);
  }

  lemma HighWordBelow(hash: u64, n: nat)
    requires n > 0
    ensures HighWord(hash, n) < n
  {
    var q := hash * n / U64;
    MulAtLeast(n, U64 - hash);
    assert n * (U64 - hash) == n * U64 - hash * n;
    if q >= n {
      MulMono(n, q, U64);
    }
  }

  lemma LastBlock(a: nat, n: nat, m: nat)
    requires m > 0 && n % m == 0 && a < n
    ensures a / m < n / m
  {
    if a / m >= n / m {
      MulMono(n / m, a / m, m);
    }
  }

  lemma BlockBound(a: nat, m: nat, q: nat)
    requires m > 0 && a / m <= q
    ensures a < (q + 1) * m
  {
    MulMono(a / m, q, m);
    assert (q + 1) * m == q * m + m;
  }

  // ---- sizing ----

  function DivCeil(a: nat, b: nat): nat
    requires b > 0
  {
    if a % b == 0 then a / b else a / b + 1
  }

  /** Array length and segment count from the requested capacity. */
  function Sizing(segmentLength: nat, capacity: nat): (nat, nat)
    requires segmentLength > 0
  {
    var arrayLength := DivCeil(capacity, segmentLength) * segmentLength;
    var proposed := DivCeil(arrayLength, segmentLength);
    var segmentCount := if proposed < 3 then 1 else proposed - 2;
    ((segmentCount + 2) * segmentLength, segmentCount)
  }

  lemma DivCeilBounds(a: nat, b: nat)
    requires b > 0
    ensures a <= DivCeil(a, b) * b < a + b
    ensures DivCeil(DivCeil(a, b) * b, b) == DivCeil(a, b)
  {
    assert a == (a / b) * b + a % b;
    assert (a / b + 1) * b == (a / b) * b + b;
    ModUnique(DivCeil(a, b) * b, b, DivCeil(a, b), 0);
  }

  /** The sizing code yields a usable layout that holds the requested capacity exactly if rounding the
      capacity up to whole segments stays inside 32 bits; otherwise the array length overflows. */
  lemma SizingIsSized(k: nat, capacity: u32)
    requires k <= 18
    ensures var (arrayLength, segmentCount) := Sizing(Pow2(k), capacity);
            && arrayLength >= capacity
            && (arrayLength < U32 <==> capacity + Pow2(k) <= U32)
            && (arrayLength < U32 ==> Sized(Pow2(k), Pow2(k) - 1, segmentCount * Pow2(k), arrayLength))
  {
    SegmentLengths(k);
    SizingArithmetic(Pow2(k), Pow2(32 - k), capacity);
  }

  lemma SegmentLengths(k: nat)
    requires k <= 18
    ensures Pow2(k) <= 262144 && Pow2(32 - k) * Pow2(k) == U32
  {
    Pow2Mono(k, 18);
    assert Pow2(9) == 512;
    Pow2Add(9, 9);
    WordSizes();
    Pow2Add(32 - k, k);
  }

  lemma SizingArithmetic(L: nat, M: nat, capacity: u32)
    requires 0 < L <= 262144 && M * L == U32
    ensures var (arrayLength, segmentCount) := Sizing(L, capacity);
            && capacity <= arrayLength == segmentCount * L + 2 * L
            && (arrayLength < U32 <==> capacity + L <= U32)
            && segmentCount * L > 0 && segmentCount * L % L == 0
  {
    var n := DivCeil(capacity, L);
    DivCeilBounds(capacity, L);
    var segmentCount := if n < 3 then 1 else n - 2;
    ModUnique(segmentCount * L, L, segmentCount, 0);
    MulAtLeast(segmentCount, L);
    assert (segmentCount + 2) * L == segmentCount * L + 2 * L;
    MulMono(n, segmentCount + 2, L);
    if capacity + L > U32 {
      assert (M - 1) * L == M * L - L;
      LargerMultiple(n, M - 1, L);
      MulMono(M, n, L);
    }
  }

  lemma LargerMultiple(n: int, m: int, L: nat)
    requires n * L > m * L
    ensures n > m
  {
    if n <= m {
      MulMono(n, m, L);
    }
  }
}
