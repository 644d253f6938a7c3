/** The generator that supplies one seed per construction attempt (`crates/xorf/src/lib.rs`): it does not
    repeat a seed within its period of 2^64. */
module FuseSeeds {
  import opened Bits
  import opened FuseHash

  const GAMMA: nat := 0x9e37_79b9_7f4a_7c15
  const MUL3: nat := 0xbf58_476d_1ce4_e5b9
  const MUL4: nat := 0x94d0_49bb_1331_11eb

  /** New state and output. */
  function SplitMix64(state: u64): (u64, u64) {
    var s := (state + GAMMA) % U64;
    (s, Scrambled(s))
  }

  function Scrambled(s: u64): u64 {
    var z1 := MulWrap(XorShift(s, 30), MUL3);
    var z2 := MulWrap(XorShift(z1, 27), MUL4);
    XorShift(z2, 31)
  }

  /** State of the generator after n draws: it runs through the multiples of the step. */
  function RngState(n: nat): u64 {
    (n * GAMMA + 1) % U64
  }

  /** Seed of attempt n. */
  function SeedAt(n: nat): u64 {
    Scrambled(RngState(n + 1))
  }

  /** The n-th draw. */
  lemma Draw(n: nat)
    ensures SplitMix64(RngState(n)) == (RngState(n + 1), SeedAt(n))
  {
    OneStepOn(n * GAMMA, (n + 1) * GAMMA, GAMMA);
  }

  lemma OneStepOn(x: nat, y: nat, step: nat)
    requires y == x + step
    ensures ((x + 1) % U64 + step) % U64 == (y + 1) % U64
  {
  }

  // ---- seeds do not repeat ----

  const UNGAMMA: nat := 0xf1de_83e1_9937_733d
  const UNMUL3: nat := 0x96de_1b17_3f11_9089
  const UNMUL4: nat := 0x3196_42b2_d24d_8ec3

  lemma SeedInverses()
    ensures GAMMA * UNGAMMA % U64 == 1 && MUL3 * UNMUL3 % U64 == 1 && MUL4 * UNMUL4 % U64 == 1
  {
  }

  /** The inverse of the output function. */
  function Unscrambled(seed: u64): u64 {
    var z1 := MulWrap(UnXorShift(seed, 31), UNMUL4);
    var z := MulWrap(UnXorShift(z1, 27), UNMUL3);
    UnXorShift(z, 30)
  }

  lemma ScrambledIsUndone(s: u64)
    ensures Unscrambled(Scrambled(s)) == s
  {
    var x1 := XorShift(s, 30);
    var z1 := MulWrap(x1, MUL3);
    var x2 := XorShift(z1, 27);
    SeedInverses();
    XorShiftUndone(MulWrap(x2, MUL4), 31);
    MulUndone(x2, MUL4, UNMUL4);
    XorShiftUndone(z1, 27);
    MulUndone(x1, MUL3, UNMUL3);
    XorShiftUndone(s, 30);
  }

  /** The attempt that has this seed. */
  function AttemptOf(seed: u64): nat {
    (Unscrambled(seed) + (U64 - 1 - GAMMA)) % U64 * UNGAMMA % U64
  }

  /** The number of the attempt can be computed back from its seed. */
  lemma SeedIsUndone(n: u64)
    ensures AttemptOf(SeedAt(n)) == n
  {
    ScrambledIsUndone(RngState(n + 1));
    StateUndone(n);
  }

  lemma StateUndone(n: u64)
    ensures (RngState(n + 1) + (U64 - 1 - GAMMA)) % U64 * UNGAMMA % U64 == n
  {
    SeedInverses();
    StateAfter(n);
    StepsUndone(n, RngState(n + 1), GAMMA, UNGAMMA);
  }

  lemma StateAfter(n: nat)
    ensures RngState(n + 1) == (n * GAMMA + (GAMMA + 1)) % U64
  {
    assert (n + 1) * GAMMA + 1 == n * GAMMA + (GAMMA + 1);
  }

  lemma StepsUndone(n: u64, s: u64, step: u64, inverse: nat)
    requires s == (n * step + (step + 1)) % U64 && step * inverse % U64 == 1 && step < U64 - 1
    ensures (s + (U64 - 1 - step)) % U64 * inverse % U64 == n
  {
    FirstStepOff(n * step, step);
    UndoneModulo(n, step, inverse, U64);
  }

  lemma FirstStepOff(x: nat, step: nat)
    requires step < U64 - 1
    ensures ((x + (step + 1)) % U64 + (U64 - 1 - step)) % U64 == x % U64
  {
  }

  /** Two of the first 2^64 attempts never use the same seed. */
  lemma SeedsDiffer(m: u64, n: u64)
    requires SeedAt(m) == SeedAt(n)
    ensures m == n
  {
    SeedIsUndone(m);
    SeedIsUndone(n);
  }

  /** The seeds of the first n attempts. */
  ghost function SeedsBelow(n: nat): set<u64> {
    if n == 0 then {} else SeedsBelow(n - 1) + {SeedAt(n - 1)}
  }

  lemma {:induction false} SeedIsBelow(seed: u64, n: nat)
    requires seed in SeedsBelow(n)
    ensures exists m: nat :: m < n && SeedAt(m) == seed
  {
    if seed in SeedsBelow(n - 1) {
      SeedIsBelow(seed, n - 1);
    }
  }

  lemma {:induction false} SeedsBelowAre(n: nat)
    requires n <= U64
    ensures |SeedsBelow(n)| == n
  {
    if n > 0 {
      SeedsBelowAre(n - 1);
      NewSeed(n - 1);
    }
  }

  lemma NewSeed(n: u64)
    ensures SeedAt(n) !in SeedsBelow(n)
  {
    if SeedAt(n) in SeedsBelow(n) {
      SeedIsBelow(SeedAt(n), n);
      var m: nat :| m < n && SeedAt(m) == SeedAt(n);
      SeedsDiffer(m, n);
    }
  }

}
