/** The token bucket that limits a claim's bandwidth (`crates/claim/src/bucket.rs`).

    One call at a time; a compare-and-swap can still fail spuriously, which a parameter decides. */
module TokenBuckets {
  import opened Bits

  const MICRO_UNITS: nat := 1_000_000
  const U64_MAX: nat := U64 - 1

  /** `Overflow`: a 64-bit product does not fit, and nothing is said about what follows. */
  datatype Outcome = Consumed | Wait(ms: nat) | Overflow

  predicate RefillFits(elapsedMs: nat, rate: nat) {
    (if elapsedMs > 1_000_000 then elapsedMs / 1000 * rate else elapsedMs * rate) < U64
  }

  function CalculateNewTokens(elapsedMs: nat, rate: nat): nat {
    if elapsedMs == 0 || rate == 0 then 0
    else if elapsedMs > 1_000_000 then elapsedMs / 1000 * rate
    else elapsedMs * rate / 1000
  }

  function SaturatingSub(a: nat, b: nat): nat {
    if a < b then 0 else a - b
  }

  function SaturatingAdd(a: nat, b: nat): nat {
    if a + b > U64_MAX then U64_MAX else a + b
  }

  function WaitMs(needed: nat, rate: nat): nat {
    if rate == 0 then 1000
    else if needed * 1000 / rate == 0 then 1 else needed * 1000 / rate
  }

  // ---- refills ----

  /** Never more is credited than the elapsed time is worth. */
  lemma RefillIsBounded(elapsedMs: nat, rate: nat)
    ensures 1000 * CalculateNewTokens(elapsedMs, rate) <= elapsedMs * rate
  {
    if elapsedMs > 1_000_000 {
      MulMono(1000 * (elapsedMs / 1000), elapsedMs, rate);
      assert 1000 * (elapsedMs / 1000 * rate) == (1000 * (elapsedMs / 1000)) * rate;
    }
  }

  /** A refill overflows exactly if the elapsed time times the rate does, but after more than 1000 seconds only if
      what is credited does not fit. */
  lemma RefillFitsIff(elapsedMs: nat, rate: nat)
    ensures elapsedMs <= 1_000_000 ==> (RefillFits(elapsedMs, rate) <==> elapsedMs * rate <= U64_MAX)
    ensures elapsedMs > 1_000_000 ==> (RefillFits(elapsedMs, rate) <==> CalculateNewTokens(elapsedMs, rate) <= U64_MAX)
  {
    if rate == 0 {
      assert elapsedMs / 1000 * rate == 0;
    }
  }

  /** Less than one second's worth is lost to rounding, less than one micro-token below 1000 seconds. */
  lemma RefillIsClose(elapsedMs: nat, rate: nat)
    ensures elapsedMs * rate < 1000 * CalculateNewTokens(elapsedMs, rate)
                               + (if elapsedMs > 1_000_000 then 999 * rate + 1 else 1000)
  {
    if elapsedMs > 1_000_000 {
      MulMono(elapsedMs, 1000 * (elapsedMs / 1000) + 999, rate);
      assert (1000 * (elapsedMs / 1000) + 999) * rate == 1000 * (elapsedMs / 1000 * rate) + 999 * rate;
    } else if elapsedMs == 0 || rate == 0 {
      assert elapsedMs * rate == 0;
    }
  }

  lemma DivAtLeast(a: nat, b: nat, q: nat)
    requires b > 0 && q * b <= a
    ensures a / b >= q
  {
    var d := a / b;
    assert a == d * b + a % b;
    assert (d + 1) * b == d * b + b;
    if d + 1 <= q {
      MulMono(d + 1, q, b);
    }
  }

  /** Any wait of a millisecond or more credits something if the rate is at least 1000 micro-tokens a second. */
  lemma FastRateRefills(elapsedMs: nat, rate: nat)
    requires elapsedMs >= 1 && rate >= 1000
    ensures CalculateNewTokens(elapsedMs, rate) >= 1
  {
    if elapsedMs > 1_000_000 {
      MulMono(1, elapsedMs / 1000, rate);
    } else {
      MulMono(1, elapsedMs, rate);
      DivAtLeast(elapsedMs * rate, 1000, 1);
    }
  }

  // ---- waiting ----

  /** What is still missing after waiting as told and waking up some milliseconds late. */
  function Next(needed: nat, rate: nat, late: nat): nat {
    SaturatingSub(needed, CalculateNewTokens(WaitMs(needed, rate) + late, rate))
  }

  /** What is still missing after k waits, the i-th of which overslept by `late(i)`. */
  function Missing(needed: nat, rate: nat, late: nat -> nat, k: nat): nat {
    if k == 0 then needed else Next(Missing(needed, rate, late, k - 1), rate, late(k - 1))
  }

  /** The refill after the k-th wait does not fit 64 bits. */
  predicate WaitOverflows(needed: nat, rate: nat, late: nat -> nat, k: nat) {
    var left := Missing(needed, rate, late, k);
    left > 0 && !RefillFits(WaitMs(left, rate) + late(k), rate)
  }

  lemma {:induction false} MissingShrinks(needed: nat, rate: nat, late: nat -> nat, k: nat)
    ensures Missing(needed, rate, late, k) <= needed
  {
    if k > 0 {
      MissingShrinks(needed, rate, late, k - 1);
    }
  }

  /** The time since the last refill when k waits are over. */
  ghost predicate Elapsed(elapsed: nat, first: nat, needed: nat, rate: nat, late: nat -> nat, k: nat) {
    if k == 0 then elapsed == first
    else
      var left := Missing(needed, rate, late, k - 1);
      left > 0 && elapsed == WaitMs(left, rate) + late(k - 1)
  }

  /** A 64-bit product of a call does not fit: a thousand times what is missing, the first refill, or the
      refill after one of the first n waits. */
  ghost predicate ProductOverflows(needed: nat, first: nat, rate: nat, late: nat -> nat, n: nat) {
    || needed * 1000 > U64_MAX
    || !RefillFits(first, rate)
    || exists k | 0 <= k < n :: WaitOverflows(needed, rate, late, k)
  }

  /** Once nothing is missing, nothing is missing any more. */
  lemma {:induction false} NothingStaysMissing(needed: nat, rate: nat, late: nat -> nat, k: nat, n: nat)
    requires k <= n && Missing(needed, rate, late, k) == 0
    ensures Missing(needed, rate, late, n) == 0
    decreases n
  {
    if k < n {
      NothingStaysMissing(needed, rate, late, k, n - 1);
    }
  }

  /** Some number of waits is enough. */
  ghost predicate Ends(needed: nat, rate: nat, late: nat -> nat) {
    exists k: nat :: Missing(needed, rate, late, k) == 0
  }

  /** At 1000 micro-tokens a second or more, every wait lowers what is missing, however late it ends. */
  lemma {:induction false} FastRateLowers(needed: nat, rate: nat, late: nat -> nat, k: nat)
    requires rate >= 1000 && k <= needed
    ensures Missing(needed, rate, late, k) <= needed - k
  {
    if k > 0 {
      FastRateLowers(needed, rate, late, k - 1);
      var left := Missing(needed, rate, late, k - 1);
      FastRateRefills(WaitMs(left, rate) + late(k - 1), rate);
    }
  }

  lemma FastRateEnds(needed: nat, rate: nat, late: nat -> nat)
    requires rate >= 1000
    ensures Ends(needed, rate, late)
  {
    FastRateLowers(needed, rate, late, needed);
    assert Missing(needed, rate, late, needed) == 0;
  }

  /** One wait that ends on time at a slow rate: everything arrives or one micro-token stays missing, and
      after more than 1000 seconds the part of a second is lost. */
  lemma SlowNext(needed: nat, rate: nat)
    requires 1 <= rate < 1000 && needed >= 1
    ensures Next(needed, rate, 0)
            == if needed * 1000 / rate > 1_000_000 then needed % rate else if needed * 1000 % rate == 0 then 0 else 1
  {
    var wait, rest := needed * 1000 / rate, needed * 1000 % rate;
    DivAtLeast(needed * 1000, rate, 1);
    assert needed * 1000 == wait * rate + rest;
    if wait > 1_000_000 {
      assert needed == needed / rate * rate + needed % rate;
      NestedDivision(needed, rate);
    } else {
      LastOfThousand(needed, wait * rate, rest);
    }
  }

  lemma LastOfThousand(needed: nat, product: nat, rest: nat)
    requires needed * 1000 == product + rest && rest < 1000
    ensures product / 1000 == if rest == 0 then needed else needed - 1
  {
  }

  lemma NestedDivision(n: nat, r: nat)
    requires r > 0
    ensures n * 1000 / r / 1000 == n / r
  {
    var q, m := n / r, n % r;
    assert n == q * r + m;
    var t := m * 1000 / r;
    assert m * 1000 == t * r + m * 1000 % r;
    SmallQuotient(m, r);
    assert n * 1000 == (1000 * q + t) * r + m * 1000 % r by {
      assert (1000 * q + t) * r == 1000 * (q * r) + t * r;
    }
    ModUnique(n * 1000, r, 1000 * q + t, m * 1000 % r);
  }

  lemma SmallQuotient(m: nat, r: nat)
    requires m < r
    ensures m * 1000 / r < 1000
  {
    var t := m * 1000 / r;
    assert m * 1000 == t * r + m * 1000 % r;
    if t >= 1000 {
      MulMono(1000, t, r);
    }
  }

  /** Multiples of the rate that are thousandfolds: unchanged by taking the remainder first. */
  lemma ThousandfoldRemainder(n: nat, r: nat)
    requires r > 0
    ensures n % r * 1000 % r == n * 1000 % r
  {
    var q, m := n / r, n % r;
    assert n == q * r + m;
    var t := m * 1000 / r;
    assert m * 1000 == t * r + m * 1000 % r;
    assert (1000 * q + t) * r == 1000 * (q * r) + t * r;
    ModUnique(n * 1000, r, 1000 * q + t, m * 1000 % r);
  }

  lemma DividesThousandfold(n: nat, r: nat)
    requires r > 0 && 1000 % r == 0
    ensures n * 1000 % r == 0
  {
    var c := 1000 / r;
    assert 1000 == c * r;
    assert n * 1000 == (n * c) * r by {
      assert n * (c * r) == (n * c) * r;
    }
    ModUnique(n * 1000, r, n * c, 0);
  }

  /** Two waits on time are enough when the rate divides a thousand times what is missing. */
  lemma EvenSlowRateEnds(needed: nat, rate: nat)
    requires 1 <= rate < 1000 && needed * 1000 % rate == 0
    ensures Next(Next(needed, rate, 0), rate, 0) == 0
  {
    if needed >= 1 {
      SlowNext(needed, rate);
      ThousandfoldRemainder(needed, rate);
      var left := Next(needed, rate, 0);
      if left >= 1 {
        SlowNext(left, rate);
        SmallQuotient(left, rate);
      }
    }
  }

  /** Otherwise something stays missing after every wait. */
  lemma UnevenSlowRateStays(needed: nat, rate: nat)
    requires 1 <= rate < 1000 && needed * 1000 % rate != 0
    ensures var left := Next(needed, rate, 0); left >= 1 && left * 1000 % rate != 0
  {
    SlowNext(needed, rate);
    NoThousandDivides(needed, rate);
    ThousandfoldRemainder(needed, rate);
    NonZeroFactor(needed % rate, rate);
  }

  lemma NoThousandDivides(n: nat, r: nat)
    requires r > 0 && n * 1000 % r != 0
    ensures 1 * 1000 % r != 0
  {
    if 1000 % r == 0 {
      DividesThousandfold(n, r);
    }
  }

  lemma NonZeroFactor(m: nat, r: nat)
    requires r > 0 && m * 1000 % r != 0
    ensures m >= 1
  {
    if m == 0 {
      ModUnique(0, r, 0, 0);
    }
  }

  lemma {:induction false} UnevenSlowRateNeverEnds(needed: nat, rate: nat, late: nat -> nat, k: nat)
    requires 1 <= rate < 1000 && needed * 1000 % rate != 0
    requires forall i: nat :: late(i) == 0
    ensures var left := Missing(needed, rate, late, k); left >= 1 && left * 1000 % rate != 0
  {
    if k > 0 {
      UnevenSlowRateNeverEnds(needed, rate, late, k - 1);
      UnevenSlowRateStays(Missing(needed, rate, late, k - 1), rate);
    }
  }

  /** A caller that always wakes up on time gets its tokens exactly if the rate is at least 1000
      micro-tokens a second or divides a thousand times what is missing.  Otherwise it waits for ever:
      the fraction of a micro-token that a refill drops is what it would have needed. */
  lemma WaitingEndsIff(needed: nat, rate: nat, late: nat -> nat)
    requires rate >= 1 && forall i: nat :: late(i) == 0
    ensures Ends(needed, rate, late) <==> rate >= 1000 || needed * 1000 % rate == 0
  {
    if rate >= 1000 {
      FastRateEnds(needed, rate, late);
    } else if needed * 1000 % rate == 0 {
      EvenSlowRateEnds(needed, rate);
      assert Missing(needed, rate, late, 1) == Next(needed, rate, 0);
      assert Missing(needed, rate, late, 2) == 0;
    } else if Ends(needed, rate, late) {
      var k: nat :| Missing(needed, rate, late, k) == 0;
      UnevenSlowRateNeverEnds(needed, rate, late, k);
    }
  }

  /** A bucket of 300 micro-tokens at 300 a second, asked for one token: 999700 are missing, then 100,
      then 1 for ever. */
  lemma SlowRateStarves(late: nat -> nat)
    requires forall i: nat :: late(i) == 0
    ensures Missing(999_700, 300, late, 1) == 100 && Missing(999_700, 300, late, 2) == 1
    ensures !Ends(999_700, 300, late)
  {
    assert Missing(999_700, 300, late, 1) == Next(999_700, 300, 0);
    WaitingEndsIff(999_700, 300, late);
  }

  /** The wait told is the whole milliseconds that what is missing takes to refill, at least one. */
  ghost predicate TakesTime(ms: nat, needed: nat, rate: nat) {
    rate > 0 && (rate * ms <= 1000 * needed < rate * (ms + 1) || (ms == 1 && 1000 * needed < rate))
  }

  lemma WaitTakesTime(needed: nat, rate: nat)
    requires rate > 0
    ensures TakesTime(WaitMs(needed, rate), needed, rate)
  {
    var wait := needed * 1000 / rate;
    assert needed * 1000 == wait * rate + needed * 1000 % rate;
    assert rate * wait == wait * rate && rate * (wait + 1) == wait * rate + rate;
  }

  // ---- how many waits ----

  /** What one wait on time at a fast rate leaves: at most what arrives in a millisecond and one more, after
      more than 1000 seconds at most what arrives in a second. */
  lemma FastNext(needed: nat, rate: nat)
    requires rate >= 1000
    ensures var left := Next(needed, rate, 0);
            if WaitMs(needed, rate) <= 1_000_000 then 1000 * left < rate + 1000 else left <= rate
  {
    var ms := WaitMs(needed, rate);
    WaitTakesTime(needed, rate);
    RefillIsClose(ms, rate);
    assert rate * (ms + 1) == ms * rate + rate;
  }

  /** A call at 1000 micro-tokens a second or more that wakes on time has its tokens after at most four waits,
      and after at most three if the first is no longer than 1000 seconds. */
  lemma FourWaitsAreEnough(needed: nat, rate: nat, late: nat -> nat)
    requires rate >= 1000 && forall i: nat :: late(i) == 0
    ensures Missing(needed, rate, late, 4) == 0
    ensures WaitMs(needed, rate) <= 1_000_000 ==> Missing(needed, rate, late, 3) == 0
  {
    var first := Next(needed, rate, 0);
    assert Missing(needed, rate, late, 1) == first;
    assert Missing(needed, rate, late, 2) == Next(first, rate, 0);
    FastNext(needed, rate);
    if WaitMs(needed, rate) <= 1_000_000 {
      TwoMoreWaits(first, rate);
      assert Missing(needed, rate, late, 3) == 0;
    } else {
      ShortWait(first, rate);
      FastNext(first, rate);
      TwoMoreWaits(Next(first, rate, 0), rate);
    }
  }

  lemma ShortWait(needed: nat, rate: nat)
    requires rate >= 1000 && needed <= rate
    ensures WaitMs(needed, rate) <= 1_000_000
  {
    WaitTakesTime(needed, rate);
    var ms := WaitMs(needed, rate);
    if ms > 1000 {
      MulMono(1001, ms, rate);
    }
  }

  /** The end of the waiting: a millisecond for what is left, and a second one for a last micro-token. */
  lemma TwoMoreWaits(needed: nat, rate: nat)
    requires rate >= 1000 && 1000 * needed < rate + 1000
    ensures Next(Next(needed, rate, 0), rate, 0) == 0
  {
    OneMillisecond(needed, rate);
    OneMillisecond(Next(needed, rate, 0), rate);
  }

  lemma OneMillisecond(needed: nat, rate: nat)
    requires rate >= 1000 && 1000 * needed < rate + 1000
    ensures Next(needed, rate, 0) == SaturatingSub(needed, rate / 1000) <= 1
  {
    WaitTakesTime(needed, rate);
    var ms := WaitMs(needed, rate);
    if ms >= 2 {
      MulMono(2, ms, rate);
    }
  }

  /** A single wait that ends on time credits nothing in exactly one case. */
  lemma WaitMakesProgressIff(needed: nat, rate: nat)
    requires needed >= 1 && rate >= 1
    ensures CalculateNewTokens(WaitMs(needed, rate), rate) == 0 <==> needed == 1 && rate < 1000 && 1000 % rate != 0
  {
    var wait := WaitMs(needed, rate);
    if rate >= 1000 {
      FastRateRefills(wait, rate);
    } else {
      DivAtLeast(needed * 1000, rate, 1);
      assert needed * 1000 == wait * rate + needed * 1000 % rate;
      if wait > 1_000_000 {
        MulMono(1, wait / 1000, rate);
      } else if needed >= 2 || 1000 % rate == 0 {
        DivAtLeast(wait * rate, 1000, 1);
      } else {
        assert wait * rate < 1000;
      }
    }
  }

  // ---- the account ----

  /** Crediting the time since the last refill keeps the account. */
  lemma AccountStep(consumed: nat, tokens: nat, initial: nat, rate: nat, last: nat, now: nat, updated: nat)
    requires last <= now
    requires 1000 * (consumed + tokens) <= 1000 * initial + rate * last
    requires updated <= tokens + CalculateNewTokens(now - last, rate)
    ensures 1000 * (consumed + updated) <= 1000 * initial + rate * now
  {
    RefillIsBounded(now - last, rate);
    assert rate * now == rate * last + (now - last) * rate;
  }

  // ---- the bucket ----

  class TokenBucket {
    var tokensMicro: u64
    var lastRefillMs: nat
    const refillRateMicro: u64
    ghost const Initial: nat
    ghost var Used: nat

    /** All that was ever consumed and what is left does not exceed the initial tokens and the refill of
        the time up to the last one. */
    ghost predicate Accounted()
      reads this
    {
      1000 * (Used + tokensMicro) <= 1000 * Initial + refillRateMicro * lastRefillMs
    }

    constructor (initTokensMicro: u64, refillRateMicro: u64)
      ensures Accounted() && tokensMicro == initTokensMicro == Initial && lastRefillMs == 0 && Used == 0
      ensures this.refillRateMicro == refillRateMicro
    {
      tokensMicro, lastRefillMs, this.refillRateMicro := initTokensMicro, 0, refillRateMicro;
      Initial, Used := initTokensMicro, 0;
    }

    method CompareExchangeWeak(current: u64, new_: u64, spurious: bool) returns (ok: bool)
      modifies this`tokensMicro
      ensures ok == (old(tokensMicro) == current && !spurious)
      ensures tokensMicro == if ok then new_ else old(tokensMicro)
    {
      ok := tokensMicro == current && !spurious;
      if ok {
        tokensMicro := new_;
      }
    }

    /** The balance if everything since the last refill were credited at this time. */
    ghost function Updated(nowMs: nat): nat
      reads this
    {
      SaturatingAdd(tokensMicro, CalculateNewTokens(SaturatingSub(nowMs, lastRefillMs), refillRateMicro))
    }

    /** Does a 64-bit product of this call overflow? */
    ghost predicate Overflows(amountMicro: u64, nowMs: nat)
      reads this
    {
      || !RefillFits(SaturatingSub(nowMs, lastRefillMs), refillRateMicro)
      || (Updated(nowMs) < amountMicro && refillRateMicro > 0 && (amountMicro - Updated(nowMs)) * 1000 > U64_MAX)
    }

    method TryConsumeAtomic(amountMicro: u64, nowMs: nat, spurious: nat -> bool) returns (outcome: Outcome)
      modifies this
      ensures outcome.Overflow? <==> old(Overflows(amountMicro, nowMs))
      ensures outcome.Consumed? <==>
                && !old(Overflows(amountMicro, nowMs)) && old(Updated(nowMs)) >= amountMicro
                && exists k | 0 <= k <= 10 :: !spurious(k)
      ensures outcome.Consumed? ==>
                tokensMicro == old(Updated(nowMs)) - amountMicro && lastRefillMs == nowMs
                    && Used == old(Used) + amountMicro
      ensures !outcome.Consumed? ==> Used == old(Used)
      // The caller is short of tokens.
      ensures outcome.Wait? && old(Updated(nowMs)) < amountMicro ==>
                && outcome.ms == WaitMs(amountMicro - old(Updated(nowMs)), refillRateMicro) && lastRefillMs == nowMs
                && tokensMicro == if spurious(0) then old(tokensMicro) else old(Updated(nowMs))
      ensures outcome.Wait? && old(Updated(nowMs)) < amountMicro ==>
                if refillRateMicro == 0 then outcome.ms == 1000
                else TakesTime(outcome.ms, amountMicro - old(Updated(nowMs)), refillRateMicro)
      // Eleven compare-and-swaps failed in a row.
      ensures outcome.Wait? && old(Updated(nowMs)) >= amountMicro ==>
                outcome.ms == 1 && tokensMicro == old(tokensMicro) && lastRefillMs == old(lastRefillMs)
      ensures old(Accounted()) && old(lastRefillMs) <= nowMs && !outcome.Overflow? ==> Accounted()
      // A clock that is behind: the account is kept exactly if it already held for that time.
      ensures nowMs < old(lastRefillMs) && lastRefillMs == nowMs && !outcome.Overflow? ==>
                (Accounted() <==> 1000 * (old(Used) + old(tokensMicro)) <= 1000 * Initial + refillRateMicro * nowMs)
    {
      var elapsedMs := SaturatingSub(nowMs, lastRefillMs);
      if !RefillFits(elapsedMs, refillRateMicro) {
        return Overflow;
      }
      var newTokensMicro := CalculateNewTokens(elapsedMs, refillRateMicro);
      if old(Accounted()) && lastRefillMs <= nowMs {
        AccountStep(Used, tokensMicro, Initial, refillRateMicro, lastRefillMs, nowMs, Updated(nowMs));
        AccountStep(Used, tokensMicro, Initial, refillRateMicro, lastRefillMs, nowMs, tokensMicro);
      }
      var retries := 0;
      while true
        invariant 0 <= retries <= 11 && forall k | 0 <= k < retries :: spurious(k)
        invariant retries > 0 ==> old(Updated(nowMs)) >= amountMicro
        invariant tokensMicro == old(tokensMicro) && lastRefillMs == old(lastRefillMs) && Used == old(Used)
        decreases 11 - retries
      {
        if retries > 10 {
          return Wait(1);
        }
        var currentTokens := tokensMicro;
        var updatedTokens := SaturatingAdd(currentTokens, newTokensMicro);
        if updatedTokens < amountMicro {
          var neededMicro := amountMicro - updatedTokens;
          if refillRateMicro > 0 && neededMicro * 1000 > U64_MAX {
            return Overflow;
          }
          var waitMs := WaitMs(neededMicro, refillRateMicro);
          if refillRateMicro > 0 {
            WaitTakesTime(neededMicro, refillRateMicro);
          }
          var _ := CompareExchangeWeak(currentTokens, updatedTokens, spurious(retries));
          lastRefillMs := nowMs;
          return Wait(waitMs);
        }
        var finalTokens := updatedTokens - amountMicro;
        var ok := CompareExchangeWeak(currentTokens, finalTokens, spurious(retries));
        if ok {
          lastRefillMs := nowMs;
          Used := Used + amountMicro;
          return Consumed;
        }
        retries := retries + 1;
      }
    }

    /** What is missing at this time. */
    ghost function Short(amountMicro: nat, nowMs: nat): nat
      reads this
    {
      SaturatingSub(amountMicro, Updated(nowMs))
    }

    /** One round of the loop in `Consume`, without spurious failures: an attempt and, if it falls short,
        the wait, at the end of which it is `next`. */
    method Round(amountMicro: u64, nowMs: nat, late: nat) returns (outcome: Outcome, next: nat)
      requires Accounted() && lastRefillMs <= nowMs && refillRateMicro > 0
      modifies this
      ensures outcome.Overflow? <==> old(Overflows(amountMicro, nowMs))
      ensures outcome.Consumed? ==>
                && old(Short(amountMicro, nowMs)) == 0
                && Accounted() && lastRefillMs == nowMs && Used == old(Used) + amountMicro
      ensures outcome.Wait? ==>
                && old(Short(amountMicro, nowMs)) > 0
                && Accounted() && lastRefillMs == nowMs < next && Used == old(Used)
                && Short(amountMicro, next) == Next(old(Short(amountMicro, nowMs)), refillRateMicro, late)
                && next - lastRefillMs == WaitMs(old(Short(amountMicro, nowMs)), refillRateMicro) + late
    {
      var never := (k: nat) => false;
      assert !never(0);
      outcome := TryConsumeAtomic(amountMicro, nowMs, never);
      next := nowMs;
      if outcome.Wait? {
        next := nowMs + outcome.ms + late;
      }
    }

    /** Where a call that began with this much missing stands after some waits. */
    ghost predicate Stands(amountMicro: nat, nowMs: nat, needed: nat, first: nat, late: nat -> nat, waits: nat)
      reads this
    {
      && Accounted() && lastRefillMs <= nowMs && refillRateMicro > 0
      && Short(amountMicro, nowMs) == Missing(needed, refillRateMicro, late, waits)
      && Elapsed(nowMs - lastRefillMs, first, needed, refillRateMicro, late, waits)
    }

    /** A round of the loop in terms of what is missing. */
    method NextRound(amountMicro: u64, nowMs: nat, late: nat -> nat, waits: nat, ghost needed: nat, ghost first: nat)
      returns (outcome: Outcome, next: nat)
      requires Stands(amountMicro, nowMs, needed, first, late, waits)
      modifies this
      ensures outcome.Overflow? ==> ProductOverflows(needed, first, refillRateMicro, late, waits)
      ensures outcome.Consumed? ==>
                && Missing(needed, refillRateMicro, late, waits) == 0
                && Accounted() && lastRefillMs == nowMs && Used == old(Used) + amountMicro
      ensures outcome.Wait? ==>
                && Missing(needed, refillRateMicro, late, waits) > 0
                && Stands(amountMicro, next, needed, first, late, waits + 1)
                && nowMs <= next && lastRefillMs == nowMs && Used == old(Used)
    {
      MissingShrinks(needed, refillRateMicro, late, waits);
      ghost var elapsed, left := nowMs - lastRefillMs, Short(amountMicro, nowMs);
      outcome, next := Round(amountMicro, nowMs, late(waits));
      if outcome.Overflow? && left * 1000 <= U64_MAX {
        assert !RefillFits(elapsed, refillRateMicro);
        if waits > 0 {
          assert WaitOverflows(needed, refillRateMicro, late, waits - 1);
        }
      }
    }

    /** The loop in `Consume`: it ends within the number of waits that is enough. */
    method WaitUntilThere(amountMicro: u64, nowMs: nat, late: nat -> nat, ghost needed: nat, ghost first: nat,
                          ghost enough: nat)
      returns (outcome: Outcome, end: nat, ghost done: nat)
      requires Stands(amountMicro, nowMs, needed, first, late, 0)
      requires Missing(needed, refillRateMicro, late, enough) == 0
      modifies this
      ensures !outcome.Wait?
      ensures outcome.Overflow? ==> ProductOverflows(needed, first, refillRateMicro, late, done)
      ensures outcome.Consumed? ==> Accounted() && lastRefillMs <= end && Used == old(Used) + amountMicro
    {
      end := nowMs;
      var waits := 0;
      while true
        invariant Stands(amountMicro, end, needed, first, late, waits) && Used == old(Used)
        invariant waits <= enough
        decreases enough - waits
      {
        var next;
        outcome, next := NextRound(amountMicro, end, late, waits, needed, first);
        if !outcome.Wait? {
          done := waits;
          return;
        }
        end := next;
        waits := waits + 1;
      }
    }

    /** Waits until the amount is there and takes it.  The clock starts at `nowMs`, and the i-th wait
        oversleeps by `late(i)` milliseconds.  At fast rates the loop ends whatever the delays; at slow
        rates with delays of zero it ends exactly under the condition required here. */
    method Consume(amount: nat, nowMs: nat, late: nat -> nat) returns (outcome: Outcome, end: nat)
      requires Accounted() && lastRefillMs <= nowMs
      requires 0 < refillRateMicro < 1000 ==>
                 && (forall i: nat :: late(i) == 0)
                 && Short(amount * MICRO_UNITS, nowMs) * 1000 % refillRateMicro == 0
      modifies this
      ensures !outcome.Wait?
      ensures outcome.Overflow? ==> exists n: nat :: old(Overflowing(amount, nowMs, late, n))
      ensures outcome.Consumed? ==>
                && Accounted() && lastRefillMs <= end
                && Used == old(Used) + (if refillRateMicro == 0 then 0 else amount * MICRO_UNITS)
    {
      end := nowMs;
      if refillRateMicro == 0 {
        return Consumed, end;
      }
      if amount * MICRO_UNITS > U64_MAX {
        assert Overflowing(amount, nowMs, late, 0);
        return Overflow, end;
      }
      var amountMicro := amount * MICRO_UNITS;
      ghost var needed, first := Short(amountMicro, nowMs), nowMs - lastRefillMs;
      if refillRateMicro >= 1000 {
        FastRateEnds(needed, refillRateMicro, late);
      } else {
        WaitingEndsIff(needed, refillRateMicro, late);
      }
      ghost var enough: nat :| Missing(needed, refillRateMicro, late, enough) == 0;
      ghost var waits;
      outcome, end, waits := WaitUntilThere(amountMicro, nowMs, late, needed, first, enough);
      assert outcome.Overflow? ==> old(Overflowing(amount, nowMs, late, waits));
    }

    /** A 64-bit product of this call does not fit, within its first n waits. */
    ghost predicate Overflowing(amount: nat, nowMs: nat, late: nat -> nat, n: nat)
      reads this
    {
      && refillRateMicro > 0
      && (|| amount * MICRO_UNITS > U64_MAX
          || ProductOverflows(Short(amount * MICRO_UNITS, nowMs), SaturatingSub(nowMs, lastRefillMs),
                              refillRateMicro, late, n))
    }

    /** Nothing is missing any more after n waits of this call. */
    ghost predicate Served(amount: nat, nowMs: nat, late: nat -> nat, n: nat)
      reads this
    {
      refillRateMicro == 0 || Missing(Short(amount * MICRO_UNITS, nowMs), refillRateMicro, late, n) == 0
    }

    /** At a fast rate a call that wakes on time is served within four waits. */
    lemma FastCallIsServed(amount: nat, nowMs: nat, late: nat -> nat)
      requires refillRateMicro >= 1000 && forall i: nat :: late(i) == 0
      ensures Served(amount, nowMs, late, 4)
    {
      FourWaitsAreEnough(Short(amount * MICRO_UNITS, nowMs), refillRateMicro, late);
    }

    /** At most `patience` waits of the loop. */
    method WaitAtMost(amountMicro: u64, nowMs: nat, late: nat -> nat, patience: nat, ghost needed: nat,
                      ghost first: nat)
      returns (outcome: Outcome, end: nat)
      requires Stands(amountMicro, nowMs, needed, first, late, 0)
      modifies this
      ensures outcome.Overflow? ==> ProductOverflows(needed, first, refillRateMicro, late, patience)
      ensures outcome.Consumed? ==>
                && Missing(needed, refillRateMicro, late, patience) == 0
                && Accounted() && lastRefillMs <= end && Used == old(Used) + amountMicro
      ensures outcome.Wait? ==>
                && Missing(needed, refillRateMicro, late, patience) > 0
                && Accounted() && lastRefillMs <= end && Used == old(Used)
    {
      end := nowMs;
      var waits := 0;
      while true
        invariant Stands(amountMicro, end, needed, first, late, waits) && Used == old(Used)
        invariant waits <= patience
        decreases patience - waits
      {
        var next;
        outcome, next := NextRound(amountMicro, end, late, waits, needed, first);
        if outcome.Consumed? {
          NothingStaysMissing(needed, refillRateMicro, late, waits, patience);
        }
        if !outcome.Wait? || waits == patience {
          return;
        }
        end := next;
        waits := waits + 1;
      }
    }

    /** The same call, given up after a number of waits: at any rate and with any delays it has its tokens
        by then exactly if nothing is missing after that many waits. */
    method ConsumeWithin(amount: nat, nowMs: nat, late: nat -> nat, patience: nat) returns (outcome: Outcome, end: nat)
      requires Accounted() && lastRefillMs <= nowMs
      modifies this
      ensures outcome.Overflow? ==> old(Overflowing(amount, nowMs, late, patience))
      ensures !outcome.Overflow? ==>
                && Accounted() && lastRefillMs <= end
                && (outcome.Consumed? <==> old(Served(amount, nowMs, late, patience)))
                && Used == old(Used) + (if outcome.Consumed? && refillRateMicro > 0 then amount * MICRO_UNITS else 0)
    {
      end := nowMs;
      if refillRateMicro == 0 {
        return Consumed, end;
      }
      if amount * MICRO_UNITS > U64_MAX {
        return Overflow, end;
      }
      var amountMicro := amount * MICRO_UNITS;
      ghost var needed, first := Short(amountMicro, nowMs), nowMs - lastRefillMs;
      outcome, end := WaitAtMost(amountMicro, nowMs, late, patience, needed, first);
    }
  }

  /** The starving call on a new bucket: however long it is followed, it is still waiting. */
  method SlowCallStarves(late: nat -> nat, patience: nat) returns (outcome: Outcome)
    requires forall i: nat :: late(i) == 0
    ensures outcome.Wait?
  {
    var bucket := new TokenBucket(300, 300);
    assert bucket.Short(MICRO_UNITS, 0) == 999_700;
    SlowRateStarves(late);
    forall k: nat
      ensures !WaitOverflows(999_700, 300, late, k)
    {
      MissingShrinks(999_700, 300, late, k);
    }
    var end;
    outcome, end := bucket.ConsumeWithin(1, 0, late, patience);
  }

  /** A clock that steps back does break the account: the same second is credited twice. */
  method BackwardClockCreditsTwice() returns (bucket: TokenBucket)
    ensures fresh(bucket) && !bucket.Accounted()
  {
    bucket := new TokenBucket(0, 1_000_000);
    var never := (k: nat) => false;
    assert !never(0);
    var a := bucket.TryConsumeAtomic(0, 1000, never);
    var b := bucket.TryConsumeAtomic(0, 0, never);
    var c := bucket.TryConsumeAtomic(0, 1000, never);
  }
}
