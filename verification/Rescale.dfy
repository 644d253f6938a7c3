/** Timestamp rescaling (`crates/ez-ffmpeg/src/util/ffmpeg_utils.rs`): 64-bit code against exact
    rational rounding. */
module Rescale {
  import opened Bits

  const I64_MAX: int := 0x7fff_ffff_ffff_ffff
  const I64_MIN: int := -0x8000_0000_0000_0000
  const INT_MAX: int := 0x7fff_ffff
  const PASS_MINMAX: nat := 8192
  const NOT_PASS_MINMAX: nat := U32 - 1 - PASS_MINMAX
  const U128_MAX: int := U64 * U64 - 1

  type i64 = x: int | I64_MIN <= x <= I64_MAX
  type i32 = x: int | -0x8000_0000 <= x <= 0x7fff_ffff

  /** A value, or an arithmetic overflow (a panic when overflow is checked). */
  datatype Outcome = Value(v: i64) | Overflow

  function Fits(x: int): Outcome {
    if I64_MIN <= x <= I64_MAX then Value(x) else Overflow
  }

  datatype Mode = Zero | Inf | Down | Up | NearInf

  predicate IsMode(rnd: nat) {
    rnd == 0 || rnd == 1 || rnd == 2 || rnd == 3 || rnd == 5
  }

  function ModeOf(rnd: nat): Mode
    requires IsMode(rnd)
  {
    if rnd == 0 then Zero else if rnd == 1 then Inf else if rnd == 2 then Down else if rnd == 3 then Up else NearInf
  }

  // ---- the exact specification ----

  /** p is a multiple of c next to n, on the side and at the distance that the mode allows. */
  predicate RoundedTo(mode: Mode, n: int, c: int, p: int) {
    match mode
    case Zero => if n >= 0 then p <= n < p + c else p - c < n <= p
    case Inf => if n >= 0 then p - c < n <= p else p <= n < p + c
    case Down => p <= n < p + c
    case Up => p - c < n <= p
    case NearInf => if n >= 0 then 2 * p - c <= 2 * n < 2 * p + c else 2 * p - c < 2 * n <= 2 * p + c
  }

  /** q is the rational n / c rounded as the mode says. */
  predicate IsRounded(mode: Mode, n: int, c: int, q: int)
    requires c > 0
  {
    RoundedTo(mode, n, c, q * c)
  }

  lemma CloserThanOne(q: int, q': int, c: int)
    requires c > 0 && -c < q * c - q' * c < c
    ensures q == q'
  {
    CloseMultiples(q, q', c);
    CloseMultiples(q', q, c);
  }

  lemma RoundingIsUnique(mode: Mode, n: int, c: int, q: int, q': int)
    requires c > 0 && IsRounded(mode, n, c, q) && IsRounded(mode, n, c, q')
    ensures q == q'
  {
    RoundedToIsClose(mode, n, c, q * c, q' * c);
    CloserThanOne(q, q', c);
  }

  lemma RoundedToIsClose(mode: Mode, n: int, c: int, p: int, p': int)
    requires c > 0 && RoundedTo(mode, n, c, p) && RoundedTo(mode, n, c, p')
    ensures -c < p - p' < c
  {
  }

  /** The offset that turns rounding of a non-negative quotient into truncation. */
  function Offset(mode: Mode, c: int): int
    requires c > 0
  {
    match mode
    case NearInf => c / 2
    case Inf | Up => c - 1
    case Zero | Down => 0
  }

  function Mirror(mode: Mode): Mode {
    match mode
    case Down => Up
    case Up => Down
    case _ => mode
  }

  lemma OffsetRounds(mode: Mode, n: int, c: int)
    requires c > 0 && n >= 0
    ensures IsRounded(mode, n, c, (n + Offset(mode, c)) / c)
  {
    var m := n + Offset(mode, c);
    var q := m / c;
    assert m == q * c + m % c;
  }

  lemma MirrorRounds(mode: Mode, n: int, c: int, q: int)
    requires c > 0 && n != 0
    ensures IsRounded(Mirror(mode), -n, c, -q) <==> IsRounded(mode, n, c, q)
  {
    assert (-q) * c == -(q * c);
  }

  lemma ZeroRounds(mode: Mode, c: int)
    requires c > 0
    ensures IsRounded(mode, 0, c, 0)
  {
  }

  lemma RoundingExists(mode: Mode, n: int, c: int)
    requires c > 0
    ensures exists q :: IsRounded(mode, n, c, q)
  {
    if n >= 0 {
      OffsetRounds(mode, n, c);
    } else {
      var q := (-n + Offset(Mirror(mode), c)) / c;
      OffsetRounds(Mirror(mode), -n, c);
      MirrorRounds(mode, n, c, -q);
      assert IsRounded(mode, n, c, -q);
    }
  }

  /** The one integer that n / c rounds to. */
  ghost function Exact(mode: Mode, n: int, c: int): (q: int)
    requires c > 0
    ensures IsRounded(mode, n, c, q)
  {
    RoundingExists(mode, n, c);
    var q :| IsRounded(mode, n, c, q);
    q
  }

  /** Larger numerators round to larger or equal results. */
  lemma ExactIsMonotone(mode: Mode, n: int, n': int, c: int)
    requires c > 0 && n <= n'
    ensures Exact(mode, n, c) <= Exact(mode, n', c)
  {
    RoundedIsMonotone(mode, n, n', c, Exact(mode, n, c), Exact(mode, n', c));
  }

  lemma RoundedIsMonotone(mode: Mode, n: int, n': int, c: int, q: int, q': int)
    requires c > 0 && n <= n' && IsRounded(mode, n, c, q) && IsRounded(mode, n', c, q')
    ensures q <= q'
  {
    RoundedSign(mode, n, c, q);
    RoundedSign(mode, n', c, q');
    MultipleSign(q, c);
    MultipleSign(q', c);
    RoundedToIsMonotone(mode, n, n', c, q * c, q' * c);
    CloseMultiples(q, q', c);
  }

  lemma RoundedToIsMonotone(mode: Mode, n: int, n': int, c: int, p: int, p': int)
    requires c > 0 && n <= n' && RoundedTo(mode, n, c, p) && RoundedTo(mode, n', c, p')
    requires n <= 0 ==> p <= 0
    requires n' >= 0 ==> p' >= 0
    ensures p - p' < c
  {
  }

  lemma MultipleSign(q: int, c: int)
    requires c > 0
    ensures q <= 0 ==> q * c <= 0
    ensures q >= 0 ==> q * c >= 0
  {
  }

  lemma CloseMultiples(q: int, q': int, c: int)
    requires c > 0 && q * c - q' * c < c
    ensures q <= q'
  {
    assert (q - q') * c == q * c - q' * c;
    if q - q' >= 1 {
      MulAtLeast(q - q', c);
    }
  }

  lemma RoundedSign(mode: Mode, n: int, c: int, q: int)
    requires c > 0 && IsRounded(mode, n, c, q)
    ensures n >= 0 ==> q >= 0
    ensures n <= 0 ==> q <= 0
  {
    if n >= 0 && q <= -1 {
      assert (-q) * c == -(q * c);
      MulAtLeast(-q, c);
    }
    if n <= 0 && q >= 1 {
      MulAtLeast(q, c);
    }
  }

  // ---- the code ----

  predicate ValidMode(rnd: u32) {
    And(rnd, NOT_PASS_MINMAX) <= 5 && And(rnd, NOT_PASS_MINMAX) != 4
  }

  function OffsetFor(rnd: nat, c: i64): int
    requires c > 0
  {
    if rnd == 5 then c / 2 else if And(rnd, 1) != 0 then c - 1 else 0
  }

  /** 128-bit form for large factors. */
  function RescaleLarge(a: i64, b: i64, c: i64, r: int): Outcome
    requires a >= 0 && b >= 0 && c > 0 && r >= 0
  {
    if a * b + r > U128_MAX then Overflow
    else
      var result := (a * b + r) / c;
      if result > I64_MAX then Value(I64_MIN) else Fits(result)
  }

  /** Every 64-bit intermediate result is checked. */
  function RescaleNonNegative(a: i64, b: i64, c: i64, rnd: nat): Outcome
    requires a >= 0 && b >= 0 && c > 0
  {
    var r := OffsetFor(rnd, c);
    if b <= INT_MAX && c <= INT_MAX then
      if a <= INT_MAX then
        if Fits(a * b).Overflow? || Fits(a * b + r).Overflow? then Overflow else Fits((a * b + r) / c)
      else
        var ad := a / c;
        if Fits(a % c * b).Overflow? || Fits(a % c * b + r).Overflow? then Overflow
        else
          var a2 := (a % c * b + r) / c;
          if ad >= INT_MAX && b != 0 && ad > (I64_MAX - a2) / b then Value(I64_MIN)
          else if Fits(ad * b).Overflow? then Overflow else Fits(ad * b + a2)
    else RescaleLarge(a, b, c, r)
  }

  /** The mode without the pass-through flag. */
  function BaseMode(rnd: u32): nat {
    if And(rnd, PASS_MINMAX) != 0 then
      FlagSplit(rnd);
      rnd - PASS_MINMAX
    else rnd
  }

  lemma FlagSplit(rnd: u32)
    ensures And(rnd, PASS_MINMAX) == 0 || And(rnd, PASS_MINMAX) == PASS_MINMAX
    ensures And(rnd, PASS_MINMAX) + And(rnd, NOT_PASS_MINMAX) == rnd
  {
    WordSizes();
    assert Pow2(13) == PASS_MINMAX by {
      assert Pow2(6) == 64 && Pow2(7) == 128;
      Pow2Add(6, 7);
    }
    AndBit(rnd, 13);
    AndSplit(rnd, PASS_MINMAX, 32);
  }

  function RescaleRnd(a: i64, b: i64, c: i64, rnd: u32): Outcome
    decreases a < 0
  {
    if c <= 0 || b < 0 || !ValidMode(rnd) then Value(I64_MIN)
    else if And(rnd, PASS_MINMAX) != 0 && (a == I64_MIN || a == I64_MAX) then Value(a)
    else
      FlagSplit(rnd);
      var base := BaseMode(rnd);
      if a < 0 then
        var negA := if a >= -I64_MAX then -a else I64_MAX;
        var negated := RescaleRnd(negA, b, c, Mirrored(base));
        if negated.Overflow? then Overflow else Fits(-(negated.v as int))
      else RescaleNonNegative(a, b, c, base)
  }

  function Mirrored(rnd: nat): u32
    requires rnd <= 5
  {
    MirroredValues();
    Xor(rnd, And(Shr(rnd, 1), 1))
  }

  lemma MirroredValues()
    ensures forall rnd: nat | rnd <= 5 ::
              Xor(rnd, And(Shr(rnd, 1), 1)) == (if rnd == 2 then 3 else if rnd == 3 then 2 else rnd)
  {
    forall rnd: nat | rnd <= 5
      ensures Xor(rnd, And(Shr(rnd, 1), 1)) == (if rnd == 2 then 3 else if rnd == 3 then 2 else rnd)
    {
      if rnd == 0 { assert And(Shr(0, 1), 1) == 0; }
      if rnd == 1 { assert Shr(1, 1) == 0; }
      if rnd == 2 { assert Shr(2, 1) == 1; assert And(1, 1) == 1; assert Xor(2, 1) == 3; }
      if rnd == 3 { assert Shr(3, 1) == 1; assert And(1, 1) == 1; assert Xor(3, 1) == 2; }
      if rnd == 4 { assert Shr(4, 1) == 2; assert And(2, 1) == 0; }
      if rnd == 5 { assert Shr(5, 1) == 2; assert And(2, 1) == 0; }
    }
  }

  datatype Rational = Rational(num: i32, den: i32)

  function RescaleQRnd(a: i64, bq: Rational, cq: Rational, rnd: u32): Outcome {
    var b, c := Fits(bq.num * cq.den), Fits(cq.num * bq.den);
    if b.Overflow? || c.Overflow? then Overflow else RescaleRnd(a, b.v, c.v, rnd)
  }

  // ---- exactness ----

  lemma ProductBound(x: int, y: int, X: int, Y: int)
    requires 0 <= x <= X && 0 <= y <= Y
    ensures 0 <= x * y <= X * Y
  {
    MulMono(x, X, y);
    MulMono(y, Y, X);
    assert y * X == X * y && Y * X == X * Y;
  }

  lemma OffsetMatches(rnd: nat, c: i64)
    requires c > 0 && IsMode(rnd)
    ensures OffsetFor(rnd, c) == Offset(ModeOf(rnd), c)
    ensures 0 <= OffsetFor(rnd, c) < c
  {
    assert And(0, 1) == 0 && And(1, 1) == 1 && And(2, 1) == 0;
    assert And(3, 1) == 1 by { AndStep(3, 1); }
  }

  /** The split division of the second path. */
  lemma SplitDivision(a: int, b: int, c: int, r: int)
    requires a >= 0 && b >= 0 && c > 0 && r >= 0
    ensures (a * b + r) / c == (a / c) * b + (a % c * b + r) / c
  {
    var ad, am := a / c, a % c;
    var a2 := (am * b + r) / c;
    var rest := (am * b + r) % c;
    calc {
      a * b + r;
      { assert a == ad * c + am; }
      (ad * c + am) * b + r;
      (ad * c) * b + (am * b + r);
      (ad * c) * b + (a2 * c + rest);
      { assert (ad * c) * b == (ad * b) * c; }
      (ad * b) * c + a2 * c + rest;
      (ad * b + a2) * c + rest;
    }
    ModUnique(a * b + r, c, ad * b + a2, rest);
  }

  lemma QuotientBound(m: int, c: int, q: int)
    requires c > 0 && 0 <= m < (q + 1) * c
    ensures 0 <= m / c <= q
  {
    if m / c >= q + 1 {
      MulMono(q + 1, m / c, c);
    }
  }

  lemma SmallFactors(a: i64, b: i64, c: i64, r: int)
    requires 0 <= a <= INT_MAX && 0 <= b <= INT_MAX && 0 < c <= INT_MAX && 0 <= r < c
    ensures 0 <= a * b && a * b + r <= I64_MAX && 0 <= (a * b + r) / c <= I64_MAX
  {
    ProductBound(a, b, INT_MAX, INT_MAX);
    DivShrinks(a * b + r, c);
  }

  lemma DivShrinks(m: int, c: int)
    requires m >= 0 && c > 0
    ensures 0 <= m / c <= m
  {
    assert m == (m / c) * c + m % c;
    FactorBelow(m, m / c, c, m % c);
  }

  lemma FactorBelow(m: int, q: int, c: int, r: int)
    requires m == q * c + r && m >= 0 && 0 <= r < c
    ensures 0 <= q <= m
  {
    assert (-q) * c == -(q * c);
    if q <= -1 {
      MulAtLeast(-q, c);
    } else {
      MulMono(1, c, q);
      assert c * q == q * c;
    }
  }

  /** The second path: the remainder term fits, and the guard is exact. */
  lemma LargeDividend(a: i64, b: i64, c: i64, r: int)
    requires 0 <= a && 0 <= b <= INT_MAX && 0 < c <= INT_MAX && 0 <= r < c
    ensures 0 <= a % c * b && a % c * b + r <= I64_MAX
    ensures var ad, a2 := a / c, (a % c * b + r) / c;
            && 0 <= ad <= I64_MAX && 0 <= a2 <= b
            && (ad >= INT_MAX && b != 0 && ad > (I64_MAX - a2) / b ==> ad * b + a2 > I64_MAX)
            && (!(ad >= INT_MAX && b != 0 && ad > (I64_MAX - a2) / b) ==> 0 <= ad * b && ad * b + a2 <= I64_MAX)
  {
    var ad, am, a2 := a / c, a % c, (a % c * b + r) / c;
    ProductBound(am, b, INT_MAX, INT_MAX);
    DivShrinks(a, c);
    assert (b + 1) * c == b * c + c;
    MulMono(am, c, b);
    assert c * b == b * c;
    QuotientBound(am * b + r, c, b);
    Guard(ad, b, a2);
  }

  lemma Guard(ad: int, b: int, a2: int)
    requires 0 <= ad && 0 <= a2 <= b <= INT_MAX
    ensures ad >= INT_MAX && b != 0 && ad > (I64_MAX - a2) / b ==> ad * b + a2 > I64_MAX
    ensures !(ad >= INT_MAX && b != 0 && ad > (I64_MAX - a2) / b) ==> 0 <= ad * b && ad * b + a2 <= I64_MAX
  {
    if b == 0 {
      assert ad * b == 0;
    } else {
      var m := I64_MAX - a2;
      var q := m / b;
      assert m == q * b + m % b;
      if ad > q {
        MulMono(q + 1, ad, b);
        assert (q + 1) * b == q * b + b;
      } else {
        MulMono(ad, q, b);
      }
      if ad < INT_MAX {
        ProductBound(ad, b, INT_MAX, INT_MAX);
      }
      ProductBound(0, b, ad, b);
      MulMono(0, ad, b);
    }
  }

  /** All three paths divide the same number, and none of their 64-bit intermediates overflows. */
  lemma PathsAgree(a: i64, b: i64, c: i64, rnd: nat, q: nat)
    requires a >= 0 && b >= 0 && c > 0 && IsMode(rnd) && q == (a * b + OffsetFor(rnd, c)) / c
    ensures RescaleNonNegative(a, b, c, rnd) == if q <= I64_MAX then Value(q) else Value(I64_MIN)
  {
    var r := OffsetFor(rnd, c);
    OffsetMatches(rnd, c);
    if b <= INT_MAX && c <= INT_MAX {
      if a <= INT_MAX {
        SmallFactors(a, b, c, r);
      } else {
        LargeDividend(a, b, c, r);
        SplitDivision(a, b, c, r);
      }
    } else {
      ProductBound(a, b, I64_MAX, I64_MAX);
      DivShrinks(a * b + r, c);
    }
  }

  lemma NonNegativeIsExact(a: i64, b: i64, c: i64, rnd: nat)
    requires a >= 0 && b >= 0 && c > 0 && IsMode(rnd)
    ensures var q := Exact(ModeOf(rnd), a * b, c);
            RescaleNonNegative(a, b, c, rnd) == if q <= I64_MAX then Value(q) else Value(I64_MIN)
  {
    var r, mode := OffsetFor(rnd, c), ModeOf(rnd);
    OffsetMatches(rnd, c);
    ProductBound(a, b, I64_MAX, I64_MAX);
    DivShrinks(a * b + r, c);
    PathsAgree(a, b, c, rnd, (a * b + r) / c);
    OffsetRounds(mode, a * b, c);
    RoundingIsUnique(mode, a * b, c, Exact(mode, a * b, c), (a * b + r) / c);
  }

  /** The complete behaviour for valid arguments.  The result is the exact rational rounded as the mode
      says whenever that is a representable magnitude; the least integer stands in for its neighbour;
      too large a result is signalled by the least integer for a non-negative argument and overflows
      the final negation for a negative one. */
  lemma RescaleIsExact(a: i64, b: i64, c: i64, rnd: u32)
    requires c > 0 && b >= 0 && ValidMode(rnd)
    ensures IsMode(BaseMode(rnd))
    ensures var clamped := if a == I64_MIN then -I64_MAX else a;
            var q := Exact(ModeOf(BaseMode(rnd)), clamped * b, c);
            RescaleRnd(a, b, c, rnd)
            == if And(rnd, PASS_MINMAX) != 0 && (a == I64_MIN || a == I64_MAX) then Value(a)
               else if -I64_MAX <= q <= I64_MAX then Value(q)
               else if a >= 0 then Value(I64_MIN)
               else Overflow
  {
    FlagSplit(rnd);
    var base := BaseMode(rnd);
    assert base == And(rnd, NOT_PASS_MINMAX);
    if a >= 0 {
      NonNegativeIsExact(a, b, c, base);
      RoundedSign(ModeOf(base), a * b, c, Exact(ModeOf(base), a * b, c));
      ProductBound(a, b, I64_MAX, I64_MAX);
    } else {
      NegativeIsExact(a, b, c, base);
    }
  }

  /** Every other call gives the least integer: a denominator that is not positive, a negative numerator, or a
      mode that is none of the five, with the pass-through flag 8192 or without. */
  lemma InvalidIsLeast(a: i64, b: i64, c: i64, rnd: u32)
    requires c <= 0 || b < 0 || rnd !in {0, 1, 2, 3, 5, 8192, 8193, 8194, 8195, 8197}
    ensures RescaleRnd(a, b, c, rnd) == Value(I64_MIN)
  {
    ValidModes(rnd);
  }

  /** The valid modes, and how flag and rounding mode are read from them. */
  lemma ValidModes(rnd: u32)
    ensures ValidMode(rnd) <==> rnd in {0, 1, 2, 3, 5, 8192, 8193, 8194, 8195, 8197}
    ensures ValidMode(rnd) ==> (And(rnd, PASS_MINMAX) != 0 <==> rnd >= 8192) && BaseMode(rnd) == rnd % 8192
  {
    FlagSplit(rnd);
    assert Pow2(13) == PASS_MINMAX by {
      assert Pow2(6) == 64 && Pow2(7) == 128;
      Pow2Add(6, 7);
    }
    AndBitIs(rnd, 13);
    FlagAndRest(rnd, And(rnd, PASS_MINMAX), And(rnd, NOT_PASS_MINMAX));
  }

  lemma FlagAndRest(rnd: nat, flag: nat, rest: nat)
    requires flag == rnd / 8192 % 2 * 8192 && flag + rest == rnd
    ensures rest <= 5 && rest != 4 <==> rnd in {0, 1, 2, 3, 5, 8192, 8193, 8194, 8195, 8197}
    ensures rest <= 5 ==> (flag != 0 <==> rnd >= 8192) && rest == rnd % 8192
  {
  }

  lemma {:induction false} AndBitIs(x: nat, k: nat)
    ensures And(x, Pow2(k)) == x / Pow2(k) % 2 * Pow2(k)
  {
    AndStep(x, Pow2(k));
    if k > 0 {
      AndBitIs(x / 2, k - 1);
      BitOfHalf(x, Pow2(k - 1));
    } else {
      assert x / 1 == x;
    }
  }

  lemma BitOfHalf(x: nat, p: nat)
    requires p >= 1
    ensures 2 * (x / 2 / p % 2 * p) == x / (2 * p) % 2 * (2 * p)
  {
    HalveDiv(x, p);
  }

  lemma MirroredIsPlain(rnd: nat)
    requires IsMode(rnd)
    ensures Mirrored(rnd) == (if rnd == 2 then 3 else if rnd == 3 then 2 else rnd)
    ensures IsMode(Mirrored(rnd)) && ModeOf(Mirrored(rnd)) == Mirror(ModeOf(rnd))
    ensures ValidMode(Mirrored(rnd)) && And(Mirrored(rnd), PASS_MINMAX) == 0 && BaseMode(Mirrored(rnd)) == Mirrored(rnd)
  {
    MirroredValues();
    var m := Mirrored(rnd);
    FlagSplit(m);
  }

  lemma NegativeIsExact(a: i64, b: i64, c: i64, rnd: nat)
    requires a < 0 && c > 0 && b >= 0 && IsMode(rnd)
    ensures var negA := if a >= -I64_MAX then -a else I64_MAX;
            var q := Exact(ModeOf(rnd), -negA * b, c);
            var negated := RescaleRnd(negA, b, c, Mirrored(rnd));
            && negated.Value?
            && Fits(-(negated.v as int)) == (if -I64_MAX <= q then Value(q) else Overflow)
            && q <= I64_MAX
  {
    var negA := if a >= -I64_MAX then -a else I64_MAX;
    var mode := ModeOf(rnd);
    var n := negA * b;
    MirroredIsPlain(rnd);
    NonNegativeIsExact(negA, b, c, Mirrored(rnd));
    var p := Exact(Mirror(mode), n, c);
    assert -negA * b == -n;
    ProductBound(negA, b, I64_MAX, I64_MAX);
    RoundedSign(Mirror(mode), n, c, p);
    if n == 0 {
      ZeroRounds(mode, c);
      ZeroRounds(Mirror(mode), c);
      RoundingIsUnique(mode, 0, c, 0, Exact(mode, -n, c));
      RoundingIsUnique(Mirror(mode), 0, c, 0, p);
    } else {
      MirrorRounds(Mirror(mode), n, c, p);
      assert Mirror(Mirror(mode)) == mode;
      RoundingIsUnique(mode, -n, c, -p, Exact(mode, -n, c));
    }
  }

  // ---- laws of the code ----

  /** The exact result has a magnitude that 64 bits hold: nothing is signalled. */
  ghost predicate Representable(a: i64, b: i64, c: i64, rnd: nat)
    requires c > 0 && IsMode(rnd)
  {
    a != I64_MIN && -I64_MAX <= Exact(ModeOf(rnd), a * b, c) <= I64_MAX
  }

  lemma PlainMode(rnd: nat)
    requires IsMode(rnd)
    ensures ValidMode(rnd) && And(rnd, PASS_MINMAX) == 0 && BaseMode(rnd) == rnd
  {
    FlagSplit(rnd);
    AndBelowBit(rnd);
  }

  lemma AndBelowBit(rnd: nat)
    requires rnd <= 5
    ensures And(rnd, PASS_MINMAX) == 0
  {
    FlagSplit(rnd);
  }

  /** Later timestamps never map to earlier ones. */
  lemma RescaleIsMonotone(a: i64, a': i64, b: i64, c: i64, rnd: nat)
    requires c > 0 && b >= 0 && IsMode(rnd) && a <= a'
    requires Representable(a, b, c, rnd) && Representable(a', b, c, rnd)
    ensures RescaleRnd(a, b, c, rnd).Value? && RescaleRnd(a', b, c, rnd).Value?
    ensures RescaleRnd(a, b, c, rnd).v <= RescaleRnd(a', b, c, rnd).v
  {
    PlainMode(rnd);
    RescaleIsExact(a, b, c, rnd);
    RescaleIsExact(a', b, c, rnd);
    MulMono(a, a', b);
    ExactIsMonotone(ModeOf(rnd), a * b, a' * b, c);
  }

  /** Rounding to nearest onto a finer time base and back restores the value, for both signs. */
  lemma NearestInverts(a: i64, b: i64, c: i64)
    requires 0 < c <= b && Representable(a, b, c, 5)
    ensures var r := RescaleRnd(a, b, c, 5);
            r.Value? && RescaleRnd(r.v, c, b, 5) == Value(a)
  {
    PlainMode(5);
    RescaleIsExact(a, b, c, 5);
    var q := Exact(NearInf, a * b, c);
    BackToNearest(a, b, c, q);
    RoundingIsUnique(NearInf, q * c, b, a, Exact(NearInf, q * c, b));
    RescaleIsExact(q, c, b, 5);
  }

  lemma BackToNearest(a: int, b: int, c: int, q: int)
    requires 0 < c <= b && IsRounded(NearInf, a * b, c, q)
    ensures IsRounded(NearInf, q * c, b, a)
  {
    SignOfProduct(a, b);
    RoundedSign(NearInf, a * b, c, q);
    SignOfProduct(q, c);
    if c == b {
      CloserThanOne(q, a, b);
    }
    if a == 0 {
      ZeroRounds(NearInf, c);
      RoundingIsUnique(NearInf, 0, c, q, 0);
    }
  }

  lemma SignOfProduct(a: int, b: int)
    requires b > 0
    ensures a >= 1 ==> a * b >= b
    ensures a <= -1 ==> a * b <= -b
    ensures a == 0 ==> a * b == 0
  {
    if a >= 1 {
      MulAtLeast(a, b);
    } else if a <= -1 {
      assert (-a) * b == -(a * b);
      MulAtLeast(-a, b);
    }
  }

  /** The final negation overflows for -2 times the largest value. */
  lemma NegationOverflows()
    ensures RescaleRnd(-2, I64_MAX, 1, 0) == Overflow
  {
    assert IsMode(0) && And(0, PASS_MINMAX) == 0 && And(0, NOT_PASS_MINMAX) == 0;
    RescaleIsExact(-2, I64_MAX, 1, 0);
    var q := Exact(ModeOf(BaseMode(0)), -2 * I64_MAX, 1);
    assert IsRounded(ModeOf(BaseMode(0)), -2 * I64_MAX, 1, q);
  }

  /** The least integer is taken for its neighbour: even the identity changes it. */
  lemma LeastIsClamped(b: i64, c: i64, rnd: nat)
    requires IsMode(rnd)
    ensures RescaleRnd(I64_MIN, b, c, rnd) == RescaleRnd(-I64_MAX, b, c, rnd)
    ensures RescaleRnd(I64_MIN, 1, 1, rnd) == Value(-I64_MAX)
  {
    PlainMode(rnd);
    RescaleIsExact(I64_MIN, 1, 1, rnd);
    assert IsRounded(ModeOf(rnd), -I64_MAX, 1, -I64_MAX);
    RoundingIsUnique(ModeOf(rnd), -I64_MAX, 1, -I64_MAX, Exact(ModeOf(rnd), -I64_MAX * 1, 1));
  }

  /** Between time bases the factors never overflow, so the rational form is the plain one. */
  lemma RationalFactorsFit(a: i64, bq: Rational, cq: Rational, rnd: u32)
    ensures I64_MIN <= bq.num * cq.den <= I64_MAX && I64_MIN <= cq.num * bq.den <= I64_MAX
    ensures RescaleQRnd(a, bq, cq, rnd) == RescaleRnd(a, bq.num * cq.den, cq.num * bq.den, rnd)
  {
    I32Product(bq.num, cq.den);
    I32Product(cq.num, bq.den);
  }

  lemma I32Product(x: int, y: int)
    requires -0x8000_0000 <= x <= 0x8000_0000 && -0x8000_0000 <= y <= 0x8000_0000
    ensures -0x4000_0000_0000_0000 <= x * y <= 0x4000_0000_0000_0000
  {
    var X, Y := if x >= 0 then x else -x, if y >= 0 then y else -y;
    ProductBound(X, Y, 0x8000_0000, 0x8000_0000);
    assert x * y == X * Y || x * y == -(X * Y);
  }
}
