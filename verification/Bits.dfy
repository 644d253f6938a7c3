/** Unsigned bit operations on natural numbers.

    The word-sized code modelled here uses `&`, `^` and `>>` on unsigned integers and then
    compares the results as numbers.  Defining the operations bit by bit on `nat` keeps both
    readings in one theory; a caller states the word size with `% Pow2(w)`. */
module Bits {

  const U16: nat := 0x1_0000
  const U32: nat := 0x1_0000_0000
  const U64: nat := 0x1_0000_0000_0000_0000

  type u8 = x: nat | x < 256
  type u16 = x: nat | x < U16
  type u32 = x: nat | x < U32
  type u64 = x: nat | x < U64

  function Pow2(k: nat): (p: nat)
    ensures p >= 1
  {
    if k == 0 then 1 else 2 * Pow2(k - 1)
  }

  /** Bitwise conjunction. */
  function And(a: nat, b: nat): nat {
    if a == 0 || b == 0 then 0
    else (if a % 2 == 1 && b % 2 == 1 then 1 else 0) + 2 * And(a / 2, b / 2)
  }

  /** Bitwise exclusive or. */
  function Xor(a: nat, b: nat): nat {
    if a == 0 then b
    else if b == 0 then a
    else (if a % 2 != b % 2 then 1 else 0) + 2 * Xor(a / 2, b / 2)
  }

  /** Logical shift to the right. */
  function Shr(a: nat, k: nat): nat {
    if k == 0 then a else Shr(a / 2, k - 1)
  }

  lemma {:induction false} ShrIsDivision(a: nat, k: nat)
    ensures Shr(a, k) == a / Pow2(k)
  {
    if k == 0 {
      assert a / 1 == a;
    } else {
      ShrIsDivision(a / 2, k - 1);
      HalveDiv(a, Pow2(k - 1));
    }
  }

  /** Masking with 2^k - 1 is reduction modulo 2^k. */
  lemma {:induction false} AndMask(a: nat, k: nat)
    ensures And(a, Pow2(k) - 1) == a % Pow2(k)
  {
    if k == 0 {
    } else {
      var p := Pow2(k - 1);
      AndMask(a / 2, k - 1);
      assert Pow2(k) == 2 * p;
      assert (2 * p - 1) % 2 == 1 && (2 * p - 1) / 2 == p - 1;
      ModStep(a, p);
      if a == 0 {
        assert a % Pow2(k) == 0;
      }
    }
  }

  lemma ModStep(a: nat, p: nat)
    requires p >= 1
    ensures a % (2 * p) == a % 2 + 2 * ((a / 2) % p)
  {
    var q := (a / 2) / p;
    var r := (a / 2) % p;
    assert a == 2 * (a / 2) + a % 2;
    assert a / 2 == q * p + r;
    assert a == q * (2 * p) + (2 * r + a % 2);
    ModUnique(a, 2 * p, q, 2 * r + a % 2);
  }

  lemma MulAtLeast(d: int, m: int)
    requires d >= 1 && m >= 0
    ensures d * m >= m
  {
    assert d * m == (d - 1) * m + m;
  }

  lemma MulMono(a: int, b: int, m: nat)
    requires a <= b
    ensures a * m <= b * m
  {
    assert b * m == a * m + (b - a) * m;
  }

  /** Division with remainder is unique. */
  lemma ModUnique(a: int, m: int, q: int, r: int)
    requires m > 0 && 0 <= r < m && a == q * m + r
    ensures a / m == q && a % m == r
  {
    var q', r' := a / m, a % m;
    var d := q - q';
    assert d * m == q * m - q' * m == r' - r;
    if d >= 1 {
      MulAtLeast(d, m);
    } else if d <= -1 {
      MulAtLeast(-d, m);
    }
  }

  lemma HalveDiv(a: nat, p: nat)
    requires p >= 1
    ensures a / (2 * p) == (a / 2) / p
  {
    var q := (a / 2) / p;
    var r := (a / 2) % p;
    assert a == q * (2 * p) + (2 * r + a % 2);
    ModUnique(a, 2 * p, q, 2 * r + a % 2);
  }

  /** One step of the recursion, valid for every pair of arguments. */
  lemma XorStep(a: nat, b: nat)
    ensures Xor(a, b) == (if a % 2 != b % 2 then 1 else 0) + 2 * Xor(a / 2, b / 2)
    ensures Xor(a, b) / 2 == Xor(a / 2, b / 2)
    ensures Xor(a, b) % 2 == (if a % 2 != b % 2 then 1 else 0)
  {
  }

  lemma {:induction false} XorSelf(a: nat)
    ensures Xor(a, a) == 0
  {
    if a > 0 {
      XorSelf(a / 2);
    }
  }

  lemma {:induction false} XorComm(a: nat, b: nat)
    ensures Xor(a, b) == Xor(b, a)
  {
    if a > 0 && b > 0 {
      XorComm(a / 2, b / 2);
    }
  }

  lemma {:induction false} XorAssoc(a: nat, b: nat, c: nat)
    ensures Xor(Xor(a, b), c) == Xor(a, Xor(b, c))
  {
    if a > 0 && b > 0 && c > 0 {
      XorAssoc(a / 2, b / 2, c / 2);
      XorStep(a, b);
      XorStep(b, c);
      XorStep(Xor(a, b), c);
      XorStep(a, Xor(b, c));
    }
  }

  /** Applying the same mask twice restores the value. */
  lemma XorCancel(a: nat, b: nat)
    ensures Xor(Xor(a, b), b) == a
  {
    XorAssoc(a, b, b);
    XorSelf(b);
  }

  lemma XorZeroIffEqual(a: nat, b: nat)
    ensures Xor(a, b) == 0 <==> a == b
  {
    XorSelf(a);
    if Xor(a, b) == 0 {
      XorCancel(a, b);
    }
  }

  /** Exchanging the last two operands. */
  lemma XorSwap(a: nat, b: nat, c: nat)
    ensures Xor(Xor(a, b), c) == Xor(Xor(a, c), b)
  {
    XorAssoc(a, b, c);
    XorComm(b, c);
    XorAssoc(a, c, b);
  }

  /** Exclusive or commutes with shifting right. */
  lemma {:induction false} XorShr(a: nat, b: nat, k: nat)
    ensures Shr(Xor(a, b), k) == Xor(Shr(a, k), Shr(b, k))
  {
    if k > 0 {
      XorStep(a, b);
      XorShr(a / 2, b / 2, k - 1);
    }
  }

  /** Exclusive or commutes with keeping the low bits. */
  lemma {:induction false} XorLowBits(a: nat, b: nat, k: nat)
    ensures Xor(a, b) % Pow2(k) == Xor(a % Pow2(k), b % Pow2(k))
  {
    if k == 0 {
      assert a % 1 == 0 && b % 1 == 0 && Xor(a, b) % 1 == 0;
    } else {
      var p := Pow2(k - 1);
      XorLowBits(a / 2, b / 2, k - 1);
      XorStep(a, b);
      ModStep(a, p);
      ModStep(b, p);
      ModStep(Xor(a, b), p);
      XorDoubled(a % 2, (a / 2) % p, b % 2, (b / 2) % p);
    }
  }

  lemma XorDoubled(i: nat, x: nat, j: nat, y: nat)
    requires i < 2 && j < 2
    ensures Xor(i + 2 * x, j + 2 * y) == (if i != j then 1 else 0) + 2 * Xor(x, y)
  {
    XorStep(i + 2 * x, j + 2 * y);
  }

  /** A mask and its complement split a number in two. */
  lemma {:induction false} AndSplit(x: nat, m: nat, k: nat)
    requires x < Pow2(k) && m < Pow2(k)
    ensures And(x, m) + And(x, Pow2(k) - 1 - m) == x
  {
    if k > 0 {
      var p := Pow2(k - 1);
      var m' := 2 * p - 1 - m;
      assert m' / 2 == p - 1 - m / 2 && m' % 2 == 1 - m % 2;
      AndSplit(x / 2, m / 2, k - 1);
      AndStep(x, m);
      AndStep(x, m');
    }
  }

  lemma AndStep(a: nat, b: nat)
    ensures And(a, b) == (if a % 2 == 1 && b % 2 == 1 then 1 else 0) + 2 * And(a / 2, b / 2)
  {
  }

  /** Masking with a single bit. */
  lemma {:induction false} AndBit(x: nat, k: nat)
    ensures And(x, Pow2(k)) == 0 || And(x, Pow2(k)) == Pow2(k)
  {
    AndStep(x, Pow2(k));
    if k > 0 {
      AndBit(x / 2, k - 1);
    }
  }

  /** Flipping bits below position k leaves the aligned block of size 2^k, the quotient, unchanged. */
  lemma XorKeepsBlock(a: nat, x: nat, k: nat)
    requires x < Pow2(k)
    ensures Xor(a, x) / Pow2(k) == a / Pow2(k)
  {
    XorShr(a, x, k);
    ShrIsDivision(Xor(a, x), k);
    ShrIsDivision(a, k);
    ShrIsDivision(x, k);
    ModUnique(x, Pow2(k), 0, x);
  }

  lemma XorBound(a: nat, b: nat, k: nat)
    requires a < Pow2(k) && b < Pow2(k)
    ensures Xor(a, b) < Pow2(k)
  {
    XorKeepsBlock(a, b, k);
    ModUnique(a, Pow2(k), 0, a);
  }

  lemma {:induction false} Pow2Add(j: nat, k: nat)
    ensures Pow2(j + k) == Pow2(j) * Pow2(k)
  {
    if j > 0 {
      Pow2Add(j - 1, k);
      assert Pow2(j + k) == 2 * Pow2(j - 1 + k);
    }
  }

  lemma WordSizes()
    ensures Pow2(16) == U16 && Pow2(32) == U32 && Pow2(64) == U64
  {
    assert Pow2(8) == 256;
    Pow2Add(8, 8);
    Pow2Add(16, 16);
    Pow2Add(32, 32);
  }

  lemma {:induction false} Pow2Mono(j: nat, k: nat)
    requires j <= k
    ensures Pow2(j) <= Pow2(k)
  {
    if j < k {
      Pow2Mono(j, k - 1);
    }
  }
}
