/** The power-of-two ring buffer behind the FLV reader (`crates/ez-ffmpeg/src/flv/flv_buffer.rs`):
    it refines the byte queue of `FlvStream`. */
module FlvRing {
  import opened Bits

  /** Allocations above this size fail in the original; capacities stay powers of two below it. */
  const MAX_EXPONENT: nat := 62
  const MAX_CAPACITY: nat := 0x4000_0000_0000_0000

  ghost predicate IsCapacity(n: nat) {
    exists k: nat :: k <= MAX_EXPONENT && n == Pow2(k)
  }

  // ---- index arithmetic ----

  /** The queue held by a ring: from head up to tail, wrapping round. */
  ghost function RingContents(buffer: seq<u8>, head: nat, tail: nat): seq<u8>
    requires head < |buffer| && tail < |buffer|
  {
    if head <= tail then buffer[head..tail] else buffer[head..] + buffer[..tail]
  }

  function WrappingSub(a: u64, b: u64): u64 {
    (a + U64 - b) % U64
  }

  function MaskedLen(head: u64, tail: u64, capacity: nat): nat
    requires capacity > 0
  {
    And(WrappingSub(tail, head), capacity - 1)
  }

  function MaskedSpace(head: u64, tail: u64, capacity: nat): nat
    requires capacity > 0
  {
    And(WrappingSub(WrappingSub(head, tail), 1), capacity - 1)
  }

  lemma MaxCapacity()
    ensures Pow2(MAX_EXPONENT) == MAX_CAPACITY
  {
    WordSizes();
    Pow2Add(62, 2);
    assert Pow2(2) == 4;
  }

  lemma CapacityBelow64(n: nat)
    requires IsCapacity(n)
    ensures n < U64 && U64 % n == 0
  {
    WordSizes();
    var k: nat :| k <= MAX_EXPONENT && n == Pow2(k);
    Pow2Add(64 - k, k);
    Pow2Grows(64 - k);
    ModUnique(U64, n, Pow2(64 - k), 0);
    MulAtLeast(Pow2(64 - k) - 1, n);
    assert Pow2(64 - k) * n == (Pow2(64 - k) - 1) * n + n;
  }

  lemma Pow2Grows(k: nat)
    requires k >= 1
    ensures Pow2(k) >= 2
  {
  }

  lemma WrappedDifference(a: u64, b: u64)
    ensures WrappingSub(a, b) == if a >= b then a - b else a - b + U64
  {
    if a >= b {
      ModUnique(a + U64 - b, U64, 1, a - b);
    } else {
      ModUnique(a + U64 - b, U64, 0, a + U64 - b);
    }
  }

  /** Masking a wrapped difference smaller than the capacity reduces it modulo the capacity. */
  lemma MaskWrapped(d: int, n: nat)
    requires IsCapacity(n) && -(n as int) <= d < n && n < U64
    ensures And(if d >= 0 then d else d + U64, n - 1) == if d >= 0 then d else d + n
  {
    var k: nat :| k <= MAX_EXPONENT && n == Pow2(k);
    if d >= 0 {
      AndMask(d, k);
      ModUnique(d, n, 0, d);
    } else {
      CapacityBelow64(n);
      AndMask(d + U64, k);
      NegativeMod(d, n);
    }
  }

  lemma NegativeMod(d: int, n: nat)
    requires n > 0 && U64 % n == 0 && -(n as int) <= d < 0
    ensures (d + U64) % n == d + n
  {
    var q := U64 / n;
    assert U64 == q * n == (q - 1) * n + n;
    ModUnique(d + U64, n, q - 1, d + n);
  }

  /** The masked forms are the modular ones: the length of the queue and what is left beside the one
      cell that stays free. */
  lemma MaskedFormsAgree(buffer: seq<u8>, head: nat, tail: nat)
    requires IsCapacity(|buffer|) && head < |buffer| && tail < |buffer|
    ensures |buffer| < U64
    ensures MaskedLen(head, tail, |buffer|) == |RingContents(buffer, head, tail)|
    ensures MaskedSpace(head, tail, |buffer|) == |buffer| - 1 - |RingContents(buffer, head, tail)|
  {
    var n := |buffer|;
    CapacityBelow64(n);
    WrappedDifference(tail, head);
    MaskWrapped(tail - head, n);
    WrappedDifference(head, tail);
    WrappedDifference(WrappingSub(head, tail), 1);
    MaskWrapped(head - tail - 1, n);
  }

  /** The smallest power of two that is at least n. */
  function NextPow2(n: nat): (p: nat)
    ensures p >= n
    ensures exists k: nat :: p == Pow2(k)
    ensures n >= 2 ==> p < 2 * n
    ensures n <= 1 ==> p == 1
  {
    NextPow2From(n, 0)
  }

  function NextPow2From(n: nat, k: nat): (p: nat)
    requires k == 0 || Pow2(k - 1) < n
    ensures p >= n && exists j: nat :: p == Pow2(j)
    ensures p == Pow2(k) || p < 2 * n
    decreases n - Pow2(k)
  {
    if Pow2(k) >= n then Pow2(k) else NextPow2From(n, k + 1)
  }

  /** A requested capacity that is a power of two is kept. */
  lemma NextPow2OfPow2(k: nat)
    ensures NextPow2(Pow2(k)) == Pow2(k)
  {
    var p := NextPow2(Pow2(k));
    var j: nat :| p == Pow2(j);
    if j > k {
      Pow2Mono(k + 1, j);
    } else {
      Pow2Mono(j, k);
    }
  }

  // ---- reading across the end of the buffer ----

  ghost function RingRead(b: seq<u8>, p: nat, n: nat): (r: seq<u8>)
    requires p < |b| && n <= |b|
    ensures |r| == n
  {
    if p + n <= |b| then b[p..p + n] else b[p..] + b[..p + n - |b|]
  }

  function Advance(p: nat, n: nat, capacity: nat): nat
    requires p < capacity && n <= capacity
  {
    if p + n < capacity then p + n else p + n - capacity
  }

  lemma AdvanceIsMod(p: nat, n: nat, capacity: nat)
    requires p < capacity && n <= capacity
    ensures Advance(p, n, capacity) == (p + n) % capacity
  {
    if p + n < capacity {
      ModUnique(p + n, capacity, 0, p + n);
    } else {
      ModUnique(p + n, capacity, 1, p + n - capacity);
    }
  }

  /** Reading inside the queue gives the bytes of the queue. */
  lemma ReadInQueue(b: seq<u8>, head: nat, tail: nat, off: nat, n: nat)
    requires head < |b| && tail < |b| && off + n <= |RingContents(b, head, tail)|
    ensures RingRead(b, Advance(head, off, |b|), n) == RingContents(b, head, tail)[off..off + n]
  {
    var c := RingContents(b, head, tail);
    var p := Advance(head, off, |b|);
    var r := RingRead(b, p, n);
    forall i | 0 <= i < n
      ensures r[i] == c[off + i]
    {
      assert c[off + i] == if head + off + i < |b| then b[head + off + i] else b[head + off + i - |b|];
    }
  }

  /** Moving the head forward inside the queue drops its first bytes. */
  lemma DropFront(b: seq<u8>, head: nat, tail: nat, n: nat)
    requires head < |b| && tail < |b| && n <= |RingContents(b, head, tail)|
    ensures RingContents(b, Advance(head, n, |b|), tail) == RingContents(b, head, tail)[n..]
  {
  }

  /** Writing into the free cells behind the tail appends to the queue. */
  lemma AppendBack(b: seq<u8>, b': seq<u8>, head: nat, tail: nat, data: seq<u8>)
    requires head < |b| == |b'| && tail < |b|
    requires |RingContents(b, head, tail)| + |data| < |b|
    requires forall i | 0 <= i < |data| :: b'[Advance(tail, i, |b|)] == data[i]
    requires forall i | 0 <= i < |RingContents(b, head, tail)| :: b'[Advance(head, i, |b|)] == b[Advance(head, i, |b|)]
    ensures RingContents(b', head, Advance(tail, |data|, |b|)) == RingContents(b, head, tail) + data
  {
    var c := RingContents(b, head, tail);
    var c' := RingContents(b', head, Advance(tail, |data|, |b|));
    assert |c'| == |c| + |data|;
    forall i | 0 <= i < |c'|
      ensures c'[i] == (c + data)[i]
    {
      assert c'[i] == b'[Advance(head, i, |b|)];
      if i < |c| {
        assert c[i] == b[Advance(head, i, |b|)];
      } else {
        assert Advance(head, i, |b|) == Advance(tail, i - |c|, |b|);
      }
    }
  }

  /** A long read gives the same bytes as the short reads it consists of. */
  lemma ReadInParts(b: seq<u8>, p: nat, n: nat, i: nat, m: nat)
    requires p < |b| && n <= |b| && i + m <= n
    ensures RingRead(b, p, n)[i..i + m] == RingRead(b, Advance(p, i, |b|), m)
    ensures Advance(Advance(p, i, |b|), m, |b|) == Advance(p, i + m, |b|)
  {
    var from := Advance(p, i, |b|);
    forall k | 0 <= k < m
      ensures RingRead(b, p, n)[i + k] == RingRead(b, from, m)[k]
    {
      RingReadAt(b, p, n, i + k);
      RingReadAt(b, from, m, k);
    }
  }

  lemma RingReadAt(b: seq<u8>, p: nat, n: nat, k: nat)
    requires p < |b| && k < n <= |b|
    ensures RingRead(b, p, n)[k] == b[Advance(p, k, |b|)]
  {
  }

  /** Moving the head forward past the tail turns the free cells into contents. */
  lemma HeadRunsPast(b: seq<u8>, head: nat, tail: nat, n: nat)
    requires head < |b| && tail < |b| && |RingContents(b, head, tail)| < n < |b|
    ensures |RingContents(b, Advance(head, n, |b|), tail)| == |RingContents(b, head, tail)| + |b| - n
  {
  }

  /** Moving the head on drops bytes from the queue exactly when there are enough of them. */
  lemma HeadMoved(b: seq<u8>, head: nat, tail: nat, n: nat)
    requires head < |b| && tail < |b| && 0 < n < |b|
    ensures var c, c' := RingContents(b, head, tail), RingContents(b, Advance(head, n, |b|), tail);
            && (n <= |c| ==> c' == c[n..])
            && (n > |c| ==> |c'| == |c| + |b| - n)
            && (|c'| <= |c| <==> n <= |c|)
  {
    if n <= |RingContents(b, head, tail)| {
      DropFront(b, head, tail, n);
    } else {
      HeadRunsPast(b, head, tail, n);
    }
  }

  lemma ContentsAtFront(b: seq<u8>, n: nat)
    requires n < |b|
    ensures RingContents(b, 0, n) == b[..n]
  {
  }

  lemma CapacityAbove9(n: nat)
    requires IsCapacity(n) && n > 9
    ensures n >= 16
  {
    var k: nat :| k <= MAX_EXPONENT && n == Pow2(k);
    assert Pow2(3) == 8 && Pow2(4) == 16;
    if k <= 3 {
      Pow2Mono(k, 3);
    } else {
      Pow2Mono(4, k);
    }
  }
}
