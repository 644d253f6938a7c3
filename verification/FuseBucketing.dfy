/** First phase of a construction attempt: hashes are spread over `reverseOrder` by bucket,
    probing to the next bucket when a cursor stands on an occupied cell. */
module FuseBucketing {
  import opened Bits
  import opened Finite
  import opened FuseHash

  /** The cells written so far are exactly the runs that the cursors have passed. */
  ghost predicate Runs(start: seq<nat>, first: seq<nat>, written: set<nat>, size: nat) {
    && |start| == |first| > 0
    && first[0] == 0
    && (forall j | 0 <= j < |start| :: first[j] <= start[j] <= size)
    && (forall j, p: nat | 0 <= j < |start| && first[j] <= p < start[j] :: p in written)
    && (forall p | p in written :: p < size && InSomeRun(start, first, p))
  }

  ghost predicate InSomeRun(start: seq<nat>, first: seq<nat>, p: nat)
    requires |start| == |first|
  {
    exists j :: 0 <= j < |start| && first[j] <= p < start[j]
  }

  /** While a cell is free, the first unwritten cell has a cursor on it. */
  lemma OpenCursor(start: seq<nat>, first: seq<nat>, written: set<nat>, size: nat) returns (j: nat)
    requires Runs(start, first, written, size)
    requires |written| < size
    ensures j < |start| && start[j] < size && start[j] !in written
  {
    var z: nat := 0;
    while z in written
      invariant forall p: nat | p < z :: p in written
      invariant z <= size
      decreases size - z
    {
      z := z + 1;
    }
    if z == size {
      SubsetCard(Below(size), written);
    }
    if z == 0 {
      j := 0;
    } else {
      assert InSomeRun(start, first, z - 1);
      j :| 0 <= j < |start| && first[j] <= z - 1 < start[j];
    }
  }

  lemma Advance(start: seq<nat>, first: seq<nat>, written: set<nat>, size: nat, j: nat)
    requires Runs(start, first, written, size)
    requires j < |start| && start[j] < size
    ensures Runs(start[j := start[j] + 1], first, written + {start[j]}, size)
  {
    var start' := start[j := start[j] + 1];
    forall p | p in written + {start[j]}
      ensures p < size && InSomeRun(start', first, p)
    {
      if p == start[j] {
        assert first[j] <= p < start'[j];
      } else {
        assert InSomeRun(start, first, p);
        var i :| 0 <= i < |start| && first[i] <= p < start[i];
        assert first[i] <= p < start'[i];
      }
    }
  }

  /** Steps from cursor `i` round to cursor `t` among `n`. */
  ghost function Distance(i: nat, t: nat, n: nat): nat
    requires i < n && t < n
  {
    if i <= t then t - i else t + n - i
  }

  function HashesOf(keys: seq<u64>, seed: u64): (hs: seq<u64>)
    ensures |hs| == |keys|
  {
    seq(|keys|, i requires 0 <= i < |keys| => Mix(keys[i], seed))
  }

  ghost function Zeros(n: nat): multiset<u64> {
    multiset{}[0 := n]
  }

  lemma FirstCursor(i: nat, size: nat, blockBits: nat)
    requires i < Pow2(blockBits)
    ensures Shr(i * size, blockBits) <= size
    ensures i == 0 ==> Shr(i * size, blockBits) == 0
  {
    var n := Pow2(blockBits);
    ShrIsDivision(i * size, blockBits);
    MulMono(i, n, size);
    assert i * size <= size * n;
    assert (size + 1) * n == size * n + n;
    DivBelow(i * size, size + 1, n);
  }

  lemma FirstSegment(hash: u64, blockBits: nat)
    requires blockBits <= 64
    ensures Shr(hash, 64 - blockBits) == hash / Pow2(64 - blockBits) < Pow2(blockBits)
  {
    WordSizes();
    Pow2Add(blockBits, 64 - blockBits);
    ShrIsDivision(hash, 64 - blockBits);
    DivBelow(hash, Pow2(blockBits), Pow2(64 - blockBits));
  }

  lemma DivBelow(a: nat, n: nat, m: nat)
    requires m > 0 && a < n * m
    ensures a / m < n
  {
    if a / m >= n {
      MulMono(n, a / m, m);
    }
  }

  ghost predicate EvenlySpread(start: seq<nat>, size: nat, blockBits: nat) {
    forall j | 0 <= j < |start| :: start[j] == j * size / Pow2(blockBits)
  }

  /** Spreads the bucket cursors evenly over the cells. */
  method SetCursors(size: nat, blockBits: nat, startPos: array<nat>)
    requires startPos.Length == Pow2(blockBits)
    modifies startPos
    ensures Runs(startPos[..], startPos[..], {}, size)
    ensures EvenlySpread(startPos[..], size, blockBits)
  {
    for i := 0 to startPos.Length
      invariant forall j | 0 <= j < i :: startPos[j] <= size && startPos[j] == j * size / Pow2(blockBits)
      invariant i > 0 ==> startPos[0] == 0
    {
      FirstCursor(i, size, blockBits);
      ShrIsDivision(i * size, blockBits);
      startPos[i] := Shr(i * size, blockBits);
    }
  }

  /** Every cursor that is met before this one stands on an occupied cell. */
  ghost predicate FirstFree(top: nat, found: nat, start: seq<nat>, cells: seq<u64>)
    requires top < |start| && found < |start|
    requires forall j | 0 <= j < |start| :: start[j] < |cells|
  {
    forall j | 0 <= j < |start| && Distance(top, j, |start|) < Distance(top, found, |start|) :: cells[start[j]] != 0
  }

  /** From the bucket that the top bits of the hash select, the first one whose cursor is on a free cell. */
  method Probe(hash: u64, blockBits: nat, startPos: array<nat>, reverseOrder: array<u64>, ghost target: nat)
    returns (segmentIndex: nat)
    requires 1 <= blockBits <= 64
    requires startPos.Length == Pow2(blockBits)
    requires forall j | 0 <= j < startPos.Length :: startPos[j] < reverseOrder.Length
    requires target < startPos.Length && reverseOrder[startPos[target]] == 0
    ensures segmentIndex < startPos.Length
    ensures reverseOrder[startPos[segmentIndex]] == 0
    ensures hash / Pow2(64 - blockBits) < startPos.Length
    ensures FirstFree(hash / Pow2(64 - blockBits), segmentIndex, startPos[..], reverseOrder[..])
  {
    segmentIndex := FirstIndex(hash, blockBits);
    ghost var top, start, cells := segmentIndex, startPos[..], reverseOrder[..];
    while reverseOrder[startPos[segmentIndex]] != 0
      invariant segmentIndex < startPos.Length
      invariant FirstFree(top, segmentIndex, start, cells)
      decreases Distance(segmentIndex, target, startPos.Length)
    {
      assert cells[start[segmentIndex]] != 0;
      var next := NextIndex(segmentIndex, blockBits);
      NextSegment(segmentIndex, target, next, startPos.Length);
      StillFirst(top, segmentIndex, next, start, cells);
      segmentIndex := next;
    }
  }

  /** The bucket that the top bits of a hash select. */
  method FirstIndex(hash: u64, blockBits: nat) returns (i: nat)
    requires 1 <= blockBits <= 64
    ensures i == hash / Pow2(64 - blockBits) < Pow2(blockBits)
  {
    FirstSegment(hash, blockBits);
    i := Shr(hash, 64 - blockBits);
  }

  /** The next bucket round. */
  method NextIndex(i: nat, blockBits: nat) returns (next: nat)
    requires i < Pow2(blockBits)
    ensures next == if i + 1 == Pow2(blockBits) then 0 else i + 1
  {
    AndMask(i + 1, blockBits);
    ModSmall(i + 1, Pow2(blockBits));
    next := And(i + 1, Pow2(blockBits) - 1);
  }

  lemma StillFirst(top: nat, i: nat, next: nat, start: seq<nat>, cells: seq<u64>)
    requires top < |start| && i < |start| && next == if i + 1 == |start| then 0 else i + 1
    requires forall j | 0 <= j < |start| :: start[j] < |cells|
    requires FirstFree(top, i, start, cells) && cells[start[i]] != 0
    ensures FirstFree(top, next, start, cells)
  {
    NextDistance(top, i, next, |start|);
  }

  /** What storing a hash needs of `Probe`. */
  method FreeSegment(hash: u64, blockBits: nat, startPos: array<nat>, reverseOrder: array<u64>, ghost target: nat)
    returns (segmentIndex: nat)
    requires 1 <= blockBits <= 64
    requires startPos.Length == Pow2(blockBits)
    requires forall j | 0 <= j < startPos.Length :: startPos[j] < reverseOrder.Length
    requires target < startPos.Length && reverseOrder[startPos[target]] == 0
    ensures segmentIndex < startPos.Length && reverseOrder[startPos[segmentIndex]] == 0
  {
    segmentIndex := Probe(hash, blockBits, startPos, reverseOrder, target);
  }

  /** Stores one hash in a free cell and moves the cursor that found it. */
  method Insert(hash: u64, size: nat, blockBits: nat, startPos: array<nat>, reverseOrder: array<u64>,
                ghost first: seq<nat>, ghost written: set<nat>)
    returns (ghost cursor: nat)
    requires 1 <= blockBits <= 64
    requires startPos.Length == Pow2(blockBits) && reverseOrder.Length == size + 1
    requires startPos as object != reverseOrder as object
    requires reverseOrder[size] != 0
    requires Runs(startPos[..], first, written, size) && |written| < size
    requires forall p | 0 <= p < size && reverseOrder[p] != 0 :: p in written
    modifies startPos, reverseOrder
    ensures cursor < size && old(reverseOrder[cursor]) == 0
    ensures reverseOrder[..] == old(reverseOrder[..])[cursor := hash]
    ensures Runs(startPos[..], first, written + {cursor}, size)
  {
    ghost var start := startPos[..];
    ghost var target := OpenCursor(start, first, written, size);
    var segmentIndex := FreeSegment(hash, blockBits, startPos, reverseOrder, target);
    var position := startPos[segmentIndex];
    cursor := position;
    reverseOrder[position] := hash;
    startPos[segmentIndex] := position + 1;
    assert startPos[..] == start[segmentIndex := start[segmentIndex] + 1];
    Advance(start, first, written, size, segmentIndex);
  }

  /** What holds after n hashes. */
  ghost predicate Stored(start: seq<nat>, cells: seq<u64>, first: seq<nat>, written: set<nat>, size: nat,
                         hashes: seq<u64>, n: nat) {
    && |cells| == size + 1 && cells[size] == 1
    && Runs(start, first, written, size) && |written| <= n
    && (forall p | 0 <= p < size && cells[p] != 0 :: p in written)
    && Placed(cells[..size], hashes, n)
  }

  lemma StoredOne(start: seq<nat>, start': seq<nat>, cells: seq<u64>, first: seq<nat>, written: set<nat>, size: nat,
                  hashes: seq<u64>, n: nat, cursor: nat)
    requires Stored(start, cells, first, written, size, hashes, n)
    requires n < size == |hashes| && cursor < size && cells[cursor] == 0
    requires Runs(start', first, written + {cursor}, size)
    ensures Stored(start', cells[cursor := hashes[n]], first, written + {cursor}, size, hashes, n + 1)
  {
    PlaceOne(cells[..size], cursor, hashes, n);
    assert cells[cursor := hashes[n]][..size] == cells[..size][cursor := hashes[n]];
  }

  /** Stores hash n beside those before it. */
  method StoreOne(keys: seq<u64>, n: nat, seed: u64, blockBits: nat, startPos: array<nat>, reverseOrder: array<u64>,
                  ghost first: seq<nat>, ghost written: set<nat>, ghost hashes: seq<u64>)
    returns (ghost written': set<nat>, ghost start': seq<nat>, ghost cells': seq<u64>)
    requires 1 <= blockBits <= 64
    requires startPos.Length == Pow2(blockBits) && reverseOrder.Length == |keys| + 1
    requires startPos as object != reverseOrder as object
    requires n < |keys| && hashes == HashesOf(keys, seed)
    requires Stored(startPos[..], reverseOrder[..], first, written, |keys|, hashes, n)
    modifies startPos, reverseOrder
    ensures startPos[..] == start' && reverseOrder[..] == cells'
    ensures Stored(start', cells', first, written', |keys|, hashes, n + 1)
  {
    var size, hash := |keys|, Mix(keys[n], seed);
    ghost var start, cells := startPos[..], reverseOrder[..];
    ghost var cursor := Insert(hash, size, blockBits, startPos, reverseOrder, first, written);
    written' := written + {cursor};
    start', cells' := startPos[..], reverseOrder[..];
    StoredOne(start, start', cells, first, written, size, hashes, n, cursor);
  }

  /** After this phase the first `|keys|` cells hold the hashes of the keys, each as often as it
      occurs; the probing always ends, and a key whose hash is zero does not disturb it. */
  method Bucket(keys: seq<u64>, seed: u64, blockBits: nat, startPos: array<nat>, reverseOrder: array<u64>)
    requires 1 <= blockBits <= 64
    requires startPos.Length == Pow2(blockBits)
    requires reverseOrder.Length == |keys| + 1
    requires startPos as object != reverseOrder as object
    requires forall i | 0 <= i < |keys| :: reverseOrder[i] == 0
    requires reverseOrder[|keys|] == 1
    modifies startPos, reverseOrder
    ensures reverseOrder[|keys|] == 1
    ensures multiset(reverseOrder[..|keys|]) == multiset(HashesOf(keys, seed))
  {
    var size := |keys|;
    SetCursors(size, blockBits, startPos);
    PlaceNone(reverseOrder[..size], HashesOf(keys, seed));
    StoreAll(keys, seed, blockBits, startPos, reverseOrder, HashesOf(keys, seed));
    PlaceAll(reverseOrder[..size], HashesOf(keys, seed));
  }

  method StoreAll(keys: seq<u64>, seed: u64, blockBits: nat, startPos: array<nat>, reverseOrder: array<u64>,
                  ghost hashes: seq<u64>)
    requires 1 <= blockBits <= 64
    requires startPos.Length == Pow2(blockBits)
    requires reverseOrder.Length == |keys| + 1
    requires startPos as object != reverseOrder as object
    requires hashes == HashesOf(keys, seed)
    requires Stored(startPos[..], reverseOrder[..], startPos[..], {}, |keys|, hashes, 0)
    modifies startPos, reverseOrder
    ensures reverseOrder[|keys|] == 1 && Placed(reverseOrder[..|keys|], hashes, |keys|)
  {
    ghost var first, written, start, cells := startPos[..], {}, startPos[..], reverseOrder[..];
    for n := 0 to |keys|
      invariant startPos[..] == start && reverseOrder[..] == cells
      invariant Stored(start, cells, first, written, |keys|, hashes, n)
    {
      written, start, cells := StoreOne(keys, n, seed, blockBits, startPos, reverseOrder, first, written, hashes);
    }
  }

  lemma NextSegment(i: nat, t: nat, next: nat, n: nat)
    requires i < n && t < n && i != t && next == if i + 1 == n then 0 else i + 1
    ensures Distance(next, t, n) < Distance(i, t, n)
  {
  }

  /** One step on, one cursor more has been met, or the search is back where it began. */
  lemma NextDistance(top: nat, i: nat, next: nat, n: nat)
    requires top < n && i < n && next == if i + 1 == n then 0 else i + 1
    ensures Distance(top, next, n) <= Distance(top, i, n) + 1
    ensures forall j: nat | j < n && Distance(top, j, n) <= Distance(top, i, n) ::
              j == i || Distance(top, j, n) < Distance(top, i, n)
  {
  }

  lemma ModSmall(a: nat, n: nat)
    requires 0 < a <= n
    ensures a % n == if a == n then 0 else a
  {
    if a == n {
      ModUnique(a, n, 1, 0);
    } else {
      ModUnique(a, n, 0, a);
    }
  }

  lemma {:induction false} AllZero(s: seq<u64>)
    requires forall i | 0 <= i < |s| :: s[i] == 0
    ensures multiset(s) == Zeros(|s|)
  {
    if s != [] {
      AllZero(s[..|s| - 1]);
      assert s == s[..|s| - 1] + [0];
    }
  }

  /** The cells hold the first n hashes and, for the rest, zeros. */
  ghost predicate Placed(cells: seq<u64>, hashes: seq<u64>, n: nat) {
    && n <= |hashes| == |cells|
    && multiset(cells) == multiset(hashes[..n]) + Zeros(|cells| - n)
  }

  lemma PlaceNone(cells: seq<u64>, hashes: seq<u64>)
    requires |cells| == |hashes| && forall i | 0 <= i < |cells| :: cells[i] == 0
    ensures Placed(cells, hashes, 0)
  {
    AllZero(cells);
  }

  lemma PlaceOne(cells: seq<u64>, cursor: nat, hashes: seq<u64>, n: nat)
    requires Placed(cells, hashes, n)
    requires n < |hashes| && cursor < |cells| && cells[cursor] == 0
    ensures Placed(cells[cursor := hashes[n]], hashes, n + 1)
  {
    assert hashes[..n + 1] == hashes[..n] + [hashes[n]];
    assert multiset(cells[cursor := hashes[n]]) == multiset(cells) - multiset{0} + multiset{hashes[n]};
    assert Zeros(|cells| - n) - multiset{0} == Zeros(|cells| - (n + 1));
  }

  lemma PlaceAll(cells: seq<u64>, hashes: seq<u64>)
    requires Placed(cells, hashes, |hashes|)
    ensures multiset(cells) == multiset(hashes)
  {
    assert hashes[..|hashes|] == hashes;
  }
}
