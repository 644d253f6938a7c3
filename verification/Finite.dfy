/** Counting arguments on finite sets and sequences of natural numbers. */
module Finite {

  ghost function Below(n: nat): (s: set<nat>)
    ensures |s| == n
    ensures forall p: nat :: p in s <==> p < n
  {
    if n == 0 then {} else Below(n - 1) + {n - 1}
  }

  lemma {:induction false} SubsetCard<T>(a: set<T>, b: set<T>)
    requires a <= b
    ensures |a| <= |b|
    ensures |a| == |b| ==> a == b
    decreases a
  {
    if a == {} {
      assert |b| == 0 ==> b == {};
    } else {
      var x :| x in a;
      SubsetCard(a - {x}, b - {x});
      assert a - {x} == b - {x} ==> a == b;
    }
  }

  ghost predicate Distinct<T>(s: seq<T>) {
    forall i, j | 0 <= i < j < |s| :: s[i] != s[j]
  }

  ghost function Elements<T>(s: seq<T>): set<T> {
    set x | x in s
  }

  lemma {:induction false} DistinctCard<T>(s: seq<T>)
    requires Distinct(s)
    ensures |Elements(s)| == |s|
  {
    if s != [] {
      var front, last := s[..|s| - 1], s[|s| - 1];
      DistinctCard(front);
      assert s == front + [last];
      assert Elements(s) == Elements(front) + {last};
    }
  }

  lemma DistinctAppend<T>(s: seq<T>, x: T)
    ensures Distinct(s + [x]) <==> Distinct(s) && x !in s
  {
    var t := s + [x];
    if Distinct(t) {
      assert forall i | 0 <= i < |s| :: t[i] == s[i] && t[i] != t[|s|];
    }
  }

  lemma DistinctTail<T>(s: seq<T>)
    requires s != [] && Distinct(s)
    ensures Distinct(s[1..]) && s[0] !in s[1..]
  {
  }

  /** Distinct numbers below n that avoid one number below n are fewer than n. */
  lemma MissingOne(s: seq<nat>, n: nat, x: nat)
    requires Distinct(s) && x < n
    requires forall i | 0 <= i < |s| :: s[i] < n && s[i] != x
    ensures |s| < n
  {
    DistinctCard(s);
    assert Elements(s) <= Below(n) - {x};
    SubsetCard(Elements(s), Below(n) - {x});
  }

  // ---- rearrangements ----

  function Without<T>(s: seq<T>, j: nat): seq<T>
    requires j < |s|
  {
    s[..j] + s[j + 1..]
  }

  lemma WithoutMultiset<T>(s: seq<T>, j: nat)
    requires j < |s|
    ensures multiset(Without(s, j)) == multiset(s) - multiset{s[j]}
  {
    assert s == s[..j] + [s[j]] + s[j + 1..];
  }

  /** The last element of a sequence has a place in every rearrangement of it. */
  lemma LastIn<T>(s: seq<T>, t: seq<T>) returns (j: nat)
    requires s != [] && multiset(s) == multiset(t)
    ensures j < |t| && t[j] == s[|s| - 1]
    ensures multiset(s[..|s| - 1]) == multiset(Without(t, j))
  {
    var front, last := s[..|s| - 1], s[|s| - 1];
    assert s == front + [last];
    assert last in multiset(t);
    j :| 0 <= j < |t| && t[j] == last;
    WithoutMultiset(t, j);
  }

  function Map<A, B>(f: A -> B, s: seq<A>): seq<B> {
    seq(|s|, i requires 0 <= i < |s| => f(s[i]))
  }

  lemma {:induction false} MapRearranged<A, B>(f: A -> B, s: seq<A>, t: seq<A>)
    requires multiset(s) == multiset(t)
    ensures multiset(Map(f, s)) == multiset(Map(f, t))
    decreases |s|
  {
    if s == [] {
      assert |multiset(t)| == 0;
      assert t == [];
    } else {
      var j := LastIn(s, t);
      var front := s[..|s| - 1];
      MapRearranged(f, front, Without(t, j));
      assert Map(f, s) == Map(f, front) + [f(s[|s| - 1])];
      assert Map(f, Without(t, j)) == Without(Map(f, t), j);
      WithoutMultiset(Map(f, t), j);
    }
  }

  /** An element that occurs twice does so at two places. */
  lemma SecondPlace<T>(s: seq<T>, j: nat) returns (i: nat)
    requires j < |s| && multiset(s)[s[j]] >= 2
    ensures i < |s| && i != j && s[i] == s[j]
  {
    WithoutMultiset(s, j);
    assert s[j] in multiset(Without(s, j));
    var k :| 0 <= k < |Without(s, j)| && Without(s, j)[k] == s[j];
    i := if k < j then k else k + 1;
  }

  lemma TwoPlaces<T>(s: seq<T>, i: nat, j: nat)
    requires i < |s| && j < |s| && i != j && s[i] == s[j]
    ensures multiset(s)[s[j]] >= 2
  {
    WithoutMultiset(s, j);
    var k := if i < j then i else i - 1;
    assert Without(s, j)[k] == s[j];
    assert s[j] in multiset(Without(s, j));
  }

  lemma DistinctHasOnePlace<T>(s: seq<T>, t: seq<T>)
    requires Distinct(s) && multiset(s) == multiset(t)
    ensures Distinct(t)
  {
    forall i, j | 0 <= i < j < |t|
      ensures t[i] != t[j]
    {
      if t[i] == t[j] {
        TwoPlaces(t, i, j);
        assert t[j] in multiset(s);
        var k :| 0 <= k < |s| && s[k] == t[j];
        var k' := SecondPlace(s, k);
      }
    }
  }
}
