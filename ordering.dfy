/**
 * Order facts about integer sequences shared by the sorting routines of the
 * binary search tree and of the recursion exercises.
 */
module Ordering {

  /** Non-decreasing. */
  predicate Sorted(s: seq<int>) {
    forall i, j :: 0 <= i < j < |s| ==> s[i] <= s[j]
  }

  predicate StrictlyIncreasing(s: seq<int>) {
    forall i, j :: 0 <= i < j < |s| ==> s[i] < s[j]
  }

  /** No value occurs at two positions. */
  predicate Distinct<T(==)>(s: seq<T>) {
    forall i, j :: 0 <= i < j < |s| ==> s[i] != s[j]
  }

  /** A sequence is duplicate-free exactly when every value occurs at most once in its multiset. */
  lemma {:induction false} DistinctIffSingleOccurrences<T>(s: seq<T>)
    ensures Distinct(s) <==> forall x :: multiset(s)[x] <= 1
  {
    if s == [] {
    } else {
      var rest := s[1..];
      assert s == [s[0]] + rest;
      DistinctIffSingleOccurrences(rest);
      if Distinct(s) {
        assert Distinct(rest) by {
          forall i, j | 0 <= i < j < |rest| ensures rest[i] != rest[j] {
            assert rest[i] == s[i + 1] && rest[j] == s[j + 1];
          }
        }
        forall k | 0 <= k < |rest| ensures rest[k] != s[0] {
          assert rest[k] == s[k + 1];
        }
        assert s[0] !in rest;
        forall x ensures multiset(s)[x] <= 1 {
          assert multiset(s)[x] == multiset([s[0]])[x] + multiset(rest)[x];
        }
      } else {
        var i, j :| 0 <= i < j < |s| && s[i] == s[j];
        var x := s[i];
        if i == 0 {
          assert rest[j - 1] == x;
          assert x in multiset(rest);
          assert multiset(s)[x] == 1 + multiset(rest)[x];
          assert multiset(s)[x] >= 2;
        } else {
          assert rest[i - 1] == rest[j - 1];
          assert !Distinct(rest);
          var y :| multiset(rest)[y] > 1;
          assert multiset(s)[y] == multiset([s[0]])[y] + multiset(rest)[y];
          assert multiset(s)[y] > 1;
        }
      }
    }
  }

  /** Duplicate-freedom survives any permutation. */
  lemma {:induction false} DistinctPermutation<T>(s: seq<T>, t: seq<T>)
    requires multiset(s) == multiset(t)
    requires Distinct(s)
    ensures Distinct(t)
  {
    DistinctIffSingleOccurrences(s);
    DistinctIffSingleOccurrences(t);
  }

  /** A sorted sequence without duplicates is strictly increasing. */
  lemma {:induction false} SortedDistinctIsStrictlyIncreasing(s: seq<int>)
    requires Sorted(s) && Distinct(s)
    ensures StrictlyIncreasing(s)
  {
  }

  lemma {:induction false} StrictlyIncreasingIsSortedAndDistinct(s: seq<int>)
    requires StrictlyIncreasing(s)
    ensures Sorted(s) && Distinct(s)
  {
  }

  lemma {:induction false} SortedTail(s: seq<int>)
    requires Sorted(s) && s != []
    ensures Sorted(s[1..])
  {
    forall p, q | 0 <= p < q < |s| - 1 ensures s[1..][p] <= s[1..][q] {
      assert s[1..][p] == s[p + 1] && s[1..][q] == s[q + 1];
    }
  }

  /**
   * A sorted permutation is unique: two sorted sequences with the same
   * multiset of values are equal.
   */
  lemma {:induction false} SortedPermutationUnique(a: seq<int>, b: seq<int>)
    requires Sorted(a) && Sorted(b)
    requires multiset(a) == multiset(b)
    ensures a == b
  {
    assert |a| == |multiset(a)| == |multiset(b)| == |b|;
    if a != [] {
      assert a[0] in multiset(b);
      assert b[0] in multiset(a);
      var i :| 0 <= i < |b| && b[i] == a[0];
      var j :| 0 <= j < |a| && a[j] == b[0];
      assert b[0] <= b[i] && a[0] <= a[j];
      var x := a[0];
      assert b[0] == x;
      var a', b' := a[1..], b[1..];
      assert multiset(a) == multiset{x} + multiset(a') by {
        assert a == [x] + a';
      }
      assert multiset(b) == multiset{x} + multiset(b') by {
        assert b == [x] + b';
      }
      assert multiset(a') == multiset(a) - multiset{x} == multiset(b');
      SortedTail(a);
      SortedTail(b);
      SortedPermutationUnique(a', b');
      assert a == [x] + a' && b == [x] + b';
    }
  }

  /**
   * A strictly increasing sequence is determined by the set of its values.
   */
  lemma {:induction false} StrictlyIncreasingUnique(a: seq<int>, b: seq<int>)
    requires StrictlyIncreasing(a) && StrictlyIncreasing(b)
    requires forall x :: x in a <==> x in b
    ensures a == b
  {
    assert a != [] ==> a[0] in a && a[0] in b;
    assert b != [] ==> b[0] in b && b[0] in a;
    if a != [] {
      assert a[0] == b[0];
      forall x ensures x in a[1..] <==> x in b[1..] {
        if x in a[1..] {
          var k :| 0 <= k < |a[1..]| && a[1..][k] == x;
          assert a[k + 1] == x && a[0] < x;
          assert x in b;
        }
        if x in b[1..] {
          var k :| 0 <= k < |b[1..]| && b[1..][k] == x;
          assert b[k + 1] == x && b[0] < x;
          assert x in a;
        }
      }
      StrictlyIncreasingUnique(a[1..], b[1..]);
      assert a == [a[0]] + a[1..];
      assert b == [b[0]] + b[1..];
    }
  }

  /** A lower bound of every element carries over to any permutation. */
  lemma {:induction false} LowerBoundOfPermutation(x: int, s: seq<int>, t: seq<int>)
    requires multiset(s) == multiset(t)
    requires forall y :: y in s ==> x <= y
    ensures forall y :: y in t ==> x <= y
  {
    forall y | y in t ensures x <= y {
      assert y in multiset(t);
      assert y in multiset(s);
      assert y in s;
    }
  }

  /** Putting a lower bound in front of a sorted sequence keeps it sorted. */
  lemma {:induction false} SortedCons(x: int, s: seq<int>)
    requires Sorted(s)
    requires forall y :: y in s ==> x <= y
    ensures Sorted([x] + s)
  {
    var t := [x] + s;
    forall i, j | 0 <= i < j < |t| ensures t[i] <= t[j] {
      if i == 0 {
        assert t[j] == s[j - 1] && s[j - 1] in s;
      } else {
        assert t[i] == s[i - 1] && t[j] == s[j - 1];
      }
    }
  }

  /**
   * `a + [d] + b` is strictly increasing exactly when both sides are and `d`
   * lies strictly between them.
   */
  lemma {:induction false} StrictlyIncreasingAround(a: seq<int>, d: int, b: seq<int>)
    ensures StrictlyIncreasing(a + [d] + b) <==>
      StrictlyIncreasing(a) && StrictlyIncreasing(b) &&
      (forall x :: x in a ==> x < d) && (forall y :: y in b ==> d < y)
  {
    if StrictlyIncreasing(a + [d] + b) {
      IncreasingAroundSplits(a, d, b);
    }
    if StrictlyIncreasing(a) && StrictlyIncreasing(b) &&
       (forall x :: x in a ==> x < d) && (forall y :: y in b ==> d < y) {
      IncreasingAroundJoins(a, d, b);
    }
  }

  lemma {:induction false} IncreasingAroundSplits(a: seq<int>, d: int, b: seq<int>)
    requires StrictlyIncreasing(a + [d] + b)
    ensures StrictlyIncreasing(a) && StrictlyIncreasing(b)
    ensures (forall x :: x in a ==> x < d) && (forall y :: y in b ==> d < y)
  {
    var t := a + [d] + b;
    assert forall i :: 0 <= i < |a| ==> t[i] == a[i];
    assert t[|a|] == d;
    assert forall i :: 0 <= i < |b| ==> t[|a| + 1 + i] == b[i];
    forall x | x in a ensures x < d {
      var i :| 0 <= i < |a| && a[i] == x;
    }
    forall y | y in b ensures d < y {
      var i :| 0 <= i < |b| && b[i] == y;
      assert t[|a| + 1 + i] == y;
    }
    forall i, j | 0 <= i < j < |b| ensures b[i] < b[j] {
      assert t[|a| + 1 + i] == b[i] && t[|a| + 1 + j] == b[j];
    }
  }

  lemma {:induction false} IncreasingAroundJoins(a: seq<int>, d: int, b: seq<int>)
    requires StrictlyIncreasing(a) && StrictlyIncreasing(b)
    requires (forall x :: x in a ==> x < d) && (forall y :: y in b ==> d < y)
    ensures StrictlyIncreasing(a + [d] + b)
  {
    var t := a + [d] + b;
    assert forall i :: 0 <= i < |a| ==> t[i] == a[i];
    assert t[|a|] == d;
    assert forall i :: 0 <= i < |b| ==> t[|a| + 1 + i] == b[i];
    forall i, j | 0 <= i < j < |t| ensures t[i] < t[j] {
      if j < |a| {
      } else if j == |a| {
        assert t[i] == a[i] && a[i] in a;
      } else if i < |a| {
        assert t[i] == a[i] && a[i] in a;
        assert t[j] == b[j - |a| - 1] && b[j - |a| - 1] in b;
      } else if i == |a| {
        assert t[j] == b[j - |a| - 1] && b[j - |a| - 1] in b;
      } else {
        assert t[i] == b[i - |a| - 1] && t[j] == b[j - |a| - 1];
      }
    }
  }
}
