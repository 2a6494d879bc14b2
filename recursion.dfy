/**
 * The recursion exercises: a 1-based Fibonacci function and a merge sort that
 * works on slices and never changes the sequence it is given.
 */
module Recursion {

  import opened Ordering

  /**
   * `fib(num)`: 0 for 1, 1 for 2, otherwise the sum of the two previous
   * values. The recursion only reaches its base cases from `num >= 1`.
   * Only the first value is 0; every later one is positive.
   */
  function Fib(num: int): (r: nat)
    requires num >= 1
    ensures r == 0 <==> num == 1
    decreases num
  {
    if num == 1 then 0
    else if num == 2 then 1
    else Fib(num - 1) + Fib(num - 2)
  }

  /** Reference Fibonacci computed by iterating a pair `(a, b)` `k` times. */
  function FibIter(k: nat, a: nat, b: nat): nat
    decreases k
  {
    if k == 0 then a else FibIter(k - 1, b, a + b)
  }

  /** Starting the iteration from two consecutive values of `Fib` walks along `Fib`. */
  lemma {:induction false} FibIterFrom(m: int, k: nat)
    requires m >= 1
    ensures FibIter(k, Fib(m), Fib(m + 1)) == Fib(m + k)
    decreases k
  {
    if k > 0 {
      assert Fib(m + 2) == Fib(m + 1) + Fib(m);
      FibIterFrom(m + 1, k - 1);
    }
  }

  /** The exponential recursion agrees with the linear iteration started at `(0, 1)`. */
  lemma {:induction false} FibAgreesWithIteration(num: int)
    requires num >= 1
    ensures Fib(num) == FibIter(num - 1, 0, 1)
  {
    FibIterFrom(1, num - 1);
  }

  /** The value the commented-out call `fib(8)` would print. */
  lemma {:induction false} FibOfEight()
    ensures Fib(8) == 13
  {
    FibAgreesWithIteration(8);
  }

  /**
   * The value `merge(left, right)` builds: repeatedly move the smaller front
   * element, taking the left one when the fronts are equal, then append what
   * is left of both inputs.
   */
  function MergeLeftFirst(left: seq<int>, right: seq<int>): (r: seq<int>)
    ensures |r| == |left| + |right|
    decreases |left| + |right|
  {
    if left == [] then right
    else if right == [] then left
    else if left[0] <= right[0] then [left[0]] + MergeLeftFirst(left[1..], right)
    else [right[0]] + MergeLeftFirst(left, right[1..])
  }

  /** Merging loses and invents nothing: the result is a permutation of `left + right`. */
  lemma {:induction false} MergeLeftFirstPermutation(left: seq<int>, right: seq<int>)
    ensures multiset(MergeLeftFirst(left, right)) == multiset(left) + multiset(right)
    decreases |left| + |right|
  {
    if left != [] && right != [] {
      if left[0] <= right[0] {
        var x, rest := left[0], MergeLeftFirst(left[1..], right);
        assert multiset(rest) == multiset(left[1..]) + multiset(right) by {
          MergeLeftFirstPermutation(left[1..], right);
        }
        assert multiset(left) == multiset{x} + multiset(left[1..]) by {
          assert left == [x] + left[1..];
        }
        assert MergeLeftFirst(left, right) == [x] + rest;
        assert multiset([x] + rest) == multiset{x} + multiset(rest);
      } else {
        var x, rest := right[0], MergeLeftFirst(left, right[1..]);
        assert multiset(rest) == multiset(left) + multiset(right[1..]) by {
          MergeLeftFirstPermutation(left, right[1..]);
        }
        assert multiset(right) == multiset{x} + multiset(right[1..]) by {
          assert right == [x] + right[1..];
        }
        assert MergeLeftFirst(left, right) == [x] + rest;
        assert multiset([x] + rest) == multiset{x} + multiset(rest);
      }
    }
  }

  /** Merging two sorted sequences yields a sorted sequence. */
  lemma {:induction false} MergeLeftFirstSorted(left: seq<int>, right: seq<int>)
    requires Sorted(left) && Sorted(right)
    ensures Sorted(MergeLeftFirst(left, right))
    decreases |left| + |right|
  {
    if left != [] && right != [] {
      var l, r := left, right;
      if left[0] <= right[0] {
        l := left[1..];
      } else {
        r := right[1..];
      }
      var head := if left[0] <= right[0] then left[0] else right[0];
      MergeLeftFirstSorted(l, r);
      MergeLeftFirstPermutation(l, r);
      var rest := MergeLeftFirst(l, r);
      assert forall y :: y in l ==> head <= y;
      assert forall y :: y in r ==> head <= y;
      LowerBoundOfPermutation(head, l + r, rest);
      SortedCons(head, rest);
      assert MergeLeftFirst(left, right) == [head] + rest;
    }
  }

  /**
   * `merge(left, right)`: a loop that shifts the smaller front element into
   * `sortedArr` while both inputs are non-empty, then appends the remainders.
   * The caller's sequences are values, so the shifts are on local copies.
   */
  method Merge(left: seq<int>, right: seq<int>) returns (sortedArr: seq<int>)
    ensures sortedArr == MergeLeftFirst(left, right)
  {
    var l, r := left, right;
    sortedArr := [];
    while |l| > 0 && |r| > 0
      invariant sortedArr + MergeLeftFirst(l, r) == MergeLeftFirst(left, right)
      decreases |l| + |r|
    {
      ghost var before := sortedArr;
      if l[0] <= r[0] {
        var front := l[0];
        ghost var rest := MergeLeftFirst(l[1..], r);
        assert MergeLeftFirst(l, r) == [front] + rest;
        sortedArr := sortedArr + [front];
        l := l[1..];
        assert sortedArr + rest == before + ([front] + rest);
      } else {
        var front := r[0];
        ghost var rest := MergeLeftFirst(l, r[1..]);
        assert MergeLeftFirst(l, r) == [front] + rest;
        sortedArr := sortedArr + [front];
        r := r[1..];
        assert sortedArr + rest == before + ([front] + rest);
      }
    }
    assert MergeLeftFirst(l, r) == l + r by {
      if l == [] {
        assert l + r == r;
      } else {
        assert l + r == l;
      }
    }
    sortedArr := sortedArr + l + r;
  }

  /**
   * `mergeSort(arr)`: sequences of length at most one are returned as they
   * are; longer ones are split at `floor(|arr| / 2)`, both halves sorted and
   * merged.
   */
  function MergeSort(arr: seq<int>): (r: seq<int>)
    ensures Sorted(r)
    ensures multiset(r) == multiset(arr)
    ensures |arr| <= 1 ==> r == arr
    decreases |arr|
  {
    if |arr| <= 1 then arr
    else
      var middle := |arr| / 2;
      assert arr == arr[..middle] + arr[middle..];
      MergeLeftFirstSorted(MergeSort(arr[..middle]), MergeSort(arr[middle..]));
      MergeLeftFirstPermutation(MergeSort(arr[..middle]), MergeSort(arr[middle..]));
      MergeLeftFirst(MergeSort(arr[..middle]), MergeSort(arr[middle..]))
  }

  /** Sorting is fully determined: the result is the one sorted permutation of the input. */
  lemma {:induction false} MergeSortIsTheSortedPermutation(arr: seq<int>, s: seq<int>)
    requires Sorted(s) && multiset(s) == multiset(arr)
    ensures MergeSort(arr) == s
  {
    SortedPermutationUnique(MergeSort(arr), s);
  }

  /** The driver's input `[105, 79, 100, 110]` sorts to `[79, 100, 105, 110]`. */
  lemma {:induction false} MergeSortExample()
    ensures MergeSort([105, 79, 100, 110]) == [79, 100, 105, 110]
  {
    var s := [79, 100, 105, 110];
    assert multiset([105, 79, 100, 110]) == multiset(s);
    MergeSortIsTheSortedPermutation([105, 79, 100, 110], s);
  }
}
