/**
 * The `Tree` class: a sorted key array and the root of a binary search tree
 * built from it, with the in-place merge sort the class uses on its array,
 * construction with duplicate removal, insertion, deletion and rebalancing.
 *
 * Tree nodes are the values of `TreeNodes.Node`; an update that the class
 * performs by reassigning `node.left`, `node.right` or `node.data` is
 * modelled by the new subtree value it produces.
 */
module BinarySearchTree {

  import opened Ordering
  import opened TreeNodes
  import Recursion

  // ---------------------------------------------------------------------
  // The merge the class's merge sort performs
  // ---------------------------------------------------------------------

  /**
   * The sequence `merge` writes back: repeatedly take the smaller front
   * element, taking the left one only when it is strictly smaller, then the
   * remainders.
   */
  function MergeRightFirst(left: seq<int>, right: seq<int>): (r: seq<int>)
    ensures |r| == |left| + |right|
    decreases |left| + |right|
  {
    if left == [] then right
    else if right == [] then left
    else if left[0] < right[0] then [left[0]] + MergeRightFirst(left[1..], right)
    else [right[0]] + MergeRightFirst(left, right[1..])
  }

  /** The merged sequence is a permutation of `left + right`. */
  lemma {:induction false} MergeRightFirstPermutation(left: seq<int>, right: seq<int>)
    ensures multiset(MergeRightFirst(left, right)) == multiset(left) + multiset(right)
    decreases |left| + |right|
  {
    if left != [] && right != [] {
      if left[0] < right[0] {
        var x, rest := left[0], MergeRightFirst(left[1..], right);
        assert multiset(rest) == multiset(left[1..]) + multiset(right) by {
          MergeRightFirstPermutation(left[1..], right);
        }
        assert multiset(left) == multiset{x} + multiset(left[1..]) by {
          assert left == [x] + left[1..];
        }
        assert MergeRightFirst(left, right) == [x] + rest;
        assert multiset([x] + rest) == multiset{x} + multiset(rest);
      } else {
        var x, rest := right[0], MergeRightFirst(left, right[1..]);
        assert multiset(rest) == multiset(left) + multiset(right[1..]) by {
          MergeRightFirstPermutation(left, right[1..]);
        }
        assert multiset(right) == multiset{x} + multiset(right[1..]) by {
          assert right == [x] + right[1..];
        }
        assert MergeRightFirst(left, right) == [x] + rest;
        assert multiset([x] + rest) == multiset{x} + multiset(rest);
      }
    }
  }

  /** Merging two sorted sequences yields a sorted sequence. */
  lemma {:induction false} MergeRightFirstSorted(left: seq<int>, right: seq<int>)
    requires Sorted(left) && Sorted(right)
    ensures Sorted(MergeRightFirst(left, right))
    decreases |left| + |right|
  {
    if left != [] && right != [] {
      var l, r := left, right;
      if left[0] < right[0] {
        l := left[1..];
      } else {
        r := right[1..];
      }
      var head := if left[0] < right[0] then left[0] else right[0];
      MergeRightFirstSorted(l, r);
      MergeRightFirstPermutation(l, r);
      var rest := MergeRightFirst(l, r);
      assert forall y :: y in l ==> head <= y;
      assert forall y :: y in r ==> head <= y;
      LowerBoundOfPermutation(head, l + r, rest);
      SortedCons(head, rest);
      assert MergeRightFirst(left, right) == [head] + rest;
    }
  }

  /**
   * On sorted integer inputs the side a tie is taken from cannot be seen:
   * this merge and the left-first merge of the recursion exercises agree.
   */
  lemma {:induction false} MergeTieSideInvisible(left: seq<int>, right: seq<int>)
    requires Sorted(left) && Sorted(right)
    ensures MergeRightFirst(left, right) == Recursion.MergeLeftFirst(left, right)
  {
    MergeRightFirstSorted(left, right);
    MergeRightFirstPermutation(left, right);
    Recursion.MergeLeftFirstSorted(left, right);
    Recursion.MergeLeftFirstPermutation(left, right);
    SortedPermutationUnique(MergeRightFirst(left, right), Recursion.MergeLeftFirst(left, right));
  }

  /**
   * The merge loop's progress: once `i` left and `j` right elements are
   * written, the rest of `merged` is the merge of what remains.
   */
  ghost predicate MergedRest(merged: seq<int>, l: seq<int>, r: seq<int>, i: nat, j: nat)
  {
    i <= |l| && j <= |r| && i + j <= |merged| && merged[i + j..] == MergeRightFirst(l[i..], r[j..])
  }

  /**
   * One step of the merge loop when the left front element is strictly
   * smaller (or the right side is used up): it is the next element of the
   * merged sequence.
   */
  lemma {:induction false} TakeLeft(merged: seq<int>, l: seq<int>, r: seq<int>, i: nat, j: nat)
    requires MergedRest(merged, l, r, i, j)
    requires i < |l| && (j < |r| ==> l[i] < r[j])
    ensures i + j < |merged| && merged[i + j] == l[i] && MergedRest(merged, l, r, i + 1, j)
  {
    assert l[i..][1..] == l[i + 1..];
    assert merged[i + j..][1..] == merged[i + j + 1..];
  }

  /** One step of the merge loop otherwise: the right front element comes next. */
  lemma {:induction false} TakeRight(merged: seq<int>, l: seq<int>, r: seq<int>, i: nat, j: nat)
    requires MergedRest(merged, l, r, i, j)
    requires j < |r| && (i < |l| ==> r[j] <= l[i])
    ensures i + j < |merged| && merged[i + j] == r[j] && MergedRest(merged, l, r, i, j + 1)
  {
    assert r[j..][1..] == r[j + 1..];
    assert merged[i + j..][1..] == merged[i + j + 1..];
  }

  /**
   * When one side is used up, the rest of the merged sequence is what is
   * left of the left side followed by what is left of the right side.
   */
  lemma {:induction false} MergedRestIsRemainders(merged: seq<int>, l: seq<int>, r: seq<int>, i: nat, j: nat)
    requires MergedRest(merged, l, r, i, j)
    requires i == |l| || j == |r|
    ensures |merged| == |l| + |r|
    ensures merged[i + j..|l| + j] == l[i..]
    ensures merged[|l| + j..] == r[j..]
  {
    var rest := merged[i + j..];
    assert rest == l[i..] + r[j..];
    assert merged[i + j..|l| + j] == rest[..|l| - i];
    assert merged[|l| + j..] == rest[|l| - i..];
  }

  // ---------------------------------------------------------------------
  // Duplicate removal (`Array.from(new Set(arr))`)
  // ---------------------------------------------------------------------

  /**
   * The values of `s` in order of first occurrence, each once: what a set
   * built from `s` holds and lists back.
   */
  function Dedup(s: seq<int>): (r: seq<int>)
    ensures Distinct(r) && |r| <= |s|
    ensures forall x :: x in r <==> x in s
  {
    if s == [] then []
    else
      var d := Dedup(s[..|s| - 1]);
      assert forall x :: x in s <==> x in s[..|s| - 1] || x == s[|s| - 1] by {
        assert s == s[..|s| - 1] + [s[|s| - 1]];
      }
      if s[|s| - 1] in d then d else d + [s[|s| - 1]]
  }

  /**
   * The size test of `checkDuplicates`: the set has as many elements as the
   * array exactly when the array has no duplicates, and then it lists the
   * array unchanged.
   */
  lemma {:induction false} DedupSameLengthIffDistinct(s: seq<int>)
    ensures |Dedup(s)| == |s| <==> Distinct(s)
    ensures Distinct(s) ==> Dedup(s) == s
  {
    if s != [] {
      var init, last := s[..|s| - 1], s[|s| - 1];
      assert s == init + [last];
      DedupSameLengthIffDistinct(init);
      if Distinct(s) {
        assert Distinct(init) by {
          forall i, j | 0 <= i < j < |init| ensures init[i] != init[j] {
            assert init[i] == s[i] && init[j] == s[j];
          }
        }
        forall k | 0 <= k < |init| ensures init[k] != last {
          assert init[k] == s[k];
        }
        assert last !in Dedup(init);
      } else if Distinct(init) {
        var i, j :| 0 <= i < j < |s| && s[i] == s[j];
        assert j == |s| - 1 by {
          assert forall k :: 0 <= k < |init| ==> init[k] == s[k];
        }
        assert init[i] == last;
        assert last in Dedup(init);
      }
    }
  }

  /**
   * A sorted permutation of a duplicate-free sequence is strictly
   * increasing and holds the same values.
   */
  lemma {:induction false} SortedPermutationOfDistinct(s: seq<int>, t: seq<int>)
    requires Distinct(s) && Sorted(t) && multiset(t) == multiset(s)
    ensures StrictlyIncreasing(t)
    ensures forall x :: x in t <==> x in s
  {
    DistinctPermutation(s, t);
    SortedDistinctIsStrictlyIncreasing(t);
    forall x ensures x in t <==> x in s {
      assert x in t <==> x in multiset(t);
      assert x in s <==> x in multiset(s);
    }
  }

  /**
   * `buildTree(0, length - 1)` over a strictly increasing array gives a
   * balanced binary search tree listing the array in order.
   */
  lemma {:induction false} BuiltFromIncreasing(a: seq<int>, t: Node)
    requires StrictlyIncreasing(a) && t == BuildTree(a, 0, |a| - 1)
    ensures IsBST(t) && IsBalanced(t) && Inorder(t) == a
  {
    assert Inorder(t) == a by {
      BuildTreeInorder(a, 0, |a| - 1);
      assert a[0..|a|] == a;
    }
    assert StrictlyIncreasing(Inorder(t));
    BSTIffInorderIncreasing(t);
    BuildTreeBalanced(a, 0, |a| - 1);
  }

  /**
   * `deleteItem` called on the root that holds `value` and has at most one
   * child returns that child, but nothing stores it: the root is kept.
   */
  predicate RootKeptOnDelete(value: int, root: Node) {
    root.Node? && root.data == value && (root.left.Nil? || root.right.Nil?)
  }

  /** Sorting the in-order listing of a binary search tree gives the listing back. */
  lemma {:induction false} RebuildKeepsListing(t: Node, sorted: seq<int>)
    requires IsBST(t) && Sorted(sorted) && multiset(sorted) == multiset(InorderTraversal(t, []))
    ensures sorted == Inorder(t) && StrictlyIncreasing(sorted)
  {
    assert InorderTraversal(t, []) == Inorder(t);
    BSTIffInorderIncreasing(t);
    StrictlyIncreasingIsSortedAndDistinct(Inorder(t));
    SortedPermutationUnique(sorted, Inorder(t));
  }

  class Tree {
    /** The key array the tree is built from (the source's `this.array`). */
    var keyArray: array<int>
    var root: Node

    /** The tree is a binary search tree and the array is sorted. */
    ghost predicate Valid()
      reads this, keyArray
    {
      IsBST(root) && Sorted(keyArray[..])
    }

    /**
     * `merge(arr, left, mid, right)`: copy the two slices, then write them
     * back merged into `arr[left..right]`, leaving every other cell alone.
     */
    static method Merge(arr: array<int>, left: int, mid: int, right: int)
      requires 0 <= left <= mid + 1 <= right + 1 <= arr.Length
      modifies arr
      ensures arr[left..right + 1] == MergeRightFirst(old(arr[left..mid + 1]), old(arr[mid + 1..right + 1]))
      ensures arr[..left] == old(arr[..left]) && arr[right + 1..] == old(arr[right + 1..])
    {
      var leftArr := arr[left..mid + 1];
      var rightArr := arr[mid + 1..right + 1];
      ghost var merged := MergeRightFirst(leftArr, rightArr);
      ghost var a0 := arr[..];
      var i, j, k := MergeFronts(arr, leftArr, rightArr, left, a0);
      MergedRestIsRemainders(merged, leftArr, rightArr, i, j);
      k := CopyRest(arr, leftArr, i, k, merged, left, a0);
      k := CopyRest(arr, rightArr, j, k, merged, left, a0);
      MergeWritten(a0, arr[..], merged, left, right);
    }

    /** Cells `left..right` hold `merged` and all other cells are as in `a0`: the three slices follow. */
    static lemma MergeWritten(a0: seq<int>, a3: seq<int>, merged: seq<int>, left: int, right: int)
      requires |a0| == |a3| && 0 <= left <= right + 1 <= |a0| && |merged| == right + 1 - left
      requires forall p :: left <= p <= right ==> a3[p] == merged[p - left]
      requires forall p :: 0 <= p < left || right < p < |a0| ==> a3[p] == a0[p]
      ensures a3[left..right + 1] == merged && a3[..left] == a0[..left] && a3[right + 1..] == a0[right + 1..]
    {
      forall p | 0 <= p < |merged| ensures a3[left..right + 1][p] == merged[p] {
        assert a3[left..right + 1][p] == a3[left + p];
      }
    }

    /**
     * The first loop of `merge`: while both copies have elements left, write
     * the smaller front element (the right one on a tie) into `arr` from cell
     * `left` on. Returns how far each copy and the write position got;
     * `a0` is the array as it was when `merge` began.
     */
    static method MergeFronts(arr: array<int>, leftArr: seq<int>, rightArr: seq<int>, left: nat, ghost a0: seq<int>)
      returns (i: nat, j: nat, k: nat)
      requires left + |leftArr| + |rightArr| <= arr.Length && arr[..] == a0
      modifies arr
      ensures i <= |leftArr| && j <= |rightArr| && k == left + i + j
      ensures i == |leftArr| || j == |rightArr|
      ensures forall p :: left <= p < k ==> arr[p] == MergeRightFirst(leftArr, rightArr)[p - left]
      ensures MergedRest(MergeRightFirst(leftArr, rightArr), leftArr, rightArr, i, j)
      ensures forall p :: 0 <= p < left || k <= p < arr.Length ==> arr[p] == a0[p]
    {
      ghost var merged := MergeRightFirst(leftArr, rightArr);
      i, j, k := 0, 0, left;
      while i < |leftArr| && j < |rightArr|
        invariant i <= |leftArr| && j <= |rightArr| && k == left + i + j
        invariant forall p :: left <= p < k ==> arr[p] == merged[p - left]
        invariant MergedRest(merged, leftArr, rightArr, i, j)
        invariant forall p :: 0 <= p < left || k <= p < arr.Length ==> arr[p] == a0[p]
        decreases |leftArr| - i + |rightArr| - j
      {
        if leftArr[i] < rightArr[j] {
          TakeLeft(merged, leftArr, rightArr, i, j);
          arr[k] := leftArr[i];
          i := i + 1;
        } else {
          TakeRight(merged, leftArr, rightArr, i, j);
          arr[k] := rightArr[j];
          j := j + 1;
        }
        k := k + 1;
      }
    }

    /**
     * The trailing loops of `merge`: copy `src[from..]` into `arr` from
     * cell `k` on, where it completes the merged sequence, and return the
     * next free cell. Cells outside the written part keep their values in
     * `a0`, the array as it was when `merge` began.
     */
    static method CopyRest(arr: array<int>, src: seq<int>, from: nat, k: nat, ghost merged: seq<int>, ghost left: nat,
                           ghost a0: seq<int>)
      returns (next: nat)
      requires from <= |src| && left <= k && k + |src| - from <= left + |merged| && k + |src| - from <= arr.Length
      requires |a0| == arr.Length
      requires forall p :: left <= p < k ==> arr[p] == merged[p - left]
      requires forall p :: 0 <= p < left || k <= p < arr.Length ==> arr[p] == a0[p]
      requires merged[k - left..k - left + |src| - from] == src[from..]
      modifies arr
      ensures next == k + |src| - from
      ensures forall p :: left <= p < next ==> arr[p] == merged[p - left]
      ensures forall p :: 0 <= p < left || next <= p < arr.Length ==> arr[p] == a0[p]
    {
      var i := from;
      next := k;
      while i < |src|
        invariant from <= i <= |src| && next == k + i - from
        invariant forall p :: left <= p < next ==> arr[p] == merged[p - left]
        invariant forall p :: 0 <= p < left || next <= p < arr.Length ==> arr[p] == a0[p]
        decreases |src| - i
      {
        assert merged[next - left] == merged[k - left..k - left + |src| - from][i - from] == src[from..][i - from];
        arr[next] := src[i];
        i, next := i + 1, next + 1;
      }
    }

    /**
     * `mergeSort(arr, left, right)`: sort `arr[left..right]` in place by
     * sorting both halves around `mid = floor((right + left) / 2)` and
     * merging them. An empty or one-cell range is left alone.
     */
    static method MergeSort(arr: array<int>, left: int, right: int)
      requires 0 <= left <= right + 1 <= arr.Length
      modifies arr
      ensures Sorted(arr[left..right + 1]) && multiset(arr[left..right + 1]) == multiset(old(arr[left..right + 1]))
      ensures arr[..left] == old(arr[..left]) && arr[right + 1..] == old(arr[right + 1..])
      decreases right - left
    {
      if left >= right {
        return;
      }
      var mid := (right + left) / 2;
      ghost var a0 := arr[..];
      MergeSort(arr, left, mid);
      ghost var a1 := arr[..];
      assert Sorted(a1[left..mid + 1]) && multiset(a1[left..mid + 1]) == multiset(a0[left..mid + 1]);
      assert a1[..left] == a0[..left] && a1[mid + 1..] == a0[mid + 1..];
      MergeSort(arr, mid + 1, right);
      ghost var a2 := arr[..];
      assert Sorted(a2[mid + 1..right + 1]) && multiset(a2[mid + 1..right + 1]) == multiset(a1[mid + 1..right + 1]);
      assert a2[..mid + 1] == a1[..mid + 1] && a2[right + 1..] == a1[right + 1..];
      Merge(arr, left, mid, right);
      ghost var a3 := arr[..];
      assert a3[left..right + 1] == MergeRightFirst(a2[left..mid + 1], a2[mid + 1..right + 1]);
      assert a3[..left] == a2[..left] && a3[right + 1..] == a2[right + 1..];
      SortStep(a0, a1, a2, a3, left, mid, right);
    }

    /** A fresh array holding `s`: the arrays `Array.from`, `push` and `inorder` produce. */
    static method FromSeq(s: seq<int>) returns (a: array<int>)
      ensures fresh(a) && a[..] == s
    {
      a := new int[|s|](i requires 0 <= i < |s| => s[i]);
      assert a[..] == s by {
        assert forall i :: 0 <= i < |s| ==> a[..][i] == s[i];
      }
    }

    /**
     * `new Tree(array)`: keep the caller's array and run `checkDuplicates`
     * on it. A duplicate-free array is sorted in place and stays the tree's
     * array; otherwise the tree gets a fresh sorted array of the distinct
     * values and the caller's array is left as it was. Either way the tree is
     * a balanced binary search tree listing the array in order.
     */
    constructor (input: array<int>)
      modifies input
      ensures Valid() && IsBalanced(root)
      ensures StrictlyIncreasing(keyArray[..]) && Inorder(root) == keyArray[..]
      ensures root == TreeOf(keyArray[..])
      ensures forall x :: x in keyArray[..] <==> x in old(input[..])
      ensures Distinct(old(input[..])) ==> keyArray == input
      ensures !Distinct(old(input[..])) ==> fresh(keyArray) && input[..] == old(input[..])
    {
      keyArray := input;
      root := Nil;
      new;
      ghost var original := input[..];
      assert original == old(input[..]);
      var distinct := CheckDuplicates(input);
      ghost var sorted := keyArray[..];
      assert root == TreeOf(sorted);
      ghost var source := if distinct then original else Dedup(original);
      assert multiset(sorted) == multiset(source);
      SortedPermutationOfDistinct(source, sorted);
      BuiltFromIncreasing(sorted, root);
      forall x ensures x in sorted <==> x in original {
        assert x in sorted <==> x in source;
        assert x in source <==> x in original;
      }
    }

    /**
     * `checkDuplicates(arr)`: when the set of `arr`'s values is as large as
     * `arr`, sort the tree's own array in place and build the tree from it;
     * otherwise `removeDuplicates` with that set. Reports which case it was.
     */
    method CheckDuplicates(arr: array<int>) returns (distinct: bool)
      modifies this, keyArray
      ensures distinct <==> Distinct(old(arr[..]))
      ensures distinct ==> keyArray == old(keyArray) && multiset(keyArray[..]) == multiset(old(keyArray[..]))
      ensures !distinct ==> fresh(keyArray) && multiset(keyArray[..]) == multiset(Dedup(old(arr[..])))
      ensures !distinct ==> old(keyArray)[..] == old(keyArray[..])
      ensures Sorted(keyArray[..]) && root == TreeOf(keyArray[..])
    {
      var newSet := Dedup(arr[..]);
      DedupSameLengthIffDistinct(arr[..]);
      if |newSet| == arr.Length {
        MergeSort(keyArray, 0, keyArray.Length - 1);
        assert keyArray[..] == keyArray[0..keyArray.Length];
        assert old(keyArray[..]) == old(keyArray[0..keyArray.Length]);
        root := BuildTree(keyArray[..], 0, keyArray.Length - 1);
        return true;
      }
      RemoveDuplicates(newSet);
      return false;
    }

    /**
     * `removeDuplicates(set)`: the tree's array becomes a fresh array of the
     * set's values, sorted, and the tree is built from it.
     */
    method RemoveDuplicates(values: seq<int>)
      modifies this
      ensures fresh(keyArray) && Sorted(keyArray[..]) && multiset(keyArray[..]) == multiset(values)
      ensures root == TreeOf(keyArray[..])
    {
      keyArray := FromSeq(values);
      assert keyArray[..] == keyArray[0..keyArray.Length];
      MergeSort(keyArray, 0, keyArray.Length - 1);
      assert keyArray[..] == keyArray[0..keyArray.Length];
      root := BuildTree(keyArray[..], 0, keyArray.Length - 1);
    }

    /**
     * `insert(value, node)`: descend by comparison; at an empty slot append
     * `value` to the tree's array, sort the array and return a new leaf; a
     * key already present returns its node unchanged. The returned subtree is
     * the insertion of `value`; the array grows by `value` exactly when the
     * search for it fails.
     */
    method InsertAt(value: int, node: Node) returns (r: Node)
      modifies this
      ensures r == Inserted(value, node) && root == old(root)
      ensures Find(value, node).Node? ==> keyArray == old(keyArray)
      ensures Find(value, node).Nil? ==>
        fresh(keyArray) && Sorted(keyArray[..]) && multiset(keyArray[..]) == multiset(old(keyArray[..])) + multiset{value}
      decreases node
    {
      if node.Nil? {
        keyArray := FromSeq(keyArray[..] + [value]);
        assert keyArray[..] == keyArray[0..keyArray.Length];
        MergeSort(keyArray, 0, keyArray.Length - 1);
        assert keyArray[..] == keyArray[0..keyArray.Length];
        return Node(value, Nil, Nil);
      }
      if value == node.data {
        return node;
      }
      if value < node.data {
        var l := InsertAt(value, node.left);
        r := Node(node.data, l, node.right);
      } else {
        var rt := InsertAt(value, node.right);
        r := Node(node.data, node.left, rt);
      }
    }

    /**
     * `insert(value)` from the root. A non-empty tree is updated in place
     * into the insertion of `value`; on an empty tree the new leaf is only
     * returned, so the root stays empty while the array still gains `value`.
     */
    method Insert(value: int) returns (r: Node)
      requires Valid()
      modifies this
      ensures Valid() && r == Inserted(value, old(root))
      ensures root == (if old(root).Nil? then Nil else r)
      ensures Find(value, old(root)).Node? ==> keyArray == old(keyArray)
      ensures Find(value, old(root)).Nil? ==>
        fresh(keyArray) && multiset(keyArray[..]) == multiset(old(keyArray[..])) + multiset{value}
    {
      InsertKeepsOrder(value, root);
      r := InsertAt(value, root);
      if root.Node? {
        root := r;
      }
    }

    /**
     * `getPredecessor(curr)`: step to the left child, then follow right
     * children while there is one.
     */
    method GetPredecessor(curr: Node) returns (r: Node)
      requires curr.Node?
      ensures r == Predecessor(curr)
    {
      r := curr.left;
      while r.Node? && r.right.Node?
        invariant Rightmost(r) == Rightmost(curr.left)
        decreases r
      {
        r := r.right;
      }
    }

    /**
     * `getSuccessor(curr)`: the predecessor when there is no right child,
     * otherwise step to the right child and follow left children.
     */
    method GetSuccessor(curr: Node) returns (r: Node)
      requires curr.Node?
      ensures r == Successor(curr)
    {
      if curr.right.Nil? {
        r := GetPredecessor(curr);
        return;
      }
      r := curr.right;
      while r.Node? && r.left.Node?
        invariant Leftmost(r) == Leftmost(curr.right)
        decreases r
      {
        r := r.left;
      }
    }

    /**
     * `deleteItem(value, node)`: the subtree with `value` deleted, the
     * successor's key taking the place of a key with two children. The
     * function `Deleted` is its specification; this method is the source's
     * recursion itself, which finds the successor with the `getSuccessor`
     * loop rather than with `Successor`.
     */
    method DeleteItemAt(value: int, node: Node) returns (r: Node)
      ensures r == Deleted(value, node)
      decreases node
    {
      if node.Nil? {
        return node;
      }
      if node.data > value {
        var l := DeleteItemAt(value, node.left);
        return Node(node.data, l, node.right);
      } else if node.data < value {
        var rt := DeleteItemAt(value, node.right);
        return Node(node.data, node.left, rt);
      }
      if node.left.Nil? {
        return node.right;
      }
      if node.right.Nil? {
        return node.left;
      }
      var successorNode := GetSuccessor(node);
      r := node;
      if successorNode.Node? {
        var rt := DeleteItemAt(successorNode.data, node.right);
        r := Node(successorNode.data, node.left, rt);
      }
    }

    /**
     * `deleteItem(value)` from the root. The deletion updates the tree in
     * place, except that a root holding `value` with at most one child is
     * only replaced in the returned value: the root itself stays.
     */
    method DeleteItem(value: int) returns (r: Node)
      requires Valid()
      modifies this
      ensures Valid() && keyArray == old(keyArray) && r == Deleted(value, old(root))
      ensures root == (if RootKeptOnDelete(value, old(root)) then old(root) else r)
      ensures !RootKeptOnDelete(value, old(root)) ==> Keys(root) == Keys(old(root)) - {value}
    {
      DeleteKeepsOrder(value, root);
      r := DeleteItemAt(value, root);
      if !RootKeptOnDelete(value, root) {
        root := r;
      }
    }

    /**
     * `rebalance()`: nothing when the tree is balanced; otherwise the array
     * becomes the in-order listing, is sorted, and the tree is rebuilt from
     * it. The rebuilt tree is balanced and lists the same keys in order.
     */
    method Rebalance()
      requires Valid()
      modifies this
      ensures Valid() && IsBalanced(root) && Inorder(root) == old(Inorder(root))
      ensures old(IsBalanced(root)) ==> root == old(root) && keyArray == old(keyArray)
      ensures !old(IsBalanced(root)) ==> fresh(keyArray) && keyArray[..] == Inorder(root)
      ensures !old(IsBalanced(root)) ==> root == TreeOf(keyArray[..])
    {
      if !IsBalanced(root) {
        var listing, r := Rebuilt(root);
        ghost var keys := listing[..];
        keyArray, root := listing, r;
        assert keyArray[..] == keys;
      }
    }

    /**
     * The rebuilding branch of `rebalance()`: the array from the in-order
     * listing, sorted, and the tree built from that array.
     */
    static method Rebuilt(t: Node) returns (listing: array<int>, r: Node)
      requires IsBST(t)
      ensures fresh(listing) && listing[..] == Inorder(t) && StrictlyIncreasing(listing[..]) && Sorted(listing[..])
      ensures IsBST(r) && IsBalanced(r) && Inorder(r) == Inorder(t)
      ensures r == TreeOf(listing[..])
    {
      listing := SortedListing(t);
      var keys := listing[..];
      r := BuildTree(keys, 0, |keys| - 1);
      BuiltFromIncreasing(keys, r);
      StrictlyIncreasingIsSortedAndDistinct(keys);
    }

    /** A fresh array holding `values`, merge-sorted over its whole range. */
    static method SortedCopy(values: seq<int>) returns (a: array<int>)
      ensures fresh(a) && Sorted(a[..]) && multiset(a[..]) == multiset(values)
    {
      a := FromSeq(values);
      assert a[..] == a[0..a.Length];
      MergeSort(a, 0, a.Length - 1);
      assert a[..] == a[0..a.Length];
    }

    /**
     * `this.inorder()` copied into a fresh array and merge-sorted: for a
     * binary search tree the sort leaves the listing as it is.
     */
    static method SortedListing(t: Node) returns (listing: array<int>)
      requires IsBST(t)
      ensures fresh(listing) && listing[..] == Inorder(t) && StrictlyIncreasing(listing[..])
    {
      listing := SortedCopy(InorderTraversal(t, []));
      RebuildKeepsListing(t, listing[..]);
    }
  }

  /**
   * The keys a tree ends with after `new Tree([12, 6, 3, 1, 8, 233, 47])`:
   * the constructor leaves a strictly increasing array with the input's
   * values and a root built from it, and those two facts alone force the
   * array to `[1, 3, 6, 8, 12, 47, 233]` and the root to 8, with
   * `[1, 3, 6]` to its left and `[12, 47, 233]` to its right.
   */
  lemma {:induction false} ConstructorExample(keys: seq<int>, root: Node)
    requires StrictlyIncreasing(keys) && root == TreeOf(keys)
    requires forall x :: x in keys <==> x in [12, 6, 3, 1, 8, 233, 47]
    ensures keys == [1, 3, 6, 8, 12, 47, 233]
    ensures root.Node? && root.data == 8
    ensures Inorder(root.left) == [1, 3, 6] && Inorder(root.right) == [12, 47, 233]
  {
    var sorted := [1, 3, 6, 8, 12, 47, 233];
    assert forall x :: x in sorted <==> x in [12, 6, 3, 1, 8, 233, 47];
    StrictlyIncreasingUnique(keys, sorted);
    BuildTreeExample();
  }

  /**
   * The driver: `new Tree(unSortedArr)` on `[12, 6, 3, 1, 8, 233, 47]`,
   * whose root the pretty printer then shows.
   */
  method DriverTree() returns (t: Tree)
    ensures t.keyArray[..] == [1, 3, 6, 8, 12, 47, 233]
    ensures t.root.Node? && t.root.data == 8
    ensures Inorder(t.root.left) == [1, 3, 6] && Inorder(t.root.right) == [12, 47, 233]
  {
    var unSorted := new int[7];
    unSorted[0], unSorted[1], unSorted[2], unSorted[3] := 12, 6, 3, 1;
    unSorted[4], unSorted[5], unSorted[6] := 8, 233, 47;
    assert unSorted[..] == [12, 6, 3, 1, 8, 233, 47];
    t := new Tree(unSorted);
    ConstructorExample(t.keyArray[..], t.root);
  }

  /**
   * One merge-sort step on snapshots of the array: `a1` has the left half of
   * `a0` sorted, `a2` then has the right half sorted too, and `a3` has the
   * two halves merged. The range of `a3` is then sorted and holds the
   * range's original elements, and nothing outside it has moved.
   */
  lemma {:induction false} SortStep(a0: seq<int>, a1: seq<int>, a2: seq<int>, a3: seq<int>, left: int, mid: int, right: int)
    requires 0 <= left <= mid < right < |a0| == |a1| == |a2| == |a3|
    requires Sorted(a1[left..mid + 1]) && multiset(a1[left..mid + 1]) == multiset(a0[left..mid + 1])
    requires a1[..left] == a0[..left] && a1[mid + 1..] == a0[mid + 1..]
    requires Sorted(a2[mid + 1..right + 1]) && multiset(a2[mid + 1..right + 1]) == multiset(a1[mid + 1..right + 1])
    requires a2[..mid + 1] == a1[..mid + 1] && a2[right + 1..] == a1[right + 1..]
    requires a3[left..right + 1] == MergeRightFirst(a2[left..mid + 1], a2[mid + 1..right + 1])
    requires a3[..left] == a2[..left] && a3[right + 1..] == a2[right + 1..]
    ensures Sorted(a3[left..right + 1]) && multiset(a3[left..right + 1]) == multiset(a0[left..right + 1])
    ensures a3[..left] == a0[..left] && a3[right + 1..] == a0[right + 1..]
  {
    assert a2[left..mid + 1] == a2[..mid + 1][left..] == a1[..mid + 1][left..] == a1[left..mid + 1];
    assert a1[mid + 1..right + 1] == a1[mid + 1..][..right - mid] == a0[mid + 1..][..right - mid] == a0[mid + 1..right + 1];
    assert a2[..left] == a2[..mid + 1][..left] == a1[..mid + 1][..left] == a1[..left];
    assert a1[right + 1..] == a1[mid + 1..][right - mid..] == a0[mid + 1..][right - mid..] == a0[right + 1..];
    assert a0[left..right + 1] == a0[left..mid + 1] + a0[mid + 1..right + 1];
    MergeRightFirstSorted(a2[left..mid + 1], a2[mid + 1..right + 1]);
    MergeRightFirstPermutation(a2[left..mid + 1], a2[mid + 1..right + 1]);
  }
}
