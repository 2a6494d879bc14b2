/**
 * The nodes of the binary search tree as values, and the recursive queries
 * and updates the tree performs on them: traversals, level order, heights,
 * depth, balance, search, insertion and deletion.
 *
 * A `Nil` subtree stands for a `null` child. Keys are JavaScript numbers
 * compared with `<`, `>` and `===`; the model uses `int`.
 */
module TreeNodes {

  import opened Ordering

  datatype Node = Nil | Node(data: int, left: Node, right: Node)

  function Max(a: int, b: int): int {
    if a >= b then a else b
  }

  /** The keys held anywhere in a subtree. */
  function Keys(t: Node): set<int> {
    match t
    case Nil => {}
    case Node(d, l, r) => Keys(l) + {d} + Keys(r)
  }

  /** Number of nodes. */
  function Size(t: Node): nat {
    match t
    case Nil => 0
    case Node(_, l, r) => Size(l) + 1 + Size(r)
  }

  /** Every subtree rooted at a node, the tree itself included. */
  function Subtrees(t: Node): set<Node> {
    match t
    case Nil => {}
    case Node(_, l, r) => {t} + Subtrees(l) + Subtrees(r)
  }

  /**
   * The ordering invariant of a binary search tree: in every subtree the keys
   * on the left are smaller, and those on the right larger, than the key at
   * its root. It also rules out a key occurring twice.
   */
  predicate IsBST(t: Node) {
    match t
    case Nil => true
    case Node(d, l, r) =>
      IsBST(l) && IsBST(r) &&
      (forall k :: k in Keys(l) ==> k < d) &&
      (forall k :: k in Keys(r) ==> d < k)
  }

  // ---------------------------------------------------------------------
  // Traversals
  // ---------------------------------------------------------------------

  /** Reference visiting orders: left-root-right, root-left-right, left-right-root. */
  function Inorder(t: Node): seq<int> {
    match t
    case Nil => []
    case Node(d, l, r) => Inorder(l) + [d] + Inorder(r)
  }

  function Preorder(t: Node): seq<int> {
    match t
    case Nil => []
    case Node(d, l, r) => [d] + Preorder(l) + Preorder(r)
  }

  function Postorder(t: Node): seq<int> {
    match t
    case Nil => []
    case Node(d, l, r) => Postorder(l) + Postorder(r) + [d]
  }

  /**
   * `inorder(node, arr)`: recurse left, push the node's key onto the
   * accumulator, recurse right, and return the accumulator.
   */
  function InorderTraversal(node: Node, arr: seq<int>): (r: seq<int>)
    ensures r == arr + Inorder(node)
  {
    match node
    case Nil => arr
    case Node(d, l, rt) => InorderTraversal(rt, InorderTraversal(l, arr) + [d])
  }

  /** `preorder(node, arr)`: push the key, then recurse left and right. */
  function PreorderTraversal(node: Node, arr: seq<int>): (r: seq<int>)
    ensures r == arr + Preorder(node)
  {
    match node
    case Nil => arr
    case Node(d, l, rt) => PreorderTraversal(rt, PreorderTraversal(l, arr + [d]))
  }

  /** `postorder(node, arr)`: recurse left and right, then push the key. */
  function PostorderTraversal(node: Node, arr: seq<int>): (r: seq<int>)
    ensures r == arr + Postorder(node)
  {
    match node
    case Nil => arr
    case Node(d, l, rt) => PostorderTraversal(rt, PostorderTraversal(l, arr)) + [d]
  }

  /** The in-order listing holds exactly the keys of the tree. */
  lemma {:induction false} InorderHoldsKeys(t: Node)
    ensures forall k :: k in Inorder(t) <==> k in Keys(t)
    ensures |Inorder(t)| == Size(t)
  {
    if t.Node? {
      InorderHoldsKeys(t.left);
      InorderHoldsKeys(t.right);
    }
  }

  /** All three traversals list the same keys with the same multiplicities. */
  lemma {:induction false} TraversalsArePermutations(t: Node)
    ensures multiset(Preorder(t)) == multiset(Inorder(t))
    ensures multiset(Postorder(t)) == multiset(Inorder(t))
  {
    if t.Node? {
      TraversalsArePermutations(t.left);
      TraversalsArePermutations(t.right);
    }
  }

  /** The ordering invariant holds exactly when the in-order listing is strictly increasing. */
  lemma {:induction false} BSTIffInorderIncreasing(t: Node)
    ensures IsBST(t) <==> StrictlyIncreasing(Inorder(t))
  {
    if t.Node? {
      BSTIffInorderIncreasing(t.left);
      BSTIffInorderIncreasing(t.right);
      InorderHoldsKeys(t.left);
      InorderHoldsKeys(t.right);
      StrictlyIncreasingAround(Inorder(t.left), t.data, Inorder(t.right));
    }
  }

  /**
   * In a binary search tree every traversal lists every key exactly once;
   * the in-order one lists them in increasing order.
   */
  lemma {:induction false} TraversalsListEveryKeyOnce(t: Node)
    requires IsBST(t)
    ensures StrictlyIncreasing(Inorder(t))
    ensures Distinct(Preorder(t)) && Distinct(Postorder(t))
    ensures forall k :: k in Keys(t) <==> k in Inorder(t)
    ensures forall k :: k in Keys(t) <==> k in Preorder(t)
    ensures forall k :: k in Keys(t) <==> k in Postorder(t)
  {
    BSTIffInorderIncreasing(t);
    InorderHoldsKeys(t);
    TraversalsArePermutations(t);
    StrictlyIncreasingIsSortedAndDistinct(Inorder(t));
    DistinctPermutation(Inorder(t), Preorder(t));
    DistinctPermutation(Inorder(t), Postorder(t));
    forall k ensures k in Preorder(t) <==> k in Inorder(t) {
      assert k in Preorder(t) <==> k in multiset(Preorder(t));
      assert k in Inorder(t) <==> k in multiset(Inorder(t));
    }
    forall k ensures k in Postorder(t) <==> k in Inorder(t) {
      assert k in Postorder(t) <==> k in multiset(Postorder(t));
      assert k in Inorder(t) <==> k in multiset(Inorder(t));
    }
  }

  // ---------------------------------------------------------------------
  // Heights and levels
  // ---------------------------------------------------------------------

  /** `getSubtreeHeight(node)`: -1 for an empty subtree, else one more than the taller child. */
  function SubtreeHeight(node: Node): (h: int)
    ensures h >= -1
  {
    match node
    case Nil => -1
    case Node(_, l, r) => Max(SubtreeHeight(l), SubtreeHeight(r)) + 1
  }

  /** The keys at distance `i` below the root of `t`, from left to right. */
  function KeysAtDepth(t: Node, i: nat): seq<int> {
    match t
    case Nil => []
    case Node(d, l, r) => if i == 0 then [d] else KeysAtDepth(l, i - 1) + KeysAtDepth(r, i - 1)
  }

  /** The height of a subtree is the deepest level that still holds a key. */
  lemma {:induction false} HeightIsDeepestLevel(t: Node, i: nat)
    ensures KeysAtDepth(t, i) != [] <==> i <= SubtreeHeight(t)
  {
    if t.Node? && i > 0 {
      HeightIsDeepestLevel(t.left, i - 1);
      HeightIsDeepestLevel(t.right, i - 1);
    }
  }

  /** Row `i` of a level table, empty where the table has no row yet. */
  function Row(table: seq<seq<int>>, i: nat): seq<int> {
    if i < |table| then table[i] else []
  }

  /** The keys `t` contributes to row `i` of a table when `t` sits at depth `level`. */
  function Contribution(t: Node, level: nat, i: nat): seq<int> {
    if i >= level then KeysAtDepth(t, i - level) else []
  }

  /**
   * `getLevelOrderData(root, level, result)`: open a new row when `result`
   * has none for `level` yet, push the key onto row `level`, then recurse into
   * the left and the right child one level down. Row `level` must already
   * exist or be the next one to open, which every call of the source
   * guarantees. Each row gains exactly the keys of `root` at that depth.
   */
  function GetLevelOrderData(root: Node, level: nat, result: seq<seq<int>>): (r: seq<seq<int>>)
    requires level <= |result|
    ensures |r| == Max(|result|, level + SubtreeHeight(root) + 1)
    ensures forall i :: 0 <= i < |r| ==> r[i] == Row(result, i) + Contribution(root, level, i)
    decreases root
  {
    match root
    case Nil => result
    case Node(d, l, rt) =>
      var pushed := PushRow(result, level, d);
      var afterLeft := GetLevelOrderData(l, level + 1, pushed);
      var afterRight := GetLevelOrderData(rt, level + 1, afterLeft);
      LevelOrderStep(root, level, result, pushed, afterLeft, afterRight);
      afterRight
  }

  /** Open row `level` when `table` has none yet, then append `d` to it. */
  function PushRow(table: seq<seq<int>>, level: nat, d: int): (r: seq<seq<int>>)
    requires level <= |table|
    ensures |r| == Max(|table|, level + 1)
  {
    var withRow := if |table| <= level then table + [[]] else table;
    withRow[level := withRow[level] + [d]]
  }

  /** Only row `level` changes, and it gains `d` at its end. */
  lemma {:induction false} PushRowRows(table: seq<seq<int>>, level: nat, d: int, i: nat)
    requires level <= |table|
    ensures Row(PushRow(table, level, d), i) == Row(table, i) + (if i == level then [d] else [])
  {
  }

  /** The inductive step of `GetLevelOrderData`, kept apart to keep the function small. */
  lemma {:induction false} LevelOrderStep(root: Node, level: nat, result: seq<seq<int>>,
                       pushed: seq<seq<int>>, afterLeft: seq<seq<int>>, afterRight: seq<seq<int>>)
    requires root.Node? && level <= |result|
    requires pushed == PushRow(result, level, root.data)
    requires |afterLeft| == Max(|pushed|, level + 1 + SubtreeHeight(root.left) + 1)
    requires forall i :: 0 <= i < |afterLeft| ==> afterLeft[i] == Row(pushed, i) + Contribution(root.left, level + 1, i)
    requires |afterRight| == Max(|afterLeft|, level + 1 + SubtreeHeight(root.right) + 1)
    requires forall i :: 0 <= i < |afterRight| ==> afterRight[i] == Row(afterLeft, i) + Contribution(root.right, level + 1, i)
    ensures |afterRight| == Max(|result|, level + SubtreeHeight(root) + 1)
    ensures forall i :: 0 <= i < |afterRight| ==> afterRight[i] == Row(result, i) + Contribution(root, level, i)
  {
    HeightOfNode(root);
    LevelTableLength(|result|, level, SubtreeHeight(root.left), SubtreeHeight(root.right), SubtreeHeight(root),
                     |pushed|, |afterLeft|, |afterRight|);
    forall i | 0 <= i < |afterRight|
      ensures afterRight[i] == Row(result, i) + Contribution(root, level, i)
    {
      if i < |afterLeft| {
        assert afterLeft[i] == Row(pushed, i) + Contribution(root.left, level + 1, i);
      }
      LevelOrderRow(root, level, result, pushed, afterLeft, afterRight, i);
    }
  }

  lemma {:induction false} HeightOfNode(t: Node)
    requires t.Node?
    ensures SubtreeHeight(t) == Max(SubtreeHeight(t.left), SubtreeHeight(t.right)) + 1
  {
  }

  /** Arithmetic behind the length of a level table. */
  lemma {:induction false} LevelTableLength(r: int, level: int, hl: int, hr: int, h: int, p: int, al: int, ar: int)
    requires hl >= -1 && hr >= -1 && h == Max(hl, hr) + 1
    requires p == Max(r, level + 1)
    requires al == Max(p, level + 1 + hl + 1)
    requires ar == Max(al, level + 1 + hr + 1)
    ensures ar == Max(r, level + h + 1)
  {
  }

  lemma {:induction false} LevelOrderRow(root: Node, level: nat, result: seq<seq<int>>,
                      pushed: seq<seq<int>>, afterLeft: seq<seq<int>>, afterRight: seq<seq<int>>, i: nat)
    requires root.Node? && level <= |result|
    requires pushed == PushRow(result, level, root.data)
    requires |afterLeft| == Max(|pushed|, level + 1 + SubtreeHeight(root.left) + 1)
    requires i < |afterLeft| ==> afterLeft[i] == Row(pushed, i) + Contribution(root.left, level + 1, i)
    requires |afterRight| == Max(|afterLeft|, level + 1 + SubtreeHeight(root.right) + 1)
    requires i < |afterRight|
    requires afterRight[i] == Row(afterLeft, i) + Contribution(root.right, level + 1, i)
    ensures afterRight[i] == Row(result, i) + Contribution(root, level, i)
  {
    if i <= level {
      UpperRow(root, level, result, pushed, afterLeft, i);
    } else {
      DeeperRow(root, level, result, pushed, afterLeft, i);
    }
  }

  /** Rows at or above `level`: only row `level` gains the root's key. */
  lemma {:induction false} UpperRow(root: Node, level: nat, result: seq<seq<int>>,
                 pushed: seq<seq<int>>, afterLeft: seq<seq<int>>, i: nat)
    requires root.Node? && level <= |result| && i <= level
    requires pushed == PushRow(result, level, root.data)
    requires |afterLeft| >= |pushed|
    requires i < |afterLeft| ==> afterLeft[i] == Row(pushed, i) + Contribution(root.left, level + 1, i)
    ensures Row(afterLeft, i) + Contribution(root.right, level + 1, i) == Row(result, i) + Contribution(root, level, i)
  {
    assert Row(afterLeft, i) == Row(pushed, i);
    PushRowRows(result, level, root.data, i);
  }

  /** Rows below `level`: they gain the left child's keys, then the right child's. */
  lemma {:induction false} DeeperRow(root: Node, level: nat, result: seq<seq<int>>,
                  pushed: seq<seq<int>>, afterLeft: seq<seq<int>>, i: nat)
    requires root.Node? && level <= |result| && i > level
    requires pushed == PushRow(result, level, root.data)
    requires |afterLeft| == Max(|pushed|, level + 1 + SubtreeHeight(root.left) + 1)
    requires i < |afterLeft| ==> afterLeft[i] == Row(pushed, i) + Contribution(root.left, level + 1, i)
    ensures Row(afterLeft, i) + Contribution(root.right, level + 1, i) == Row(result, i) + Contribution(root, level, i)
  {
    var k: nat := i - level - 1;
    var above, keysLeft, keysRight := Row(result, i), KeysAtDepth(root.left, k), KeysAtDepth(root.right, k);
    assert Row(afterLeft, i) == above + keysLeft by {
      PushRowRows(result, level, root.data, i);
      assert Row(pushed, i) == above;
      if i < |afterLeft| {
        assert Contribution(root.left, level + 1, i) == keysLeft;
      } else {
        HeightIsDeepestLevel(root.left, k);
        assert keysLeft == [] && above == [];
      }
    }
    assert Contribution(root.right, level + 1, i) == keysRight;
    assert Contribution(root, level, i) == keysLeft + keysRight;
    assert (above + keysLeft) + keysRight == above + (keysLeft + keysRight);
  }

  /**
   * `levelOrder(root)`: one row per level, row `i` holding the keys at depth
   * `i` from left to right, and as many rows as levels.
   */
  function LevelOrder(root: Node): (r: seq<seq<int>>)
    ensures |r| == SubtreeHeight(root) + 1
    ensures forall i :: 0 <= i < |r| ==> r[i] == KeysAtDepth(root, i) && r[i] != []
  {
    var r := GetLevelOrderData(root, 0, []);
    forall i | 0 <= i < |r| ensures r[i] != [] {
      HeightIsDeepestLevel(root, i);
    }
    r
  }

  /**
   * `height(value, node)`: search both children without stopping, and
   * return the subtree height of a node holding `value`, or -1 when there
   * is none.
   */
  function Height(value: int, node: Node): (h: int)
    ensures h >= -1
  {
    match node
    case Nil => -1
    case Node(d, l, r) =>
      if d == value then SubtreeHeight(node)
      else Max(Height(value, l), Height(value, r))
  }

  /**
   * `depth(value, node)`: 0 when the root holds `value`, else one more than
   * the depth found in the left child or, failing that, in the right child;
   * -1 when neither holds it.
   */
  function Depth(value: int, node: Node): (dist: int)
    ensures dist >= -1
  {
    match node
    case Nil => -1
    case Node(d, l, r) =>
      if d == value then 0
      else
        var fromLeft := Depth(value, l);
        if fromLeft >= 0 then fromLeft + 1
        else
          var fromRight := Depth(value, r);
          if fromRight >= 0 then fromRight + 1 else fromRight
  }

  /**
   * `isBalanced(node)`: the heights of the two children differ by at most one,
   * and both children are balanced.
   */
  predicate IsBalanced(node: Node) {
    match node
    case Nil => true
    case Node(_, l, r) =>
      -1 <= SubtreeHeight(l) - SubtreeHeight(r) <= 1 &&
      IsBalanced(l) && IsBalanced(r)
  }

  /**
   * `find(value, node)`: descend by comparison to the node holding `value`,
   * or `Nil`. A node it returns holds `value`; a key absent from the
   * subtree is never found.
   */
  function Find(value: int, node: Node): (r: Node)
    ensures r.Node? ==> r.data == value
    ensures value !in Keys(node) ==> r.Nil?
  {
    match node
    case Nil => Nil
    case Node(d, l, r) =>
      if value == d then node
      else if value < d then Find(value, l)
      else Find(value, r)
  }

  /** A key absent from a subtree has height -1 there. */
  lemma {:induction false} HeightOfAbsentKey(value: int, t: Node)
    requires value !in Keys(t)
    ensures Height(value, t) == -1
  {
    if t.Node? {
      HeightOfAbsentKey(value, t.left);
      HeightOfAbsentKey(value, t.right);
    }
  }

  /**
   * In a binary search tree, `height(value)` is the subtree height of the
   * node `find(value)` returns, and -1 when `find` returns nothing.
   */
  lemma {:induction false} HeightIsHeightOfFoundNode(value: int, t: Node)
    requires IsBST(t)
    ensures Height(value, t) == (if Find(value, t).Nil? then -1 else SubtreeHeight(Find(value, t)))
  {
    if t.Node? && t.data != value {
      if value < t.data {
        HeightIsHeightOfFoundNode(value, t.left);
        HeightOfAbsentKey(value, t.right);
      } else {
        HeightIsHeightOfFoundNode(value, t.right);
        HeightOfAbsentKey(value, t.left);
      }
    }
  }

  /**
   * `depth(value)` is -1 exactly for an absent key; otherwise `value` is
   * among the keys at that depth, so the depth never exceeds the height.
   */
  lemma {:induction false} DepthLocatesKey(value: int, t: Node)
    ensures Depth(value, t) >= 0 <==> value in Keys(t)
    ensures Depth(value, t) >= 0 ==> value in KeysAtDepth(t, Depth(value, t))
    ensures Depth(value, t) <= SubtreeHeight(t)
  {
    if t.Node? && t.data != value {
      DepthLocatesKey(value, t.left);
      DepthLocatesKey(value, t.right);
    }
    if Depth(value, t) >= 0 {
      HeightIsDeepestLevel(t, Depth(value, t));
    }
  }

  /**
   * `isBalanced(node)` holds exactly when at every node of the subtree the
   * heights of the two children differ by at most one.
   */
  lemma {:induction false} BalancedIffEveryNodeBalanced(t: Node)
    ensures IsBalanced(t) <==>
      forall s :: s in Subtrees(t) ==> s.Node? && -1 <= SubtreeHeight(s.left) - SubtreeHeight(s.right) <= 1
  {
    if t.Node? {
      BalancedIffEveryNodeBalanced(t.left);
      BalancedIffEveryNodeBalanced(t.right);
    }
  }

  /** Every key of the tree is held by some node of it. */
  lemma {:induction false} KeysAreHeldByNodes(t: Node)
    ensures forall s :: s in Subtrees(t) ==> s.Node? && s.data in Keys(t)
  {
    if t.Node? {
      KeysAreHeldByNodes(t.left);
      KeysAreHeldByNodes(t.right);
    }
  }

  /**
   * `find(value)` returns a node of the tree holding `value`, or `Nil`; in a
   * binary search tree it returns `Nil` exactly when `value` is absent, and
   * the node it returns is the only one holding `value`.
   */
  lemma {:induction false} FindReturnsHoldingNode(value: int, t: Node)
    ensures Find(value, t).Node? ==> Find(value, t).data == value && Find(value, t) in Subtrees(t)
    ensures IsBST(t) ==> (Find(value, t).Node? <==> value in Keys(t))
    ensures IsBST(t) ==> forall s :: s in Subtrees(t) && s.Node? && s.data == value ==> s == Find(value, t)
  {
    if t.Node? {
      FindReturnsHoldingNode(value, t.left);
      FindReturnsHoldingNode(value, t.right);
      KeysAreHeldByNodes(t.left);
      KeysAreHeldByNodes(t.right);
    }
  }

  // ---------------------------------------------------------------------
  // Construction from a sorted range
  // ---------------------------------------------------------------------

  /**
   * `buildTree(start, end)` over the tree's array `a`: `Nil` for an empty
   * range, otherwise a node holding the lower median `a[start + (end - start) / 2]`
   * over the trees built from the two halves. The in-order listing of the
   * result is exactly the range.
   */
  function BuildTree(a: seq<int>, start: int, end: int): (r: Node)
    requires 0 <= start <= end + 1 <= |a|
    ensures r.Nil? <==> start > end
    ensures r.Node? ==> r.data == a[start + (end - start) / 2]
    decreases end - start
  {
    if start > end then Nil
    else
      var mid := start + (end - start) / 2;
      Node(a[mid], BuildTree(a, start, mid - 1), BuildTree(a, mid + 1, end))
  }

  /** `buildTree(0, array.length - 1)`: the tree built over the whole array. */
  function TreeOf(a: seq<int>): Node {
    BuildTree(a, 0, |a| - 1)
  }

  /** The in-order listing of a tree built from a range is exactly that range. */
  lemma {:induction false} BuildTreeInorder(a: seq<int>, start: int, end: int)
    requires 0 <= start <= end + 1 <= |a|
    ensures Inorder(BuildTree(a, start, end)) == a[start..end + 1]
    decreases end - start
  {
    if start <= end {
      var mid := start + (end - start) / 2;
      var l, r := BuildTree(a, start, mid - 1), BuildTree(a, mid + 1, end);
      BuildTreeInorder(a, start, mid - 1);
      BuildTreeInorder(a, mid + 1, end);
      calc {
        Inorder(BuildTree(a, start, end));
        Inorder(Node(a[mid], l, r));
        Inorder(l) + [a[mid]] + Inorder(r);
        a[start..mid] + [a[mid]] + a[mid + 1..end + 1];
        { SliceAround(a, start, mid, end + 1); }
        a[start..end + 1];
      }
    }
  }

  lemma {:induction false} SliceAround(a: seq<int>, i: int, k: int, j: int)
    requires 0 <= i <= k < j <= |a|
    ensures a[i..j] == a[i..k] + [a[k]] + a[k + 1..j]
  {
  }

  /** The height of the tree `BuildTree` makes from `n` keys: -1, then one more per halving. */
  function MinHeight(n: nat): (h: int)
    ensures h >= -1
    ensures n >= 1 ==> h >= 0
    decreases n
  {
    if n == 0 then -1 else 1 + MinHeight(n / 2)
  }

  lemma {:induction false} MinHeightMonotone(m: nat, n: nat)
    requires m <= n
    ensures MinHeight(m) <= MinHeight(n)
    decreases n
  {
    if m > 0 {
      MinHeightMonotone(m / 2, n / 2);
    }
  }

  lemma {:induction false} MinHeightStep(n: nat)
    ensures MinHeight(n + 1) <= MinHeight(n) + 1
  {
    if n > 0 {
      var m := n + n;
      assert m / 2 == n;
      MinHeightMonotone(n + 1, m);
    }
  }

  /** Halving a count of `n >= 1` either keeps `(n - 1) / 2` or adds one to it. */
  lemma {:induction false} HalvesDiffer(n: nat)
    requires n >= 1
    ensures n / 2 == (n - 1) / 2 || n / 2 == (n - 1) / 2 + 1
  {
  }

  /** The heights of the halves a range of `n >= 1` keys is split into differ by at most one. */
  lemma {:induction false} MinHeightHalves(n: nat)
    requires n >= 1
    ensures MinHeight((n - 1) / 2) <= MinHeight(n / 2) <= MinHeight((n - 1) / 2) + 1
  {
    var p: nat, q: nat := (n - 1) / 2, n / 2;
    HalvesDiffer(n);
    MinHeightMonotone(p, q);
    if q != p {
      MinHeightStep(p);
    }
  }

  /**
   * `t` has the shape `BuildTree` gives `n` keys: the lower `(n - 1) / 2`
   * keys on the left, the upper `n / 2` on the right, all the way down.
   */
  predicate MedianShaped(t: Node, n: nat) {
    match t
    case Nil => n == 0
    case Node(_, l, r) => n >= 1 && MedianShaped(l, (n - 1) / 2) && MedianShaped(r, n / 2)
  }

  lemma {:induction false} BuildTreeShape(a: seq<int>, start: int, end: int)
    requires 0 <= start <= end + 1 <= |a|
    ensures MedianShaped(BuildTree(a, start, end), end - start + 1)
    decreases end - start
  {
    if start <= end {
      var mid := start + (end - start) / 2;
      var l, r := BuildTree(a, start, mid - 1), BuildTree(a, mid + 1, end);
      assert BuildTree(a, start, end) == Node(a[mid], l, r);
      BuildTreeShape(a, start, mid - 1);
      BuildTreeShape(a, mid + 1, end);
      MedianSplit(start, end);
    }
  }

  /** The lower median splits a range of `n` cells into `(n - 1) / 2` cells before it and `n / 2` after. */
  lemma MedianSplit(start: int, end: int)
    requires start <= end
    ensures var mid := start + (end - start) / 2;
      mid - 1 - start + 1 == (end - start + 1 - 1) / 2 && end - (mid + 1) + 1 == (end - start + 1) / 2
  {
  }

  /** A median-shaped tree of `n` keys is balanced and exactly `MinHeight(n)` high. */
  lemma {:induction false} MedianShapedBalanced(t: Node, n: nat)
    requires MedianShaped(t, n)
    ensures IsBalanced(t) && SubtreeHeight(t) == MinHeight(n)
  {
    if t.Node? {
      MedianShapedBalanced(t.left, (n - 1) / 2);
      MedianShapedBalanced(t.right, n / 2);
      MinHeightHalves(n);
      assert MinHeight(n) == 1 + MinHeight(n / 2);
    }
  }

  /**
   * A tree built from a range is balanced, and its height is `MinHeight` of
   * the range's length.
   */
  lemma {:induction false} BuildTreeBalanced(a: seq<int>, start: int, end: int)
    requires 0 <= start <= end + 1 <= |a|
    ensures IsBalanced(BuildTree(a, start, end))
    ensures SubtreeHeight(BuildTree(a, start, end)) == MinHeight(end - start + 1)
  {
    BuildTreeShape(a, start, end);
    MedianShapedBalanced(BuildTree(a, start, end), end - start + 1);
  }

  function Pow2(k: nat): nat {
    if k == 0 then 1 else Pow2(k - 1) + Pow2(k - 1)
  }

  /** `MinHeight(n)` is `floor(log2 n)`: `2^h <= n < 2^(h+1)`. */
  lemma {:induction false} MinHeightIsLog(n: nat)
    requires n >= 1
    ensures MinHeight(n) >= 0
    ensures Pow2(MinHeight(n)) <= n < Pow2(MinHeight(n) + 1)
    decreases n
  {
    if n > 1 {
      var h := MinHeight(n / 2);
      MinHeightIsLog(n / 2);
      assert MinHeight(n) == h + 1;
      HalfBounds(n, Pow2(h), Pow2(h + 1));
    }
  }

  lemma {:induction false} HalfBounds(n: nat, lo: nat, hi: nat)
    requires lo <= n / 2 < hi
    ensures lo + lo <= n < hi + hi
  {
  }

  /** A tree of height `h` holds fewer than `2^(h+1)` keys. */
  lemma {:induction false} SizeBelowPow2(t: Node)
    ensures Size(t) < Pow2(SubtreeHeight(t) + 1)
  {
    if t.Node? {
      SizeBelowPow2(t.left);
      SizeBelowPow2(t.right);
      var h := SubtreeHeight(t);
      assert SubtreeHeight(t.left) + 1 <= h && SubtreeHeight(t.right) + 1 <= h;
      Pow2Monotone(SubtreeHeight(t.left) + 1, h);
      Pow2Monotone(SubtreeHeight(t.right) + 1, h);
    }
  }

  lemma {:induction false} Pow2Monotone(i: nat, j: nat)
    requires i <= j
    ensures Pow2(i) <= Pow2(j)
    decreases j
  {
    if i < j {
      Pow2Monotone(i, j - 1);
    }
  }

  /** A height `h` with `n < 2^(h+1)` is at least any `m` with `2^m <= n`. */
  lemma {:induction false} HeightAbovePow2(n: nat, h: int, m: nat)
    requires h >= -1 && n < Pow2(h + 1) && Pow2(m) <= n
    ensures h >= m
  {
    if h < m {
      Pow2Monotone(h + 1, m);
    }
  }

  /** No tree with `n` keys is lower than `MinHeight(n)`: the built tree has minimal height. */
  lemma {:induction false} NoTreeIsLowerThanMinHeight(t: Node)
    ensures SubtreeHeight(t) >= MinHeight(Size(t))
  {
    if t.Node? {
      var h, n := SubtreeHeight(t), Size(t);
      SizeBelowPow2(t);
      MinHeightIsLog(n);
      HeightAbovePow2(n, h, MinHeight(n));
    }
  }

  /** The tree over the sorted keys of the driver's `[12, 6, 3, 1, 8, 233, 47]` has 8 at the root. */
  lemma {:induction false} BuildTreeExample()
    ensures var t := BuildTree([1, 3, 6, 8, 12, 47, 233], 0, 6);
      t.data == 8 && Inorder(t.left) == [1, 3, 6] && Inorder(t.right) == [12, 47, 233]
  {
    var a := [1, 3, 6, 8, 12, 47, 233];
    var t := BuildTree(a, 0, 6);
    assert t == Node(a[3], BuildTree(a, 0, 2), BuildTree(a, 4, 6));
    assert Inorder(t.left) == [1, 3, 6] by {
      BuildTreeInorder(a, 0, 2);
      assert a[0..3] == [1, 3, 6];
    }
    assert Inorder(t.right) == [12, 47, 233] by {
      BuildTreeInorder(a, 4, 6);
      assert a[4..7] == [12, 47, 233];
    }
  }

  // ---------------------------------------------------------------------
  // Insertion
  // ---------------------------------------------------------------------

  /**
   * `insert(value, node)`: descend by comparison as `Find` does; the empty
   * slot reached gets a new leaf, and a key already present leaves the
   * subtree as it is. The result holds the old keys and `value`.
   */
  function Inserted(value: int, node: Node): (r: Node)
    ensures r.Node? && Keys(r) == Keys(node) + {value}
  {
    match node
    case Nil => Node(value, Nil, Nil)
    case Node(d, l, rt) =>
      if value == d then node
      else if value < d then Node(d, Inserted(value, l), rt)
      else Node(d, l, Inserted(value, rt))
  }

  /** A key the search finds is not inserted again: the tree is unchanged. */
  lemma {:induction false} InsertExisting(value: int, t: Node)
    requires Find(value, t).Node?
    ensures Inserted(value, t) == t
  {
    if t.Node? && value != t.data {
      if value < t.data {
        InsertExisting(value, t.left);
      } else {
        InsertExisting(value, t.right);
      }
    }
  }

  /**
   * A key the search misses becomes a new leaf exactly where the search
   * ended: one more node, the ordering kept, and searching for the key now
   * finds that leaf.
   */
  lemma {:induction false} InsertNew(value: int, t: Node)
    requires IsBST(t) && Find(value, t).Nil?
    ensures IsBST(Inserted(value, t))
    ensures Size(Inserted(value, t)) == Size(t) + 1
    ensures Find(value, Inserted(value, t)) == Node(value, Nil, Nil)
  {
    if t.Node? {
      if value < t.data {
        InsertNew(value, t.left);
      } else {
        InsertNew(value, t.right);
      }
    }
  }

  /** Insertion keeps the binary-search-tree ordering whether or not the key was present. */
  lemma {:induction false} InsertKeepsOrder(value: int, t: Node)
    requires IsBST(t)
    ensures IsBST(Inserted(value, t))
  {
    if Find(value, t).Node? {
      InsertExisting(value, t);
    } else {
      InsertNew(value, t);
    }
  }

  // ---------------------------------------------------------------------
  // Predecessor, successor and deletion
  // ---------------------------------------------------------------------

  /** Follow left children down from `t`; `Nil` stays `Nil`. */
  function Leftmost(t: Node): (r: Node)
    ensures t.Node? ==> r.Node? && r.left.Nil? && r in Subtrees(t) && r.data in Keys(t)
    ensures t.Node? ==> r.data == Inorder(t)[0]
  {
    match t
    case Nil => Nil
    case Node(_, l, _) => if l.Nil? then t else Leftmost(l)
  }

  /** Follow right children down from `t`; `Nil` stays `Nil`. */
  function Rightmost(t: Node): (r: Node)
    ensures t.Node? ==> r.Node? && r.right.Nil? && r in Subtrees(t) && r.data in Keys(t)
    ensures t.Node? ==> r.data == Inorder(t)[|Inorder(t)| - 1]
  {
    match t
    case Nil => Nil
    case Node(_, _, r) => if r.Nil? then t else Rightmost(r)
  }

  /** `getPredecessor(curr)`: the rightmost node of the left subtree. */
  function Predecessor(curr: Node): Node
    requires curr.Node?
  {
    Rightmost(curr.left)
  }

  /**
   * `getSuccessor(curr)`: the leftmost node of the right subtree, or the
   * predecessor when there is no right subtree.
   */
  function Successor(curr: Node): Node
    requires curr.Node?
  {
    if curr.right.Nil? then Predecessor(curr) else Leftmost(curr.right)
  }

  /** In a binary search tree the leftmost node holds the least key. */
  lemma {:induction false} LeftmostIsLeast(t: Node)
    requires IsBST(t) && t.Node?
    ensures forall k :: k in Keys(t) ==> Leftmost(t).data <= k
  {
    if t.left.Node? {
      LeftmostIsLeast(t.left);
    }
  }

  /** In a binary search tree the rightmost node holds the greatest key. */
  lemma {:induction false} RightmostIsGreatest(t: Node)
    requires IsBST(t) && t.Node?
    ensures forall k :: k in Keys(t) ==> k <= Rightmost(t).data
  {
    if t.right.Node? {
      RightmostIsGreatest(t.right);
    }
  }

  /** The predecessor of a node with a left subtree holds the greatest key below its own. */
  lemma {:induction false} PredecessorIsGreatestBelow(curr: Node)
    requires IsBST(curr) && curr.Node? && curr.left.Node?
    ensures Predecessor(curr).data in Keys(curr) && Predecessor(curr).data < curr.data
    ensures forall k :: k in Keys(curr) && k < curr.data ==> k <= Predecessor(curr).data
  {
    RightmostIsGreatest(curr.left);
  }

  /** The successor of a node with a right subtree holds the least key above its own. */
  lemma {:induction false} SuccessorIsLeastAbove(curr: Node)
    requires IsBST(curr) && curr.Node? && curr.right.Node?
    ensures Successor(curr).data in Keys(curr.right) && curr.data < Successor(curr).data
    ensures forall k :: k in Keys(curr) && curr.data < k ==> Successor(curr).data <= k
  {
    LeftmostIsLeast(curr.right);
  }

  /**
   * `deleteItem(value, node)`: descend by comparison; at the node holding
   * `value`, a missing left child makes the right child take its place and a
   * missing right child the left one; with two children the node takes the
   * successor's key, which is then deleted from the right subtree.
   */
  function Deleted(value: int, node: Node): (r: Node)
    ensures Keys(r) <= Keys(node)
    decreases node
  {
    match node
    case Nil => Nil
    case Node(d, l, rt) =>
      if d > value then Node(d, Deleted(value, l), rt)
      else if d < value then Node(d, l, Deleted(value, rt))
      else if l.Nil? then rt
      else if rt.Nil? then l
      else
        var s := Successor(node);
        if s.Node? then Node(s.data, l, Deleted(s.data, rt)) else node
  }

  /** Deleting a key the tree does not hold changes nothing. */
  lemma {:induction false} DeleteAbsent(value: int, t: Node)
    requires value !in Keys(t)
    ensures Deleted(value, t) == t
  {
    if t.Node? {
      DeleteAbsent(value, t.left);
      DeleteAbsent(value, t.right);
    }
  }

  /** Deletion from a binary search tree removes exactly `value` and keeps the ordering. */
  lemma {:induction false} DeleteKeepsOrder(value: int, t: Node)
    requires IsBST(t)
    ensures IsBST(Deleted(value, t))
    ensures Keys(Deleted(value, t)) == Keys(t) - {value}
    decreases t
  {
    if t.Node? {
      var d, l, rt := t.data, t.left, t.right;
      if d > value {
        var l' := Deleted(value, l);
        assert IsBST(l') && Keys(l') == Keys(l) - {value} by {
          DeleteKeepsOrder(value, l);
        }
        assert Deleted(value, t) == Node(d, l', rt);
        assert value !in Keys(rt);
      } else if d < value {
        var rt' := Deleted(value, rt);
        assert IsBST(rt') && Keys(rt') == Keys(rt) - {value} by {
          DeleteKeepsOrder(value, rt);
        }
        assert Deleted(value, t) == Node(d, l, rt');
        assert value !in Keys(l);
      } else if l.Node? && rt.Node? {
        var s := Successor(t);
        SuccessorIsLeastAbove(t);
        var rt' := Deleted(s.data, rt);
        assert IsBST(rt') && Keys(rt') == Keys(rt) - {s.data} by {
          DeleteKeepsOrder(s.data, rt);
        }
        assert Deleted(value, t) == Node(s.data, l, rt');
        assert forall k :: k in Keys(l) ==> k < s.data;
        assert forall k :: k in Keys(rt') ==> s.data < k;
      }
    }
  }

  /**
   * Deleting the key at a node with two children: the node now holds the
   * least key greater than `value`, keeps its left subtree, and that key is
   * gone from its right subtree.
   */
  lemma {:induction false} DeleteTakesSuccessorKey(t: Node)
    requires IsBST(t) && t.Node? && t.left.Node? && t.right.Node?
    ensures var r := Deleted(t.data, t);
      r.Node? && r.left == t.left && r.data in Keys(t.right) &&
      (forall k :: k in Keys(t) && t.data < k ==> r.data <= k) &&
      Keys(r.right) == Keys(t.right) - {r.data}
  {
    SuccessorIsLeastAbove(t);
    DeleteKeepsOrder(Successor(t).data, t.right);
  }

  /** `buildTree` over `[1, 3, 5, 7, 9]` gives `5(1(-, 3), 7(-, 9))`. */
  lemma {:induction false} DeleteExampleTree()
    ensures TreeOf([1, 3, 5, 7, 9]) == Node(5, Node(1, Nil, Node(3, Nil, Nil)), Node(7, Nil, Node(9, Nil, Nil)))
  {
    var a := [1, 3, 5, 7, 9];
    assert BuildTree(a, 0, 1) == Node(1, Nil, Node(3, Nil, Nil)) by {
      assert BuildTree(a, 0, -1) == Nil;
      assert BuildTree(a, 1, 1) == Node(3, Nil, Nil);
    }
    assert BuildTree(a, 3, 4) == Node(7, Nil, Node(9, Nil, Nil)) by {
      assert BuildTree(a, 3, 2) == Nil;
      assert BuildTree(a, 4, 4) == Node(9, Nil, Nil);
    }
  }

  /**
   * Deleting the root key 5 of the tree `buildTree` makes from `[1, 3, 5, 7, 9]`:
   * the root takes the successor key 7 and the in-order listing loses 5.
   */
  lemma {:induction false} DeleteExample()
    ensures var t := Node(5, Node(1, Nil, Node(3, Nil, Nil)), Node(7, Nil, Node(9, Nil, Nil)));
      TreeOf([1, 3, 5, 7, 9]) == t &&
      Deleted(5, t) == Node(7, t.left, Node(9, Nil, Nil)) &&
      Inorder(Deleted(5, t)) == [1, 3, 7, 9]
  {
    var t := Node(5, Node(1, Nil, Node(3, Nil, Nil)), Node(7, Nil, Node(9, Nil, Nil)));
    DeleteExampleTree();
    assert Successor(t) == t.right;
    assert Deleted(7, t.right) == Node(9, Nil, Nil);
  }
}
