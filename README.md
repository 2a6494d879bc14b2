# Basic data structures: a verified model

This project models four JavaScript exercises and proves properties of the model:

- The self-rebuilding binary search tree (`binary-search-trees/components/Tree.js`). It covers:
  - the in-place merge sort of the key array;
  - construction with duplicate removal;
  - construction of a height-minimal tree from the sorted array;
  - the three traversals, level order, subtree height, height and depth of a key, and the balance check;
  - search, insertion, predecessor and successor, three-case deletion, and rebalancing.
- The separate-chaining hash map (`hash-maps/components/HashMap.js`). It covers:
  - the polynomial string hash;
  - buckets as lists of key/value entries;
  - `set` with its load count;
  - doubling and rehashing on resize;
  - `get`, `has`, `length`, `clear`, `keys`, `values` and `entries`.
- The singly linked list (`linked-lists/components/LinkedList.js`). It covers:
  - `append` and `prepend`;
  - size, head and tail;
  - `atIndex`, `insertAt`, `pop`, `contains` and `find`.
- The recursion exercises (`recursion/app.js`):
  - the 1-based Fibonacci function;
  - a merge sort over slices.

Modules:

| module | file | models |
|---|---|---|
| `Wrappers` | `wrappers.dfy` | `Option` |
| `Ordering` | `ordering.dfy` | sortedness, strict increase, duplicate-freedom and their uniqueness facts |
| `Recursion` | `recursion.dfy` | `fib`, `mergeSort`, `merge` of the recursion exercises |
| `TreeNodes` | `tree_nodes.dfy` | tree nodes as a datatype; the recursive tree algorithms as functions with lemmas |
| `BinarySearchTree` | `tree.dfy` | class `Tree`: its key `array` and `root`, the in-place merge sort, construction, insert, delete, rebalance |
| `HashMaps` | `hash_map.dfy` | class `HashMap`: `capacity`, `sizeCount`, `buckets`, and every method but `remove` |
| `LinkedLists` | `linked_list.dfy` | classes `Node` and `LinkedList`; the chain is described by ghost `nodes` and `contents` |

Behaviour of the code that the model keeps as written:

- The class's `merge` (`Tree.js:33`) takes the left element only when it is strictly smaller, so ties come from the right half. The recursion exercise's `merge` (`recursion/app.js:24`) takes ties from the left. `MergeTieSideInvisible` proves the two agree on sorted inputs.
- `insert` on an empty tree pushes the key into the array and re-sorts it. It returns a new node but never stores it in `root` (`Tree.js:95-101`), and the model keeps `root` unchanged.
- `deleteItem` of the root's own key, when the root has at most one child, returns that child, but nothing stores it (`Tree.js:137-152`). The model keeps the old root in that case (`RootKeptOnDelete`).
- `splice` in `clear` is given an entry object as its start argument. That converts to position 0, so the first iteration empties the whole bucket.

## Model

| member | source | states |
|---|---|---|
| `Ordering.SortedPermutationUnique` | binary-search-trees/components/Tree.js:10-20 | two sorted sequences with the same multiset are equal, so any correct sort has one result |
| `Ordering.StrictlyIncreasingUnique` | binary-search-trees/components/Tree.js:39-54 | a strictly increasing sequence is fixed by its set of values, so the deduplicated, sorted key array depends only on the input's values |
| `Recursion.Fib` | recursion/app.js:1-6 | `fib` defined by its recursion for `num >= 1`; its value is 0 exactly at `num == 1` and positive afterwards (`FibAgreesWithIteration` ties it to an independent iteration) |
| `Recursion.FibAgreesWithIteration` | recursion/app.js:1-6 | `fib(num)` for `num >= 1` is the `num - 1`st step of the iteration `(a, b) -> (b, a + b)` from `(0, 1)` |
| `Recursion.FibIterFrom` | recursion/app.js:1-6 | `k` steps of the iteration from `(fib(m), fib(m+1))` reach `fib(m + k)` |
| `Recursion.FibOfEight` | recursion/app.js:8 | `fib(8) == 13` |
| `Recursion.MergeLeftFirst` | recursion/app.js:20-31 | the merge's output has length `|left| + |right|` |
| `Recursion.MergeLeftFirstPermutation` | recursion/app.js:20-31 | the merge is a permutation of `left + right` |
| `Recursion.MergeLeftFirstSorted` | recursion/app.js:20-31 | the merge of two sorted sequences is sorted |
| `Recursion.Merge` | recursion/app.js:20-31 | the `while` loop that shifts the smaller-or-equal front (left on ties) and then appends both remainders computes exactly the left-first merge |
| `Recursion.MergeSort` | recursion/app.js:10-18 | the result is sorted and a permutation of the input; inputs of length at most 1 come back unchanged; the input is a value and is not changed |
| `Recursion.MergeSortIsTheSortedPermutation` | recursion/app.js:10-18 | `mergeSort` returns the one sorted permutation of its input |
| `Recursion.MergeSortExample` | recursion/app.js:33-35 | `[105, 79, 100, 110]` sorts to `[79, 100, 105, 110]` |
| `TreeNodes.InorderTraversal` | binary-search-trees/components/Tree.js:69-75 | the accumulator comes back extended by the left-root-right listing |
| `TreeNodes.PreorderTraversal` | binary-search-trees/components/Tree.js:78-84 | the accumulator comes back extended by the root-left-right listing |
| `TreeNodes.PostorderTraversal` | binary-search-trees/components/Tree.js:87-93 | the accumulator comes back extended by the left-right-root listing |
| `TreeNodes.InorderHoldsKeys` | binary-search-trees/components/Tree.js:69-75 | the in-order listing holds exactly the tree's keys, one per node |
| `TreeNodes.TraversalsArePermutations` | binary-search-trees/components/Tree.js:69-93 | the three traversals list the same multiset of keys |
| `TreeNodes.BSTIffInorderIncreasing` | binary-search-trees/components/Tree.js:69-75 | the search-tree ordering holds if and only if the in-order listing is strictly increasing |
| `TreeNodes.TraversalsListEveryKeyOnce` | binary-search-trees/components/Tree.js:69-93 | in a search tree each traversal lists every key exactly once, in-order sorted |
| `TreeNodes.SubtreeHeight` | binary-search-trees/components/Tree.js:200-208 | the height of an empty subtree is -1 and no height is below -1 |
| `TreeNodes.HeightIsDeepestLevel` | binary-search-trees/components/Tree.js:200-208 | a subtree holds keys at depth `i` exactly when `i` is at most its height |
| `TreeNodes.GetLevelOrderData` | binary-search-trees/components/Tree.js:179-192 | the table gets as many rows as the deepest level reached, and each row gets exactly the node's keys at that depth, left to right |
| `TreeNodes.LevelOrder` | binary-search-trees/components/Tree.js:194-198 | `levelOrder` has one non-empty row per level, `height + 1` rows, and row `i` lists the keys at depth `i` left to right |
| `TreeNodes.Height` | binary-search-trees/components/Tree.js:210-221 | `height` searches both children and never returns less than -1 (`HeightOfAbsentKey` and `HeightIsHeightOfFoundNode` state its value) |
| `TreeNodes.Depth` | binary-search-trees/components/Tree.js:223-235 | `depth` never returns less than -1 (`DepthLocatesKey` states its value) |
| `TreeNodes.IsBalanced` | binary-search-trees/components/Tree.js:237-248 | `isBalanced` defined by its recursion; `BalancedIffEveryNodeBalanced` states its meaning |
| `TreeNodes.Find` | binary-search-trees/components/Tree.js:164-177 | a node `find` returns holds `value`, and a key absent from the subtree gives `null` (`FindReturnsHoldingNode` adds the search-tree facts) |
| `TreeNodes.HeightOfAbsentKey` | binary-search-trees/components/Tree.js:210-221 | the height of a key that is absent is -1 |
| `TreeNodes.HeightIsHeightOfFoundNode` | binary-search-trees/components/Tree.js:210-221 | in a search tree, `height(value)` is the subtree height of the node `find` returns, or -1 when there is none |
| `TreeNodes.DepthLocatesKey` | binary-search-trees/components/Tree.js:223-235 | `depth(value)` is non-negative if and only if the key is present; then the key sits at that depth, which is at most the height |
| `TreeNodes.BalancedIffEveryNodeBalanced` | binary-search-trees/components/Tree.js:237-248 | `isBalanced` holds if and only if at every node the child heights differ by at most one |
| `TreeNodes.FindReturnsHoldingNode` | binary-search-trees/components/Tree.js:164-177 | `find` returns a node of the tree holding the key; in a search tree it finds the key if and only if the key is present, and that node is the only one holding it |
| `TreeNodes.BuildTree` | binary-search-trees/components/Tree.js:56-66 | an empty range gives `null`; otherwise the root holds the lower median `a[start + (end - start) / 2]` |
| `TreeNodes.BuildTreeInorder` | binary-search-trees/components/Tree.js:56-66 | the built tree lists `a[start..end]` in order |
| `TreeNodes.BuildTreeBalanced` | binary-search-trees/components/Tree.js:56-66 | the built tree is balanced and its height is the least possible for its size |
| `TreeNodes.MedianShapedBalanced` | binary-search-trees/components/Tree.js:56-66 | a tree split at the lower median at every node is balanced and of least height |
| `TreeNodes.MinHeightIsLog` | binary-search-trees/components/Tree.js:56-66 | that least height for `n >= 1` keys is `floor(log2 n)` |
| `TreeNodes.NoTreeIsLowerThanMinHeight` | binary-search-trees/components/Tree.js:56-66 | no tree with the same number of nodes is lower than the built one |
| `TreeNodes.BuildTreeExample` | binary-search-trees/components/Tree.js:56-66 | building over the whole sorted array `[1, 3, 6, 8, 12, 47, 233]` puts 8 (index 3) at the root, with `[1, 3, 6]` on the left and `[12, 47, 233]` on the right |
| `TreeNodes.Inserted` | binary-search-trees/components/Tree.js:95-118 | insertion returns a node whose subtree holds the old keys plus `value` |
| `TreeNodes.InsertExisting` | binary-search-trees/components/Tree.js:103-107 | inserting a key already present leaves the subtree unchanged |
| `TreeNodes.InsertNew` | binary-search-trees/components/Tree.js:95-118 | inserting a new key into a search tree adds exactly one node, a leaf holding the key, and keeps the ordering |
| `TreeNodes.InsertKeepsOrder` | binary-search-trees/components/Tree.js:95-118 | insertion keeps the search-tree ordering |
| `TreeNodes.Leftmost` | binary-search-trees/components/Tree.js:130-133 | the leftmost descendant is a node of the tree without a left child, holding the first in-order key |
| `TreeNodes.Rightmost` | binary-search-trees/components/Tree.js:121-124 | the rightmost descendant is a node of the tree without a right child, holding the last in-order key |
| `TreeNodes.LeftmostIsLeast` | binary-search-trees/components/Tree.js:130-133 | in a search tree the leftmost key is the least |
| `TreeNodes.RightmostIsGreatest` | binary-search-trees/components/Tree.js:121-124 | in a search tree the rightmost key is the greatest |
| `TreeNodes.PredecessorIsGreatestBelow` | binary-search-trees/components/Tree.js:120-126 | with a left child, `getPredecessor` finds the greatest key below the node's key |
| `TreeNodes.SuccessorIsLeastAbove` | binary-search-trees/components/Tree.js:128-135 | with a right child, `getSuccessor` finds the least key above the node's key |
| `TreeNodes.Deleted` | binary-search-trees/components/Tree.js:137-162 | deletion never adds a key |
| `TreeNodes.DeleteAbsent` | binary-search-trees/components/Tree.js:137-144 | deleting an absent key changes nothing |
| `TreeNodes.DeleteKeepsOrder` | binary-search-trees/components/Tree.js:137-162 | deletion from a search tree keeps the ordering and removes exactly `value` |
| `TreeNodes.DeleteTakesSuccessorKey` | binary-search-trees/components/Tree.js:153-157 | a node with two children takes its successor's key, and that key leaves the right subtree |
| `TreeNodes.DeleteExampleTree` | binary-search-trees/components/Tree.js:56-66 | `buildTree` over `[1, 3, 5, 7, 9]` gives `5(1(-, 3), 7(-, 9))` |
| `TreeNodes.DeleteExample` | binary-search-trees/components/Tree.js:137-162 | the tree `buildTree` makes from `[1, 3, 5, 7, 9]` is `5(1(-, 3), 7(-, 9))`, and deleting 5 from it gives `7(1(-, 3), 9)`, listing `[1, 3, 7, 9]` |
| `BinarySearchTree.MergeRightFirst` | binary-search-trees/components/Tree.js:22-37 | the merge writes back `|left| + |right|` values |
| `BinarySearchTree.MergeRightFirstPermutation` | binary-search-trees/components/Tree.js:22-37 | the merged values are a permutation of the two slices |
| `BinarySearchTree.MergeRightFirstSorted` | binary-search-trees/components/Tree.js:22-37 | merging two sorted slices gives a sorted run |
| `BinarySearchTree.MergeTieSideInvisible` | binary-search-trees/components/Tree.js:33 | on sorted integer runs, taking ties from the right gives the same sequence as taking them from the left |
| `BinarySearchTree.Tree.Merge` | binary-search-trees/components/Tree.js:22-37 | `arr[left..right]` becomes the right-first merge of its two old halves; every other cell keeps its value |
| `BinarySearchTree.Tree.MergeFronts` | binary-search-trees/components/Tree.js:32-34 | the comparison loop writes the merge's prefix and stops when one slice is used up |
| `BinarySearchTree.Tree.CopyRest` | binary-search-trees/components/Tree.js:35-36 | each copy loop writes the rest of one slice in place |
| `BinarySearchTree.Tree.MergeSort` | binary-search-trees/components/Tree.js:10-20 | `arr[left..right]` becomes sorted and a permutation of its old values; cells outside are unchanged (so is a range with `left >= right`) |
| `BinarySearchTree.SortStep` | binary-search-trees/components/Tree.js:17-19 | sorting both halves and merging them sorts the range and permutes it, leaving the rest |
| `BinarySearchTree.Dedup` | binary-search-trees/components/Tree.js:40-51 | `Array.from(new Set(arr))` has no duplicates, the same values, and is no longer than the input |
| `BinarySearchTree.DedupSameLengthIffDistinct` | binary-search-trees/components/Tree.js:40-41 | the set has as many elements as the array if and only if the array has no duplicate, and then it is the array |
| `BinarySearchTree.SortedPermutationOfDistinct` | binary-search-trees/components/Tree.js:39-54 | sorting duplicate-free keys gives a strictly increasing array of the same values |
| `BinarySearchTree.BuiltFromIncreasing` | binary-search-trees/components/Tree.js:42-43 | a tree built over a whole strictly increasing array is a balanced search tree listing that array in order |
| `BinarySearchTree.RebuildKeepsListing` | binary-search-trees/components/Tree.js:256-257 | sorting the in-order listing of a search tree gives that listing back |
| `BinarySearchTree.Tree.constructor` | binary-search-trees/components/Tree.js:4-8 | the array becomes the strictly increasing array of the input's distinct values, and the root is the lower-median tree `buildTree(0, length - 1)` over it, a balanced search tree listing the array in order; duplicate-free input is sorted in place and kept, otherwise a fresh array replaces it |
| `BinarySearchTree.ConstructorExample` | binary-search-trees/app.js:15-17 | a strictly increasing array holding the values `[12, 6, 3, 1, 8, 233, 47]`, with the tree built over it, is `[1, 3, 6, 8, 12, 47, 233]` with root 8, `[1, 3, 6]` on the left and `[12, 47, 233]` on the right |
| `BinarySearchTree.DriverTree` | binary-search-trees/app.js:15-17 | `new Tree([12, 6, 3, 1, 8, 233, 47])` ends with the array `[1, 3, 6, 8, 12, 47, 233]` and root 8, `[1, 3, 6]` to its left and `[12, 47, 233]` to its right |
| `BinarySearchTree.Tree.CheckDuplicates` | binary-search-trees/components/Tree.js:39-48 | returns true if and only if the array has no duplicate; then it sorts the array in place, otherwise it replaces it by the sorted deduplication; the root is built from the sorted array |
| `BinarySearchTree.Tree.RemoveDuplicates` | binary-search-trees/components/Tree.js:50-54 | the array becomes a fresh sorted copy of the given values and the root is built from it |
| `BinarySearchTree.Tree.InsertAt` | binary-search-trees/components/Tree.js:95-118 | returns the subtree with `value` inserted; at the empty slot the array gains `value` and is re-sorted; a duplicate leaves the array alone |
| `BinarySearchTree.Tree.Insert` | binary-search-trees/components/Tree.js:95-101 | keeps the class invariant; the root becomes the result except on an empty tree, where it stays empty |
| `BinarySearchTree.Tree.GetPredecessor` | binary-search-trees/components/Tree.js:120-126 | the pointer walk ends at the rightmost node of the left subtree |
| `BinarySearchTree.Tree.GetSuccessor` | binary-search-trees/components/Tree.js:128-135 | the walk ends at the leftmost node of the right subtree, or at the predecessor if there is no right child |
| `BinarySearchTree.Tree.DeleteItemAt` | binary-search-trees/components/Tree.js:137-162 | returns the subtree after the three-case deletion |
| `BinarySearchTree.Tree.DeleteItem` | binary-search-trees/components/Tree.js:137-162 | keeps the class invariant and the array; the root loses exactly `value`, except when the root holds it with at most one child, where the root stays |
| `BinarySearchTree.Tree.Rebalance` | binary-search-trees/components/Tree.js:250-259 | afterwards the tree is balanced with the same in-order listing, so a second call changes nothing; a balanced tree is left as it is, otherwise the array becomes that listing and the root the lower-median tree built over it |
| `BinarySearchTree.Tree.Rebuilt` | binary-search-trees/components/Tree.js:256-258 | sorting the in-order listing and rebuilding gives the lower-median tree over that listing, a balanced search tree with the same listing |
| `BinarySearchTree.Tree.SortedListing` | binary-search-trees/components/Tree.js:256-257 | the sorted in-order listing of a search tree is that listing, strictly increasing |
| `HashMaps.HashCode` | hash-maps/components/HashMap.js:18-26 | the hash is a valid bucket index, in `[0, capacity)` |
| `HashMaps.HashIsPolySumMod` | hash-maps/components/HashMap.js:18-26 | reducing after every code unit gives the key's base-31 value modulo the capacity |
| `HashMaps.HashOfApple` | hash-maps/app.js:5 | `"apple"` goes to bucket 10 of a new map |
| `HashMaps.HashMap.Hash` | hash-maps/components/HashMap.js:18-26 | the loop returns the key's base-31 value modulo `capacity`, a bucket index |
| `HashMaps.HashMap.CreateBuckets` | hash-maps/components/HashMap.js:9-16 | `amount` empty buckets |
| `HashMaps.HashMap.constructor` | hash-maps/components/HashMap.js:2-7 | a new map has capacity 16, count 0, no entries, and finds no key |
| `HashMaps.HashMap.Bucket` | hash-maps/components/HashMap.js:29-32 | returns the bucket at the key's hash; searching it is the map's lookup |
| `HashMaps.HashMap.FindEntry` | hash-maps/components/HashMap.js:35-42 | finds the first entry with the key, or reports that no entry has it |
| `HashMaps.ValueInFirst` | hash-maps/components/HashMap.js:35-42 | the bucket search finds nothing exactly when no entry has the key, and otherwise the first such entry |
| `HashMaps.ValueInIsEntry` | hash-maps/components/HashMap.js:35-42 | in a bucket without repeated keys, the search yields `v` exactly when `(key, v)` is an entry |
| `HashMaps.HashMap.Set` | hash-maps/components/HashMap.js:67-80 | afterwards `key` maps to `value` and every other key to what it did. The result is "changed" exactly when the key was present; then the old entry is swapped for the new one and the counts stay. Otherwise the entry is appended to its bucket. Outside a resize the count grows by one and the capacity doubles when the load reaches 3/4. |
| `HashMaps.HashMap.CountSize` | hash-maps/components/HashMap.js:55-63 | raises the count by one and returns it; the capacity doubles exactly when the new load reaches 3/4; the entries and the map stay |
| `HashMaps.LoadReached` | hash-maps/components/HashMap.js:57-58 | `size / capacity >= 0.75` is the integer test `4 * size >= 3 * capacity` |
| `HashMaps.HashMap.LoadReachesFactor` | hash-maps/components/HashMap.js:57-58 | the load test |
| `HashMaps.HashMap.Resize` | hash-maps/components/HashMap.js:44-53 | doubles the capacity; the buckets stay well placed, hold the same entries and give the same map; the count stays |
| `HashMaps.HashMap.Reinsert` | hash-maps/components/HashMap.js:48-50 | re-`set`ting the listed entries into empty buckets places exactly those entries |
| `HashMaps.HashMap.Get` | hash-maps/components/HashMap.js:82-88 | returns `v` exactly when `(key, v)` is an entry, and nothing for an absent key |
| `HashMaps.HashMap.Has` | hash-maps/components/HashMap.js:90-93 | true exactly when the key holds a non-empty string, the truthy values |
| `HashMaps.HashMap.Length` | hash-maps/components/HashMap.js:108-119 | counts every entry; between calls that is the stored count |
| `HashMaps.HashMap.Clear` | hash-maps/components/HashMap.js:121-129 | every bucket becomes empty, the count 0 and the capacity stays; no key is found afterwards |
| `HashMaps.HashMap.Keys` | hash-maps/components/HashMap.js:131-142 | the keys of all entries, bucket by bucket, without repeats, exactly the keys the map holds |
| `HashMaps.HashMap.PushKeys` | hash-maps/components/HashMap.js:134-138 | the inner loop appends the keys of one bucket's entries, in order |
| `HashMaps.HashMap.PushValues` | hash-maps/components/HashMap.js:147-149 | the inner loop appends the values of one bucket's entries, in order |
| `HashMaps.HashMap.Values` | hash-maps/components/HashMap.js:144-153 | the values of all entries, bucket by bucket, including every value the map holds |
| `HashMaps.HashMap.Entries` | hash-maps/components/HashMap.js:155-167 | every entry, bucket by bucket, skipping empty buckets |
| `HashMaps.LookupIsEntry` | hash-maps/components/HashMap.js:82-88 | in well-placed buckets, the key's own bucket holds `v` for it exactly when `(key, v)` is an entry somewhere |
| `HashMaps.LookupByEntries` | hash-maps/components/HashMap.js:44-53 | well-placed buckets with the same entries give the same map, whatever the capacity |
| `HashMaps.KeysDistinct` | hash-maps/components/HashMap.js:131-142 | no key is listed twice across all buckets |
| `HashMaps.KeysHeld` | hash-maps/components/HashMap.js:131-142 | the listed keys are exactly the keys the map holds |
| `HashMaps.AppendKeepsWellFormed` | hash-maps/components/HashMap.js:74 | appending a new key to its bucket keeps every entry in its hash's bucket and keys unique per bucket |
| `HashMaps.AppendAddsEntry` | hash-maps/components/HashMap.js:74 | the append adds exactly one entry |
| `HashMaps.AppendLookup` | hash-maps/components/HashMap.js:74 | after the append the new key finds its value and the other keys are unaffected |
| `HashMaps.ReplaceKeepsWellFormed` | hash-maps/components/HashMap.js:70-71 | overwriting a value in place keeps the buckets well placed and the number of entries |
| `HashMaps.ReplaceSwapsEntry` | hash-maps/components/HashMap.js:70-71 | overwriting swaps the old entry for the new one |
| `HashMaps.ReplaceLookup` | hash-maps/components/HashMap.js:70-71 | after overwriting, the key finds the new value and the other keys are unaffected |
| `HashMaps.NewKeyAbsent` | hash-maps/components/HashMap.js:48-50 | a key none of the re-inserted entries carries is not yet in the new buckets |
| `LinkedLists.LinkedList.constructor` | linked-lists/components/LinkedList.js:4-6 | a new list is empty |
| `LinkedLists.LinkedList.Append` | linked-lists/components/LinkedList.js:8-19 | the values become `s + [value]` |
| `LinkedLists.LinkedList.Prepend` | linked-lists/components/LinkedList.js:21-25 | the values become `[value] + s` |
| `LinkedLists.LinkedList.GetSize` | linked-lists/components/LinkedList.js:27-35 | the walk counts `\|s\|` nodes |
| `LinkedLists.LinkedList.GetHead` | linked-lists/components/LinkedList.js:37-39 | the first node, or null exactly when the list is empty |
| `LinkedLists.LinkedList.GetTail` | linked-lists/components/LinkedList.js:41-48 | the last node, with no successor, or null exactly when the list is empty |
| `LinkedLists.LinkedList.AtIndex` | linked-lists/components/LinkedList.js:50-62 | null exactly for `index < 0` or `index >= \|s\|`; otherwise the node holding `s[index]` |
| `LinkedLists.LinkedList.InsertAt` | linked-lists/components/LinkedList.js:64-74 | inserts exactly when `0 <= index <= \|s\|`, giving `s[..index] + [value] + s[index..]`; otherwise nothing changes |
| `LinkedLists.LinkedList.LinkAfter` | linked-lists/components/LinkedList.js:70-73 | linking a new node after position `index - 1` inserts its value at `index` |
| `LinkedLists.LinkedList.InsertedValid` | linked-lists/components/LinkedList.js:72-73 | rewiring the two `next` pointers yields a well-formed chain again |
| `LinkedLists.LinkedList.Pop` | linked-lists/components/LinkedList.js:76-86 | with at least two nodes, returns the old tail and leaves `s[..\|s\|-1]` |
| `LinkedLists.LinkedList.Contains` | linked-lists/components/LinkedList.js:88-97 | true exactly when `value` is in `s` |
| `LinkedLists.LinkedList.Find` | linked-lists/components/LinkedList.js:99-110 | the index of the first occurrence of `value`, or nothing exactly when it is absent |

## Left out

- Console logging in `insert`, `deleteItem` and `rebalance`, and `prettyPrint` and the driver scripts: output only.
  - The drivers' literal inputs appear only as the example lemmas.
- `LinkedList.toString` is not modelled: it only formats the list.
- The message strings `set` and `clear` return: `set` returns a `SetOutcome` tag; `clear` returns nothing.
- `HashMap.remove` is not part of this model: its own code marks it as needing rework.
- The `Node.js` files are not part of this model. Their fields are inferred from use:
  - tree nodes have `data`, `left` and `right`;
  - list nodes have `value` and `next`.
- Node identity in the tree. Tree nodes are values, so the following are modelled as new subtree values:
  - the in-place reassignment of `node.left`, `node.right` and `node.data`;
  - the live node `find` returns.
- Aliasing between tree nodes is therefore not captured.
- Arrays in the tree:
  - `insert` pushes onto the tree's array, which grows it in place; the model makes a fresh sorted array with one more key.
  - `Array.from` and `inorder` make new JavaScript arrays; the model makes fresh arrays.
- Traversals, `find`, `height`, `depth` and `isBalanced` are functions on values.
  - `getLevelOrderData` returns the filled result table instead of pushing into a shared one.
  - The unreachable `return null` at the end of `find` has no counterpart.
- `TreeNodes.SubtreeHeight`: its own contract only bounds the height; `HeightIsDeepestLevel` states what the height means.
- `TreeNodes.Deleted`: its own contract only excludes new keys; `DeleteKeepsOrder` states the full effect on search trees.
- Keys of the tree are JavaScript numbers and are modelled as `int`: no floating point, NaN or mixed-type comparisons.
- Hash map keys are strings read as UTF-16 code units; values are strings.
  - `has` therefore treats only the empty string as falsy.
  - Other falsy values (`0`, `null`, `false`) are not modelled.
- The load factor 0.75 is compared as an exact rational:
  - `LoadReached` shows it is the integer test `4 * size >= 3 * capacity`;
  - floating-point rounding of `size / capacity` is not modelled.
- `HashMaps.HashMap.Set`: a changed entry is described by the entry multiset and the map, not by its exact position in the bucket.
- Hash arithmetic does not model JavaScript number precision: each step reduces modulo the capacity, so the values stay small.
- `Recursion.Fib` requires `num >= 1`: below that the code's recursion never reaches a base case. Its values are unbounded integers, so the loss of precision of JavaScript numbers from `fib(80)` on is not modelled.
- `HashMaps.HashMap.Entries` returns entry values. The code hands out the live `{key, value}` objects, through which a caller can change the map; that aliasing is not modelled.
- `Recursion.Merge` works on values: the code's `shift` calls empty the two argument arrays, while the model leaves them intact. `mergeSort` only passes it fresh slices, so no caller can see the difference.
- `LinkedLists.LinkedList.Pop` requires at least two nodes, because with fewer the walk dereferences `null`.
- `LinkedLists.LinkedList.InsertAt` returns a boolean where the code returns `null` for a rejected index and `undefined` otherwise.
