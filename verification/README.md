# Verified model of four algorithm modules

This project models, in Dafny, the core of a small C++ collection of algorithms:

- **the AVL tree** of `search/avl.h`: a self-balancing binary search tree with cached heights, a `size_t` element counter, rotations, and insertion and removal that rebalance;
- **the four in-place array sorts** of `sorts/main.cpp`: insertion sort, heap sort, quick sort (median-of-three pivot, Lomuto partition) and merge sort (two-element base case, merge through temporary copies);
- **the Levenshtein distance** of `levenshtein_distance/main.cpp`: the distance table, the operation table with its tie-break order, and the backtrace that reports the edits;
- **the chained hash table** of `search/hash.h`: the integer and string hash functions, bucket-prepend insertion, chain search, and the search wrapper whose table persists across calls.

Layout, one Dafny module per file:

| file | module | models |
|---|---|---|
| `common.dfy` | `Common` | `Result`, the `size_t` range and its wrap-around, sortedness and multiset helpers |
| `avl.dfy` | `Avl` | the private node operations of `avl::tree` |
| `avl_tree.dfy` | `AvlTree` | the public container, with its counter |
| `avl_scenarios.dfy` | `AvlScenarios` | the small cases of the test file, for any values in the right order |
| `sort_basics.dfy` | `SortBasics` | `std::swap` on an array, and slice bookkeeping |
| `insertion_sort.dfy` | `InsertionSort` | `InsertionSort::sort`, as written and as intended |
| `heap_sort.dfy` | `HeapSort` | `HeapSort::sort` and `heapify` |
| `quick_sort.dfy` | `QuickSort` | `QuickSort::sort`, `quicksort`, `partition`, `median_of_three` |
| `merge_sort.dfy` | `MergeSort` | `MergeSort::sort`, `mergesort`, `merge` |
| `levenshtein.dfy` | `Levenshtein` | `levenshtein_distance` |
| `hash.dfy` | `Hash` | `HashFunction`, `HashTable`, `HashSearch` |

The element type `T` of the templates is `int`, which is how every caller instantiates the AVL tree and the sorts. An array is a `seq<int>`, and each in-place sort is a method that returns the rearranged sequence. Sub-range operations (`partition`, `merge`, `heapify`) state what they do to their range and that every position outside it is unchanged (`SortBasics.SameOutside`).

An AVL subtree is an immutable datatype `Avl.Node = Nil | Node(value, left, right, height)`. Each pointer-moving operation returns the restructured subtree. `Avl.Height` is the null-aware `height` (source lines 26-28), `Avl.Difference` the balance factor (lines 30-32), and `Avl.Inorder` the in-order traversal (lines 133-140). The ordering invariant is the weak one, left <= node <= right: equal values are routed left on insertion, but a rotation can carry an equal value to the right (`AvlScenarios.EqualValuesRotatedRight`).

In the Levenshtein model the distance table is defined row by row (`Levenshtein.Row`), and `Levenshtein.Mat(a, b, i, j)` is cell `j` of row `i`. A reported edit is an `Edit` value rather than a printed line, and `Levenshtein.ApplyEdits` gives the edits a meaning: applied to the first string in the order they are reported, they yield the second.

The hash table is generic in its element type and takes the hash function as a parameter, as the `HashFunc` template parameter does. A chain is a `seq` listed head first.

## Model

| member | source | states |
|---|---|---|
| Common.SizeInc | search/avl.h:158 | incrementing a `size_t` wraps from the largest value to 0 and otherwise adds one |
| Common.SizeDec | search/avl.h:165 | decrementing a `size_t` wraps from 0 to the largest value and otherwise subtracts one |
| Avl.Height | search/avl.h:26-28 | -1 for an absent subtree, otherwise the node's cached height; with correct cached heights this is the height of the shape (`Avl.CachedHeightIsShapeHeight`) and at least 0 for a node (`Avl.HeightLowerBound`) |
| Avl.Difference | search/avl.h:30-32 | the left child's height minus the right child's; `Avl.Balanced` keeps it between -1 and 1 at every node, `Avl.BalanceRestores` brings it back there, and `Avl.BalanceKeepsAvl` leaves it there |
| Avl.Inorder | search/avl.h:133-140 | the left subtree's values, then the node's, then the right subtree's; the rotations, `Balance`, `Insert` and `Remove` are stated through it, and `Avl.OrderedNode` ties its sortedness to the per-node order |
| Avl.OrderedNode | search/avl.h:97-101 | a node is ordered exactly when both children are, everything on its left is at most its value and everything on its right at least |
| Avl.CachedHeightIsShapeHeight | search/avl.h:26-28 | with correct cached heights, the height read from a node is the length of the longest downward path (-1 for an absent subtree) |
| Avl.HeightLowerBound | search/avl.h:26-28 | with correct cached heights, a present node has height at least 0 and an absent one -1 |
| Avl.Reheight | search/avl.h:34-36 | the node's height becomes one more than its larger child's height; its value and both children stay the same, so the in-order sequence is unchanged; balance carries over, and height-correctness holds once both children are height-correct |
| Avl.Min | search/avl.h:38-43 | an empty subtree is an error; otherwise the result is the first in-order value, at most every value when the subtree is ordered |
| Avl.Max | search/avl.h:45-50 | an empty subtree is an error; otherwise the result is the last in-order value, at least every value when the subtree is ordered |
| Avl.RRotate | search/avl.h:52-60 | a right rotation keeps the in-order sequence; the left child's value becomes the root with its left subtree kept, and the old root moves down to the right, taking the left child's right subtree as its left and keeping its own right subtree; the two moved nodes' heights are recomputed |
| Avl.LRotate | search/avl.h:62-70 | a left rotation keeps the in-order sequence; the right child's value becomes the root with its right subtree kept, and the old root moves down to the left, keeping its own left subtree and taking the right child's left subtree as its right; the two moved nodes' heights are recomputed |
| Avl.Balance | search/avl.h:72-90 | rebalancing keeps the in-order sequence and leaves every cached height correct |
| Avl.BalanceRestores | search/avl.h:72-90 | with AVL children whose heights differ by at most two, the result is AVL and its height is the larger child height or one more, exactly one more when no rotation is needed |
| Avl.LeftLeftCase | search/avl.h:75-79 | a left-heavy node whose left child is not right-heavy becomes AVL after one right rotation |
| Avl.LeftRightCase | search/avl.h:76-79 | a left-heavy node whose left child is right-heavy becomes AVL after a left then a right rotation, with the left child's height |
| Avl.RightRightCase | search/avl.h:81-85 | a right-heavy node whose right child is not left-heavy becomes AVL after one left rotation |
| Avl.RightLeftCase | search/avl.h:82-85 | a right-heavy node whose right child is left-heavy becomes AVL after a right then a left rotation, with the right child's height |
| Avl.BalanceKeepsAvl | search/avl.h:87-89 | on a subtree that is already AVL, `balance` changes nothing |
| Avl.Insert | search/avl.h:92-104 | insertion always yields a node with correct heights whose values are the old ones plus `v` |
| Avl.InsertKeepsAvl | search/avl.h:92-104 | insertion into an AVL subtree yields an AVL subtree whose height grows by at most one |
| Avl.GrownChildRebalanced | search/avl.h:97-103 | rebalancing a node after one child grew by at most one level yields an AVL subtree at most one level taller |
| Avl.InsertKeepsOrder | search/avl.h:92-104 | insertion into an ordered subtree keeps it ordered |
| Avl.AddedOnLeftOrdered | search/avl.h:97-98 | adding a value at most the node's to the left child keeps the node ordered |
| Avl.AddedOnRightOrdered | search/avl.h:99-100 | adding a value above the node's to the right child keeps the node ordered |
| Avl.Remove | search/avl.h:106-131 | removal keeps every cached height correct |
| Avl.RemoveKeepsAvl | search/avl.h:106-131 | removal from an AVL subtree yields an AVL subtree whose height drops by at most one |
| Avl.ShrunkChildRebalanced | search/avl.h:111-117 | rebalancing a node after one child shrank by at most one level yields an AVL subtree at most one level shorter |
| Avl.RemoveKeepsOrder | search/avl.h:106-131 | removal from an ordered subtree keeps it ordered and takes exactly one occurrence of `v` out of its values (none if absent) |
| Avl.SplicedOut | search/avl.h:120-125 | a matching node with at most one child is replaced by that child, which is ordered and holds the other values |
| Avl.RemovedOnLeft | search/avl.h:111-114 | removing a smaller value from the left child removes it from the node and keeps it ordered |
| Avl.RemovedOnRight | search/avl.h:115-118 | removing a larger value from the right child removes it from the node and keeps it ordered |
| Avl.SuccessorMoved | search/avl.h:126-130 | replacing a two-child node's value by the right subtree's minimum, removed from there, keeps the node ordered and removes exactly the old value |
| Avl.RemoveAbsent | search/avl.h:106-131 | removing a value an ordered AVL subtree does not hold returns the subtree unchanged |
| Avl.DescendStep | search/avl.h:178-185 | in an ordered subtree, a value below (above) the node's is present exactly when it is present in the left (right) child |
| Avl.Contains | search/avl.h:176-187 | the loop finds only present values, and on an ordered tree it finds `v` exactly when `v` is stored |
| AvlTree.New | search/avl.h:143 | a new tree is valid, empty and has counter 0 |
| AvlTree.TreeHeight | search/avl.h:145-150 | -1 for an empty tree, otherwise the root's cached height; on a valid tree this is the height of the shape, and it is -1 exactly when the tree is empty |
| AvlTree.Length | search/avl.h:152-154 | the counter, which can differ from the number of stored values (`AvlScenarios.CounterDrifts`) and after n inserts into a tree whose counter was c is c + n while that stays below 2^64 (`AvlTree.CountAfterInserts`) |
| AvlTree.TreeInorder | search/avl.h:169-174 | the result is empty exactly when the root is null, and the in-order values of a valid tree are sorted |
| AvlTree.HeightIsShapeHeight | search/avl.h:145-150 | the public height is the shape height, and is -1 exactly for an empty tree |
| AvlTree.TreeInsert | search/avl.h:156-159 | insertion keeps the tree valid, adds `v` to its values and increments the counter with `size_t` wrap-around |
| AvlTree.InsertAll | search/avl.h:156-159 | repeated insertion keeps the tree valid and adds every inserted value |
| AvlTree.InsertThenContains | search/avl.h:156-159 | after `insert(v)` the tree holds `v` |
| AvlTree.InsertionPoint | search/avl.h:97-101 | the position in a sorted sequence after every element at most `v` and before every larger one |
| AvlTree.InsertedSequence | search/avl.h:156-159 | insertion places `v` at its sorted position in the in-order sequence and changes nothing else |
| AvlTree.SortedWhole | search/avl.h:169-174 | both halves of the sorted in-order sequence are sorted |
| AvlTree.TreeRemove | search/avl.h:161-167 | removal keeps the tree valid and removes one occurrence of `v`; an absent value leaves the nodes alone; the counter drops (wrapping) exactly when the result is non-empty |
| AvlTree.RemovedSequence | search/avl.h:161-167 | removing a stored value deletes exactly one occurrence from the in-order sequence, leaving the rest in order |
| AvlTree.SortedDrop | search/avl.h:120-130 | dropping the middle element of a sorted sequence keeps it sorted |
| AvlTree.RemoveAbsentDecrements | search/avl.h:161-167 | removing an absent value from a non-empty tree keeps every node but still decrements the counter |
| AvlTree.RemoveLastKeepsCount | search/avl.h:161-167 | removing the only value empties the tree but keeps the counter |
| AvlTree.CountAfterInserts | search/avl.h:152-159 | without removals and below the `size_t` limit, `length()` is the number of insertions |
| AvlTree.TreeContains | search/avl.h:176-187 | on a valid tree, `contains(v)` holds exactly when `v` is stored |
| AvlTree.Clear | search/avl.h:189-191 | `clear()` empties the tree, makes its height -1 and leaves the counter as it was |
| AvlScenarios.LeafValid | search/test/test_avl.cpp:18-24 | a single node is a valid ordered subtree holding its value |
| AvlScenarios.LeftPairValid | search/test/test_avl.cpp:26-30 | a node with a smaller-or-equal left leaf is a valid tree |
| AvlScenarios.RightPairValid | search/test/test_avl.cpp:38-42 | a node with a larger-or-equal right leaf is a valid tree |
| AvlScenarios.TrioValid | search/test/test_avl.cpp:74-88 | a root with two ordered leaves is a valid tree |
| AvlScenarios.InsertIntoEmpty | search/test/test_avl.cpp:18-21 | inserting into an empty tree makes a leaf and increments the counter |
| AvlScenarios.InsertIntoLeaf | search/test/test_avl.cpp:26-42 | a second value becomes the left child when at most the first, otherwise the right child |
| AvlScenarios.LeftLeftCase | search/test/test_avl.cpp:26-36 | inserting 3, 2, 1 (any descending values) yields the balanced three-node tree |
| AvlScenarios.RightRightCase | search/test/test_avl.cpp:38-48 | inserting 1, 2, 3 (any ascending values) yields the balanced three-node tree |
| AvlScenarios.LeftRightCase | search/test/test_avl.cpp:50-60 | inserting 3, 1, 2 yields the balanced three-node tree with 2 at the root |
| AvlScenarios.RightLeftCase | search/test/test_avl.cpp:62-72 | inserting 1, 3, 2 yields the balanced three-node tree with 2 at the root |
| AvlScenarios.RemoveRightOfTrio | search/test/test_avl.cpp:74-89 | removing the largest of three leaves the root with its left leaf, counter decremented |
| AvlScenarios.RemoveLeftOfTrio | search/test/test_avl.cpp:91-106 | removing the smallest of three leaves the root with its right leaf, counter decremented |
| AvlScenarios.RemoveRootOfTrio | search/test/test_avl.cpp:108-123 | removing the root of three moves its successor up, counter decremented |
| AvlScenarios.RemoveFromLeaf | search/test/test_avl.cpp:18-24 | removing the only value empties the tree and keeps the counter; removing another value keeps the leaf and decrements it |
| AvlScenarios.EqualValuesRotatedRight | search/avl.h:97-98 | three equal insertions rotate one copy into the root's right subtree |
| AvlScenarios.CounterDrifts | search/avl.h:161-167 | `length()` drifts from the number of values: it stays 1 on an empty tree, and reaches the largest `size_t` after removing an absent value when it was 0 |
| SortBasics.Swap | sorts/main.cpp:41 | swapping exchanges two positions, leaves every other position alone and permutes the array |
| SortBasics.SwapPermutes | sorts/main.cpp:41 | an exchange of two positions is a permutation |
| SortBasics.SwapInSlice | sorts/main.cpp:100 | a swap inside a slice permutes that slice |
| SortBasics.SliceGrows | sorts/main.cpp:165-170 | a slice extended by one element contains the shorter one |
| SortBasics.SliceToWhole | sorts/main.cpp:85-91 | permuting a slice and nothing else permutes the whole array |
| InsertionSort.ShiftAsWritten | sorts/main.cpp:16-22 | the inner loop with an unsigned index ends in bounds or with the index wrapped to the largest `size_t` |
| InsertionSort.SortFromAsWritten | sorts/main.cpp:14-24 | the outer loop as written keeps the length or fails at the wrapped index |
| InsertionSort.SortAsWritten | sorts/main.cpp:13-25 | `sort` as written keeps the length or fails at the wrapped index |
| InsertionSort.ShiftWraps | sorts/main.cpp:19-21 | when every element up to `j` exceeds the key, the unsigned index wraps and the next read is out of bounds |
| InsertionSort.FirstStepWraps | sorts/main.cpp:14-23 | any input whose second element is below its first fails at the wrapped index |
| InsertionSort.DemoDataWraps | sorts/main.cpp:211-219 | the program's own data, and `[2, 1]`, fail at the wrapped index |
| InsertionSort.ShiftInserts | sorts/main.cpp:16-23 | when the sorted prefix `[0, j]` starts at or below the key, the shift as written stops in bounds; the prefix with the key is then sorted and holds the prefix's elements plus the key, and the rest is untouched |
| InsertionSort.KeyAtHole | sorts/main.cpp:19-23 | when the guard stops at an element at most the key, writing the key into the hole extends the sorted prefix with the key |
| InsertionSort.ShiftedOnce | sorts/main.cpp:19-21 | moving an element above the key one place right and inserting the key into the shorter prefix inserts it into the whole prefix |
| InsertionSort.KeyBelowMoved | sorts/main.cpp:19-21 | the element moved right past the key is at least every element before it, so the extended prefix stays sorted and holds the same elements plus the key |
| InsertionSort.InsertedFacts | sorts/main.cpp:14-24 | one outer step keeps the array's elements, extends the sorted prefix by one, leaves the rest alone, and keeps `arr[0]` unless the key is below it |
| InsertionSort.SortFromSorts | sorts/main.cpp:14-24 | while no later element is below `arr[0]`, the outer loop as written never wraps and ends with a sorted permutation |
| InsertionSort.SortFromWraps | sorts/main.cpp:14-24 | if some later element is below `arr[0]`, the outer loop as written reaches the wrapped index |
| InsertionSort.AsWrittenSortsExactly | sorts/main.cpp:13-25 | `sort` as written finishes exactly when the first element is a least element of the array, and then the result is a sorted permutation of the input |
| InsertionSort.SortedInputAsWritten | sorts/main.cpp:14-24 | on sorted input the guard stops at once and the array is unchanged |
| InsertionSort.Sort | sorts/main.cpp:13-25 | with a signed index the result is a sorted permutation of the input |
| InsertionSort.Shift | sorts/main.cpp:16-22 | the shift moves every prefix element larger than the key one place right, stops at the first one at most the key (or before index 0), and leaves the rest alone |
| InsertionSort.ShiftStep | sorts/main.cpp:19-21 | moving an element above the key one place right and the hole one place left keeps the shift's state |
| InsertionSort.ShiftKeepsMultiset | sorts/main.cpp:20-21 | shifting one element right and moving the hole left keeps the multiset |
| InsertionSort.InsertedSorted | sorts/main.cpp:23 | dropping the key into the hole extends the sorted prefix by one |
| HeapSort.Heapify | sorts/main.cpp:49-71 | sifting down restores the heap property from the given parent on, permutes the heap and leaves everything outside it alone |
| HeapSort.SiftedSlices | sorts/main.cpp:65-70 | the swap with the larger child followed by the recursive sift permutes the heap below the parent |
| HeapSort.SwapDown | sorts/main.cpp:55-66 | swapping a parent with its larger child repairs that parent's edges and leaves at most the child's broken |
| HeapSort.HeapRootMax | sorts/main.cpp:38-43 | in a max-heap the root is at least every element |
| HeapSort.BuildHeap | sorts/main.cpp:34-36 | sifting down every parent from `size / 2 - 1` to 0 makes the array a max-heap permutation of the input |
| HeapSort.Sort | sorts/main.cpp:31-44 | the result is a sorted permutation of the input |
| HeapSort.ExtractStep | sorts/main.cpp:40-43 | each extraction puts the heap's maximum at the end of the shrinking heap, below the sorted suffix |
| QuickSort.CompareSwap | sorts/main.cpp:114-122 | after a compare-and-swap the first position holds at most the second, nothing else moves, and the elements are the same |
| QuickSort.OrderThree | sorts/main.cpp:111-122 | low, mid and high end up in order, no other position moves, and the elements are the same |
| QuickSort.OrderThreeInSlice | sorts/main.cpp:111-122 | ordering the three positions permutes `[low, high]` |
| QuickSort.MedianOfThree | sorts/main.cpp:110-127 | the pivot is the median of the three sampled values, placed at `high`, and `[low, high]` is permuted |
| QuickSort.Partition | sorts/main.cpp:94-108 | the pivot lands at the returned index, everything left of it is at most the pivot, everything right of it larger, and `[low, high]` is permuted |
| QuickSort.PartitionLoop | sorts/main.cpp:98-104 | the scan keeps everything before `i` at most the pivot and everything from `i` to the scan position above it, touching nothing outside the range |
| QuickSort.PartitionStart | sorts/main.cpp:95-97 | after `median_of_three` the pivot waits at `high`, both blocks are empty, and only the range has been rearranged |
| QuickSort.PartitionStep | sorts/main.cpp:99-102 | moving a small element into the small block keeps both blocks and the permutation |
| QuickSort.SkipLarge | sorts/main.cpp:99 | passing over an element above the pivot grows the large block |
| QuickSort.PivotPlaced | sorts/main.cpp:106-107 | the final swap puts the pivot between the two blocks |
| QuickSort.Quicksort | sorts/main.cpp:85-92 | a non-empty range is sorted and permuted, an empty one untouched, and nothing outside it changes |
| QuickSort.Combine | sorts/main.cpp:87-90 | sorting both sides of a partition sorts and permutes the whole range |
| QuickSort.JoinAround | sorts/main.cpp:87-90 | two sorted blocks around the pivot, each on its side of it, form a sorted range |
| QuickSort.LeftSide | sorts/main.cpp:89 | after sorting the left side it is still at most the pivot |
| QuickSort.RightSide | sorts/main.cpp:90 | after sorting the right side it is still above the pivot, and the pivot has not moved |
| QuickSort.Sort | sorts/main.cpp:77-82 | arrays of fewer than two elements are returned as they are; the result is always a sorted permutation |
| MergeSort.TakeLeft | sorts/main.cpp:176-178 | when the left head is at most the right head (or the right run is spent), the merge starts with the left head |
| MergeSort.TakeRight | sorts/main.cpp:179-181 | when the right head is smaller (or the left run is spent), the merge starts with the right head |
| MergeSort.MergeFromPermutes | sorts/main.cpp:175-198 | the merge holds exactly the remaining elements of both runs |
| MergeSort.SuffixSplit | sorts/main.cpp:187-191 | a non-empty suffix is its head plus the next suffix |
| MergeSort.MergeFromSorted | sorts/main.cpp:175-198 | merging what remains of two sorted runs gives a sorted sequence |
| MergeSort.HeadBelowRest | sorts/main.cpp:176 | a value at most both remaining heads is at most the whole remaining merge |
| MergeSort.AtLeastOfUnion | sorts/main.cpp:176 | a lower bound of both runs bounds any arrangement of them |
| MergeSort.SortedSuffix | sorts/main.cpp:151-152 | a suffix of a sorted run is sorted |
| MergeSort.SortedCons | sorts/main.cpp:177 | a value at most every element of a sorted sequence can go in front of it |
| MergeSort.MergeSpecCorrect | sorts/main.cpp:157-199 | the merge of two sorted runs is a sorted permutation of both |
| MergeSort.WriteNext | sorts/main.cpp:176-182 | writing the value taken from one run at `k` and advancing that run keeps the loop state: the prefix holds the start of the merge, the rest of the merge is what remains of both runs, nothing outside the range changes |
| MergeSort.TakeHead | sorts/main.cpp:182 | taking the head of the remaining merge leaves its tail |
| MergeSort.Merge | sorts/main.cpp:157-199 | the range becomes the stable merge of its two runs, and nothing outside it changes |
| MergeSort.MergeHeads | sorts/main.cpp:172-184 | the first loop writes the merge until one run is spent |
| MergeSort.CopyLeftRest | sorts/main.cpp:186-191 | the second loop copies the rest of the left run and completes the merge of it |
| MergeSort.CopyRightRest | sorts/main.cpp:193-198 | the third loop copies the rest of the right run, completing the merge |
| MergeSort.Mergesort | sorts/main.cpp:138-155 | a non-empty range is sorted and permuted, an empty one untouched, a pair swapped only when out of order, and nothing outside it changes |
| MergeSort.SortPair | sorts/main.cpp:142-146 | the two-element base case swaps exactly when the first is larger, leaving the pair sorted |
| MergeSort.MergeSorted | sorts/main.cpp:151-154 | merging the two sorted halves sorts and permutes the whole range |
| MergeSort.Sort | sorts/main.cpp:133-135 | the result is a sorted permutation, the empty array included |
| Levenshtein.Min3Bounds | levenshtein_distance/main.cpp:64-69 | the minimum of three costs is one of them and at most each |
| Levenshtein.Choose | levenshtein_distance/main.cpp:57-72 | the chosen pair carries the minimum cost and a real operation |
| Levenshtein.ChooseFirstMinimum | levenshtein_distance/main.cpp:64-69 | only a strictly smaller cost replaces the current choice, so ties go to DELETE, then INSERT, then SUBSTITUTE |
| Levenshtein.Cost | levenshtein_distance/main.cpp:54 | the substitution cost is 0 exactly when the two bases are equal, and 1 otherwise |
| Levenshtein.TopRow | levenshtein_distance/main.cpp:49 | row 0 holds `0, 1, ..., len_b` |
| Levenshtein.RowPrefix | levenshtein_distance/main.cpp:48-53 | a row starts with its own index, and the computed prefix has one cell per column so far |
| Levenshtein.Row | levenshtein_distance/main.cpp:44 | every row has `len_b + 1` cells |
| Levenshtein.RowPrefixStable | levenshtein_distance/main.cpp:53 | a cell, once computed, is not changed by later cells of its row |
| Levenshtein.MatRecurrence | levenshtein_distance/main.cpp:48-72 | the table holds `i` in column 0 and `j` in row 0, and each inner cell is the minimum of delete, insert and substitute costs |
| Levenshtein.OpAt | levenshtein_distance/main.cpp:45-72 | the operation is NONE exactly on the borders, and each recorded operation is one the cell's cost was computed from |
| Levenshtein.OpCell | levenshtein_distance/main.cpp:57-72 | the recorded operation is the tie-break winner among the three candidates |
| Levenshtein.CellStep | levenshtein_distance/main.cpp:54-72 | one cell of the fill loop extends the row by the recurrence's value and records the chosen operation |
| Levenshtein.FillRow | levenshtein_distance/main.cpp:53-73 | the inner loop produces row `i` of both tables from row `i - 1` |
| Levenshtein.Fill | levenshtein_distance/main.cpp:44-74 | the filled tables are the distance table and the operation table, cell for cell |
| Levenshtein.ApplyEdit | levenshtein_distance/main.cpp:83-93 | a delete shortens the string by one, an insert lengthens it by one, a substitution keeps its length |
| Levenshtein.DeleteStep | levenshtein_distance/main.cpp:82-86 | a DELETE, chosen or forced on the left border, reports one edit that keeps the trace consistent |
| Levenshtein.DeletedString | levenshtein_distance/main.cpp:83 | the reported delete removes base `i` of the first string |
| Levenshtein.InsertStep | levenshtein_distance/main.cpp:87-91 | an INSERT, chosen or forced on the top border, reports one edit that keeps the trace consistent |
| Levenshtein.InsertedString | levenshtein_distance/main.cpp:88 | the reported insert puts base `j` of the second string in place |
| Levenshtein.DiagonalCost | levenshtein_distance/main.cpp:92 | on a SUBSTITUTE cell the cost rises by one exactly when the bases differ, and stays equal exactly when they match |
| Levenshtein.MismatchStep | levenshtein_distance/main.cpp:92-95 | a diagonal step over different bases reports one substitution and keeps the trace consistent |
| Levenshtein.SubstitutedString | levenshtein_distance/main.cpp:93 | the reported substitution replaces base `i` of the first string by base `j` of the second |
| Levenshtein.MatchStep | levenshtein_distance/main.cpp:92-95 | a diagonal step over equal bases reports nothing and keeps the trace consistent |
| Levenshtein.BacktraceStep | levenshtein_distance/main.cpp:81-95 | one iteration moves up, left or diagonally, in the source's branch order, and keeps the trace consistent |
| Levenshtein.Backtrace | levenshtein_distance/main.cpp:77-96 | the backtrace reports exactly as many edits as the distance, and applying them turns the first string into the second |
| Levenshtein.Distance | levenshtein_distance/main.cpp:41-99 | the result is the table's corner; the reported edits number the distance and transform the first string into the second; an empty string is at the other's length |
| Levenshtein.MatBounds | levenshtein_distance/main.cpp:48-72 | the distance between prefixes is at least the difference and at most the larger of their lengths |
| Levenshtein.MatLowerBound | levenshtein_distance/main.cpp:48-72 | the distance between prefixes is at least the difference of their lengths |
| Levenshtein.MatUpperBound | levenshtein_distance/main.cpp:48-72 | the distance between prefixes is at most the longer length |
| Levenshtein.MatZeroIff | levenshtein_distance/main.cpp:48-72 | the distance between prefixes is 0 exactly when they are equal |
| Levenshtein.EqualPrefixesAtZero | levenshtein_distance/main.cpp:54-60 | equal prefixes are at distance 0 |
| Levenshtein.ZeroMeansEqual | levenshtein_distance/main.cpp:54-60 | prefixes at distance 0 are equal |
| Levenshtein.MatSymmetric | levenshtein_distance/main.cpp:48-72 | swapping the strings does not change any distance, though it swaps INSERT and DELETE |
| Levenshtein.DistanceProperties | levenshtein_distance/main.cpp:98 | the returned distance is 0 exactly for equal strings, and symmetric |
| Hash.HashInt | search/hash.h:14-17 | the bucket is below the table size: `value % size` for a non-negative key, and for a negative key that of `2^64 + value`, the key converted to `size_t` |
| Hash.NegativeIntHash | search/hash.h:16 | -1 hashes to bucket 15 of 100, not 1 |
| Hash.Step | search/hash.h:31-32 | one iteration keeps both running values below the prime; for a code of 0 or more nothing wraps, and the step adds `code * pow` modulo the prime |
| Hash.NoWrap | search/hash.h:31 | a non-negative code times a power below the prime, plus a hash below the prime, fits in 64 bits |
| Hash.Rolling | search/hash.h:28-33 | the running hash and power stay below the prime after any number of characters |
| Hash.HashString | search/hash.h:24-35 | the string hash is a bucket below the table size |
| Hash.HashStringLoop | search/hash.h:24-35 | the loop computes the rolling hash reduced to a bucket |
| Hash.Pow | search/hash.h:29-32 | `31^n` is positive |
| Hash.PolynomialHash | search/hash.h:24-35 | for characters from `'a' - 1` on, the hash is the polynomial `sum code(c_k) * 31^k` modulo `1e9 + 9`, and the power is `31^n` modulo the prime |
| Hash.StepIsPolynomial | search/hash.h:31-32 | one iteration extends the reduced polynomial and power by one term |
| Hash.ModLinear | search/hash.h:31-32 | reducing the running values modulo the prime first does not change the next reduced value |
| Hash.ModMultiple | search/hash.h:31 | adding a multiple of the prime does not change the remainder |
| Hash.NewTable | search/hash.h:60 | a new table has `size` empty chains and no contents |
| Hash.EmptyContents | search/hash.h:60 | empty chains hold nothing |
| Hash.ReplaceChain | search/hash.h:74-75 | replacing one chain changes the table's contents by exactly that chain's change |
| Hash.InContents | search/hash.h:55 | a value is in the table exactly when some chain holds it |
| Hash.Insert | search/hash.h:71-76 | insertion prepends the value to its own chain, leaves every other chain alone, adds one copy to the contents (duplicates kept) and preserves "every value sits in its own bucket" |
| Hash.InsertContents | search/hash.h:73-75 | prepending to a chain adds exactly one copy to the contents |
| Hash.InsertHashed | search/hash.h:72-75 | prepending a value to its own bucket keeps every value in its own bucket |
| Hash.Search | search/hash.h:78-88 | the walk finds the value exactly when its chain holds it, and so exactly when the table holds it if every value sits in its own bucket |
| Hash.InChain | search/hash.h:79-80 | when every value sits in its own bucket, a value is in its chain exactly when it is in the table |
| Hash.NewSearcher | search/hash.h:96 | a new searcher has `size` empty chains and no contents |
| Hash.HashSearch | search/hash.h:98-103 | the table keeps its earlier contents and gains every array element; the search succeeds exactly when the target was in an earlier array or is in this one |
| Hash.IntDemo | search/main.cpp:11-18 | with one searcher given the demonstration array twice, 10 is found and 7 is not |
| Hash.IntHash | search/hash.h:12-18 | the integer table's hash function is `HashInt` at the given size |
| Hash.StringHash | search/hash.h:22-36 | the string table's hash function is `HashString` at the given size |

## Left out

- Output: the `debug` printers of the Levenshtein program (levenshtein_distance/main.cpp lines 11-39, 75) and of the sorts, every `main`, and the printed wording of the backtrace. An `Edit` value stands for each printed line.
- Memory management: `std::unique_ptr` ownership, the `HashTable` destructor (search/hash.h lines 61-69) and `HashNode` allocation. None of them changes a value.
- AvlTree.TreeInorder: does not model the `result.reserve(size)` of `inorder()` (search/avl.h line 171) failing. The counter can drift from the number of stored values and wrap to a value near `SIZE_MAX` (see `AvlScenarios.CounterDrifts`). Once it exceeds `std::vector::max_size()`, `reserve` throws `std::length_error` and `inorder()` returns no values. The model always returns the in-order values.
- Templates: `T` is `int` for the AVL tree and the sorts, the instantiation every caller uses. The hash table is generic, with the hash function as a parameter.
- `search.h`, the `ISearch` interface, is not part of this model.
- AvlTree.CountAfterInserts: states the counter after a run of inserts only while it stays below 2^64. The wrap itself is stated per call, by `AvlTree.TreeInsert` through `SizeInc`.
- Avl.Balance: the AVL bound on the height, logarithmic in the number of nodes, is not stated. The model proves the per-node balance invariant that implies it.
- Levenshtein.Fill: the column-0 loop (line 48) is merged into each row. Row `i` starts with `i`, so the tables are the same.
- Levenshtein.Edit: `InsertBase` also carries the row index `i` at which it is reported. The source prints only `j`.
- Levenshtein.Distance: the table sizes are `size_t` and the loop indices `int` (`auto i = 0`), so strings longer than `2^31 - 1` are not modelled.
- The sorts' variable-length arrays (`T L[lsize]`) and the `size_t` to `int` narrowing in `HeapSort::sort` and `QuickSort::quicksort` are not modelled. Arrays longer than `2^31 - 1` are out of scope.
- Hash.HashInt: a table of size 0 (a division by zero in the source) is excluded by the `PosSize` type.
- Hash.Step: `char` is taken to be signed. Where it is unsigned, bytes above 127 behave like large positive codes, and the model's wrapping formula covers only the signed range.
- Hash.PolynomialHash: states the polynomial form only for characters whose code `c - 'a' + 1` is at least 0. Below `'a' - 1` the negative code is converted to `unsigned long` and wraps. `Step` models that wrap exactly, but no closed form is given for it.
- Hash.HashSearch: requires that every value already in the table sits in its own bucket for the given hash. A searcher made by `NewSearcher` and updated only by `HashSearch` with one hash function keeps this.

## Findings

| source | as written | input that shows it | evidently intended | confidence | as-written member | corrected member |
|---|---|---|---|---|---|---|
| sorts/main.cpp:16-23 | the inner index `j` is a `size_t`, so `j >= 0` always holds; when the key is smaller than every earlier element, `j` wraps from 0 to the largest `size_t` and `arr[j]` is read out of bounds | `[2, 1]`, the program's own data `{64, 34, 25, 12, 22, 11, 90}`, and in general every input whose first element is not a least element (`InsertionSort.AsWrittenSortsExactly`) | a signed index, so the shift stops before index 0 and the key lands at position 0 | not executed | InsertionSort.FirstStepWraps | InsertionSort.Sort |
