# rust-algorithm-club in Dafny

A model of the data structures and algorithms of the rust-algorithm-club
repository, with their promised properties proved:

- three n-ary mutable trees: the index arena (`idtree`), the `Cell` arena
  (`arena_tree`) and the reference-counted tree (`rctree`). All three share one
  abstract picture: a map from node to its five links, a well-formedness
  predicate tying the links to a children list per node, and a rank that makes the
  tree acyclic;
- the binary heap and the priority queue over it, the FIFO queue with compaction,
  and the stack;
- the binary search tree, the segment tree, union-find, the trie and the bitset;
- Huffman coding: the bit writer and reader, the frequency table, the tree
  build, and compression and decompression;
- the adjacency-list and adjacency-matrix graphs with BFS and DFS;
- merge sort, quick sort, quickselect, selection sort, insertion sort, binary
  search and occurrence counting.

The main theorem is `HuffmanCoding.RoundTrip`: for every non-empty byte string,
decompressing with a fresh instance what `compress_data` produced, under the
frequency table it reported, returns the original bytes. `HuffmanCoding.DecodeEncode`
carries the proof.

Every operation that changes state is a method over a class (or an array) whose
`ensures` ties the new state to a function of the old one. The properties the
source promises are proved about those functions as lemmas. Some operations have
a bug that the proofs expose. For those, the model keeps the code as written
beside a corrected version, and "## Findings" lists both.

Files: `wrappers.dfy` and `seqs.dfy` (Option and sequence helpers). The trees use
`tree_shape.dfy` (the picture, well-formedness and the traversal),
`tree_walk.dfy` (the link walks and the search), `tree_edit.dfy` (detach and
splice on the picture) and `tree_attach.dfy` (the shared write sequences);
`arena_tree.dfy`, `idtree.dfy` and `rctree.dfy` model the three trees, and
`tree_scenario.dfy` states the trees' test scenarios. Every other module has one
file named after its source directory; Huffman coding is split into
`huffman_bits.dfy`, `huffman_tree.dfy` and `huffman_coding.dfy`, and the graphs
into `graph.dfy`, `graph_list.dfy` and `graph_matrix.dfy`.

## Model

The functions listed next have no row of their own because they are reference definitions: the rows' contracts are stated in terms of them, and the lemmas in the table prove what they mean. Trie.Trie.WordsCount has no row either: it reads the count field, whose value the rows for Trie.Trie.Insert and Trie.Trie.Remove state. The reference definitions are BSearchTree.BSearchTree.Height and BSearchTree.BSearchTree.Contains; QuickSort.PartitionFrom, QuickSort.QuickSorted and QuickSort.QuickSortAsWritten; KthSmallest.Selected, KthSmallest.SelectPivoted, KthSmallest.KthSmallestOf and KthSmallest.PartitionOf; HuffmanTree.Counted, HuffmanTree.Queued, HuffmanTree.Merge, HuffmanTree.Merged, HuffmanTree.Built, HuffmanTree.FrequencyTbl and HuffmanTree.Restored; and HuffmanCoding.Follow, HuffmanCoding.Encode and HuffmanCoding.Decode.

| member | source | states |
|---|---|---|
| Stack.PopOf | src/stack/mod.rs:24-26 | `Vec::pop` on the contents: `None` exactly on the empty vector (which stays as it is), otherwise the last element and the rest |
| Stack.TopOf | src/stack/mod.rs:28-34 | `top` yields the element `pop` would yield, without removing it |
| Stack.Stack.constructor | src/stack/mod.rs:7-11 | a new stack is empty |
| Stack.Stack.IsEmpty | src/stack/mod.rs:12-14 | true exactly when the stack holds nothing |
| Stack.Stack.Len | src/stack/mod.rs:16-18 | the length is 0 exactly when `is_empty` holds |
| Stack.Stack.Push | src/stack/mod.rs:20-22 | the value is appended at the top |
| Stack.Stack.Pop | src/stack/mod.rs:24-26 | result and new contents are those of `PopOf` on the old contents |
| Stack.Stack.Top | src/stack/mod.rs:28-34 | returns `TopOf` of the contents and changes nothing |
| Stack.Stack.Next | src/stack/mod.rs:37-42 | the iterator step is a pop |
| Stack.EmptyStack | src/stack/mod.rs:24-34 | popping or reading the top of an empty stack gives `None` |
| Stack.PushPop | src/stack/mod.rs:20-34 | a pop right after a push returns the pushed value and restores the old contents; the length grows by one |
| Stack.PopShrinks | src/stack/mod.rs:24-26 | a pop of a non-empty stack shortens it by one |
| Stack.Drain | src/stack/mod.rs:37-42 | iterating the stack to the end yields the contents in reverse (LIFO) order and leaves it empty |
| Queue.Values | src/queue/mod.rs:1-4 | the logical contents are the values held by the slots from `head` on, in order |
| Queue.Queue.constructor | src/queue/mod.rs:7-12 | a new queue is empty, with head 0 |
| Queue.Queue.Count | src/queue/mod.rs:18-20 | `count` is the number of slots after the head, which is the length of the contents |
| Queue.Queue.IsEmpty | src/queue/mod.rs:14-16 | true exactly when the contents are empty |
| Queue.Queue.Enqueue | src/queue/mod.rs:22-24 | the value joins the back; head and earlier slots stay |
| Queue.Queue.Dequeue | src/queue/mod.rs:26-40 | `None` and no change on an empty queue; otherwise the front value, contents minus their first element, and either the head slot emptied and the head advanced, or (more than 50 slots, head past a quarter) the consumed prefix drained and head 0 |
| Queue.Queue.Front | src/queue/mod.rs:44-50 | the first element of the contents, or `None` when empty |
| Queue.DropPrefix | src/queue/mod.rs:33-37 | draining the consumed slots and resetting the head to 0 keeps the logical contents |
| Queue.DequeueAll | src/queue/mod.rs:26-40 | dequeuing until `None` returns the contents in FIFO order and empties the queue |
| SelectionSort.Lowest | src/selection_sort/mod.rs:5-10 | the inner loop finds the first position of a smallest element of the suffix |
| SelectionSort.SwapLowest | src/selection_sort/mod.rs:11-13 | swapping that element into place extends the sorted prefix and keeps the multiset |
| SelectionSort.SelectionSort | src/selection_sort/mod.rs:1-16 | the result is sorted and a permutation of the input |
| InsertionSort.SwapDown | src/insertion_sort/mod.rs:8 | swapping neighbours `y-1`, `y` keeps the multiset and every other position |
| InsertionSort.SwapSinking | src/insertion_sort/mod.rs:7-10 | one step of the inner loop keeps the element sinking through an ordered prefix |
| InsertionSort.SwapStable | src/insertion_sort/mod.rs:7-10 | a swap happens only when `sort(a[y], a[y-1])`, so elements the comparator does not separate keep their relative order |
| InsertionSort.SinkDown | src/insertion_sort/mod.rs:5-10 | one pass of the outer loop: element `idx` is swapped down; the array stays a permutation of the input with equal elements kept in order, and for a strict weak order the prefix through `idx` ends sorted |
| InsertionSort.SinkDone | src/insertion_sort/mod.rs:7-10 | when the inner loop stops, the prefix up to `idx` is ordered |
| InsertionSort.InsertionSort | src/insertion_sort/mod.rs:1-12 | for any comparator the result is a permutation of the input that keeps equal elements in order; for a strict weak order it is sorted |
| InsertionSort.IntLess | src/insertion_sort/mod.rs:19-26 | `<` on integers is a strict weak order, and sorting by it means ascending order |
| BinarySearch.Search | src/binary_search/mod.rs:1-14 | an empty range gives `None`; an index returned lies in `[left, right)` and holds `key`; on sorted input `None` means `key` is absent from the range |
| BinarySearch.SearchFinds | src/binary_search/mod.rs:1-14 | on sorted input the search succeeds exactly when `key` occurs in the range |
| BinarySearch.Search2 | src/binary_search/mod.rs:16-30 | the loop returns what the recursive search of `[0, len)` returns, with the same two guarantees |
| BinarySearch.PrimesSearched | src/binary_search/mod.rs:37-42 | the test's primes: 43 is found at 13, 7 at 3, 14 not at all |
| CntOccurrences.Middle | src/cnt_occurrences/mod.rs:7 | the midpoint lies in `[low, high)` |
| CntOccurrences.LowFrom | src/cnt_occurrences/mod.rs:2-15 | the lower bound search stays inside its range |
| CntOccurrences.HighFrom | src/cnt_occurrences/mod.rs:17-30 | the upper bound search stays inside its range |
| CntOccurrences.LowFromBounds | src/cnt_occurrences/mod.rs:2-15 | on sorted input the element before the result is below `key` and the element at it is not |
| CntOccurrences.HighFromBounds | src/cnt_occurrences/mod.rs:17-30 | on sorted input the element before the result is at most `key` and the element at it is above |
| CntOccurrences.LowBeforeHigh | src/cnt_occurrences/mod.rs:32 | the lower bound never exceeds the upper bound, so the subtraction cannot underflow |
| CntOccurrences.LowIdx | src/cnt_occurrences/mod.rs:2-15 | the closure's loop computes the lower bound: the first index whose element is `>= key`, or `len` |
| CntOccurrences.HighIdx | src/cnt_occurrences/mod.rs:17-30 | the closure's loop computes the upper bound: the first index whose element is `> key`, or `len` |
| CntOccurrences.LowFromSorted | src/cnt_occurrences/mod.rs:2-15 | on sorted input everything before the lower bound is `< key`, everything from it on `>= key` |
| CntOccurrences.HighFromSorted | src/cnt_occurrences/mod.rs:17-30 | on sorted input everything before the upper bound is `<= key`, everything from it on `> key` |
| CntOccurrences.CountBetween | src/cnt_occurrences/mod.rs:32 | when `key` fills exactly `[low, high)`, it occurs `high - low` times |
| CntOccurrences.OccurrencesCounted | src/cnt_occurrences/mod.rs:32 | on sorted input, upper minus lower bound is the number of occurrences of `key` |
| CntOccurrences.CntOccurrences | src/cnt_occurrences/mod.rs:1-33 | the result is the difference of the bounds, and on sorted input the number of occurrences (0 for an absent key) |
| Heap.ParentIndex | src/heap/mod.rs:5-8 | for `idx > 0` the parent lies before `idx`, and `idx` is its left or right child |
| Heap.LChildIndex | src/heap/mod.rs:10-12 | the left child lies after `idx` and has `idx` as parent |
| Heap.RChildIndex | src/heap/mod.rs:14-16 | the right child follows the left child and has `idx` as parent |
| Heap.First | src/heap/mod.rs:30-39 | the larger of parent and children in range (left child first, ties keep the earlier) |
| Heap.FirstIsLargest | src/heap/mod.rs:30-39 | a child chosen is strictly above the parent and not below the other child; when the parent stays, no child is above it |
| Heap.SiftDownOrders | src/heap/mod.rs:27-46 | sifting down a node whose subtrees are heaps makes its subtree a heap |
| Heap.SiftDownPerm | src/heap/mod.rs:27-46 | sifting down only permutes the elements |
| Heap.SiftUpOrders | src/heap/mod.rs:48-59 | sifting up the only misplaced element restores the heap order |
| Heap.SiftUpPerm | src/heap/mod.rs:48-59 | sifting up only permutes the elements |
| Heap.RootIsMax | src/heap/mod.rs:93-99 | in a heap no element has a larger key than the root |
| Heap.RootAboveAll | src/heap/mod.rs:93-99 | the same over the multiset of elements |
| Heap.BuildFromHeap | src/heap/mod.rs:83-89 | the bottom-up sifts from the middle down to 0 give a heap with the same elements |
| Heap.BuildHeapSound | src/heap/mod.rs:83-89 | `build_heap` gives a heap holding exactly the input |
| Heap.RemoveSound | src/heap/mod.rs:67-77 | swap root and last, pop, sift down: a heap holding the old elements minus the root, which had the largest key |
| Heap.InsertSound | src/heap/mod.rs:61-65 | push then sift up: a heap holding the old elements plus the value |
| Heap.BuildFromStep | src/heap/mod.rs:85-88 | one iteration of the `build_heap` loop, index `len/2 - 1 - i` |
| Heap.Heap.constructor | src/heap/mod.rs:79-81 | `new`: an empty heap |
| Heap.Heap.WithArray | src/heap/mod.rs:101-107 | `with_array`: a heap built by `build_heap` from a copy of the items, with exactly their elements |
| Heap.Heap.Count | src/heap/mod.rs:19-21 | the number of elements |
| Heap.Heap.IsEmpty | src/heap/mod.rs:23-25 | true exactly when there are no elements |
| Heap.Heap.ShiftDown | src/heap/mod.rs:27-46 | the loop computes the sift-down function |
| Heap.Heap.ShiftUp | src/heap/mod.rs:48-59 | the loop computes the sift-up function |
| Heap.Heap.Insert | src/heap/mod.rs:61-65 | the new vector is the sift-up of the old one plus the value; still a heap, elements plus the value |
| Heap.Heap.Remove | src/heap/mod.rs:67-77 | `None` exactly on the empty heap; otherwise the old root, which has the largest key, and a heap holding the rest |
| Heap.Heap.BuildHeap | src/heap/mod.rs:83-89 | the loop computes the bottom-up build function |
| Heap.Heap.Peek | src/heap/mod.rs:93-99 | the root (a largest element) or `None` when empty; nothing changes |
| Heap.RemoveAll | src/heap/test.rs:1-94 | removing until `None` yields every element, keys non-increasing, and empties the heap |
| PriorityQueue.PriorityQueue.constructor | src/priority_queue/mod.rs:24-28 | `new`: an empty queue over a fresh heap |
| PriorityQueue.PriorityQueue.IsEmpty | src/priority_queue/mod.rs:8-10 | true exactly when the queue holds nothing |
| PriorityQueue.PriorityQueue.Count | src/priority_queue/mod.rs:12-14 | the number of elements |
| PriorityQueue.PriorityQueue.Enqueue | src/priority_queue/mod.rs:16-18 | the heap insert: elements plus the value |
| PriorityQueue.PriorityQueue.Dequeue | src/priority_queue/mod.rs:20-22 | `None` exactly when empty; otherwise an element of largest priority, removed once |
| PriorityQueue.PriorityQueue.Peek | src/priority_queue/mod.rs:32-34 | an element of largest priority, or `None` when empty |
| PriorityQueue.DequeueAll | src/priority_queue/test.rs:1-99 | dequeuing until `None` yields every element with priorities non-increasing |
| PriorityQueue.PrioritiesDetermined | src/priority_queue/test.rs:1-99 | any two orders in which a queue can release the same elements have the same priority sequence (so the tests' expected orders follow) |
| MergeSort.MergeFromIs | src/merge_sort/mod.rs:19-40 | the three merge loops of one pair of runs write `Merge` of the two runs into the destination from `idx` on |
| MergeSort.MergeRuns | src/merge_sort/mod.rs:12-40 | the loops merge the runs `[i, i+width)` and `[i+width, i+2*width)` of the source buffer into the destination, as `MergeFrom` computes |
| MergeSort.MergePass | src/merge_sort/mod.rs:9-43 | one pass of the inner `while i < n` loop writes the merge of every pair of runs, as `PassFrom` computes |
| MergeSort.PassOnIs | src/merge_sort/mod.rs:11-43 | a pass that has reached `i` has written the destination up to `i` and leaves the rest to the following pairs |
| MergeSort.MergePerm | src/merge_sort/mod.rs:19-40 | merging two runs keeps every element |
| MergeSort.MergeSortedRuns | src/merge_sort/mod.rs:19-40 | merging two sorted runs gives a sorted run |
| MergeSort.PassFromRuns | src/merge_sort/mod.rs:11-43 | a pass over runs of `width` sorted elements leaves runs of `2*width` sorted elements |
| MergeSort.PassFromPerm | src/merge_sort/mod.rs:11-43 | a pass keeps the multiset of elements |
| MergeSort.PassesSorts | src/merge_sort/mod.rs:8-46 | the width-doubling passes end sorted and a permutation of the input |
| MergeSort.MergeSortedSorts | src/merge_sort/mod.rs:1-48 | `merge_sort`'s result has the input's length, is sorted by key and is a permutation of the input |
| MergeSort.ToVec | src/merge_sort/mod.rs:4 | `array.to_vec()`: a fresh buffer holding a copy of the input |
| MergeSort.MergeSort | src/merge_sort/mod.rs:1-48 | the two-buffer loop returns that result: sorted, a permutation, and the input itself when it has at most one element |
| MergeSort.MergeTieRight | src/merge_sort/mod.rs:20-26 | on equal keys the strict `<` takes the right run's element first |
| MergeSort.NotStable | src/merge_sort/mod.rs:20-26 | hence the sort is not stable: two elements with equal keys come out swapped |
| QuickSort.PartitionSound | src/quick_sort/mod.rs:9-19 | `partition` permutes the range, ends with the pivot at the returned index, everything before it at most the pivot and everything after it above |
| QuickSort.Partition | src/quick_sort/mod.rs:9-19 | the `for` loop computes that partition |
| QuickSort.QuickSortedSorts | src/quick_sort/mod.rs:1-7 | quicksort (with the underflow avoided) sorts the inclusive range `[low, high]`, permutes it and leaves everything outside it alone |
| QuickSort.QuickSortedWhole | src/quick_sort/mod.rs:1-7 | over the whole array the result is sorted and a permutation of the input |
| QuickSort.AsWrittenAgrees | src/quick_sort/mod.rs:1-7 | where the code as written does not panic it computes the same as the corrected quicksort |
| QuickSort.AsWrittenSorts | src/quick_sort/mod.rs:1-7 | so where it does not panic it sorts the range |
| QuickSort.AsWrittenPanics | src/quick_sort/mod.rs:4 | on a range from 0 whose pivot is below every other element, partition returns 0 and `p - 1` underflows |
| QuickSort.TwoOnePanics | src/quick_sort/mod.rs:4 | `[2, 1]` over `[0, 1]` is such an input |
| QuickSort.QuickSort | src/quick_sort/mod.rs:1-7 | the recursive method fails exactly where the code as written panics, and otherwise leaves the array as the as-written function computes |
| QuickSort.QuickSortFixed | src/quick_sort/mod.rs:1-7 | skipping the left recursion when the pivot is at 0, the method leaves the array as the corrected quicksort computes |
| KthSmallest.Middle | src/kth_smallest/mod.rs:13 | the midpoint lies in `[low, high]` |
| KthSmallest.GetPivot | src/kth_smallest/mod.rs:9-16 | the middle element is swapped to `high` and returned |
| KthSmallest.PartitionOfSound | src/kth_smallest/mod.rs:18-30 | partitioning around the middle element permutes the range and puts that element at the returned index, smaller-or-equal elements before and larger after |
| KthSmallest.Partition | src/kth_smallest/mod.rs:18-30 | the loop computes that partition |
| KthSmallest.PartitionAround | src/kth_smallest/mod.rs:21-29 | once the pivot is at `high`, the loop is quick_sort's partition |
| KthSmallest.SelectedSound | src/kth_smallest/mod.rs:32-45 | `select` only permutes, leaves the element at `order` in its sorted place and returns it |
| KthSmallest.Select | src/kth_smallest/mod.rs:32-45 | the recursive method computes `select` |
| KthSmallest.KthSmallest | src/kth_smallest/mod.rs:1-7 | `None` exactly where `assert!(k < len)` panics; otherwise `select` on a copy over the whole range |
| KthSmallest.PivotedRank | src/kth_smallest/mod.rs:32-45 | an element in its sorted place is the one a sorted permutation has at that index |
| KthSmallest.KthIsSortedAt | src/kth_smallest/mod.rs:1-7 | the k-th smallest is the element at index `k` of any sorted permutation of the input, duplicates counted |
| KthSmallest.KthIsQuickSortedAt | src/kth_smallest/mod.rs:52-83 | in particular it is the element at index `k` of quick_sort's result, as the tests compare |
| UnionFind.Root | src/union_find/mod.rs:35-43 | following parent links from an index reaches a self-parented root, of higher rank unless it is the index itself |
| UnionFind.CompressSound | src/union_find/mod.rs:35-43 | path compression keeps the forest and every index's root |
| UnionFind.LinkRoot | src/union_find/mod.rs:60-66 | linking root `a` under root `b` keeps a forest; indices of `a`'s set now reach `b`, all others keep their root |
| UnionFind.UnionMerges | src/union_find/mod.rs:54-69 | after the two finds and the link, the two values share a root and only their two sets were merged |
| UnionFind.Grown | src/union_find/mod.rs:60-66 | the winner's size becomes the sum of both sizes; no other size changes |
| UnionFind.AddRoots | src/union_find/mod.rs:19-24 | a new index is its own root and every old index keeps its root |
| UnionFind.AddSizes | src/union_find/mod.rs:19-24 | a new singleton set of size 1 keeps the sizes counting the members of each set |
| UnionFind.SameRootsSizes | src/union_find/mod.rs:26-43 | finds, which only compress, keep the sizes counting the sets |
| UnionFind.UnionSizes | src/union_find/mod.rs:54-69 | a union of two distinct sets keeps the sizes counting the sets |
| UnionFind.SelfUnionDoubles | src/union_find/mod.rs:60-66 | a union of two values of the same set links the root to itself and doubles its size, which then no longer counts the set |
| UnionFind.UnionFind.constructor | src/union_find/mod.rs:11-17 | `new`: no values, no sets |
| UnionFind.UnionFind.AddSet | src/union_find/mod.rs:19-24 | the value maps to the next index, which becomes its own root with size 1 |
| UnionFind.UnionFind.SetByIdx | src/union_find/mod.rs:35-43 | returns the root of `idx`, and the parent vector becomes its path-compressed version with every root unchanged |
| UnionFind.UnionFind.FindSet | src/union_find/mod.rs:26-33 | `None` exactly for an unknown value; otherwise the root of its index, with paths compressed |
| UnionFind.UnionFind.SameSet | src/union_find/mod.rs:45-52 | true exactly when both values are known and have the same root |
| UnionFind.UnionFind.LinkRoots | src/union_find/mod.rs:57-66 | the root of the smaller set (the first on a tie) is linked under the other, whose size grows by the other's |
| UnionFind.UnionFind.UnionSets | src/union_find/mod.rs:54-69 | as written: unknown values change nothing but compressed paths; otherwise the two roots are linked, even when they are the same root, and the two values share a root |
| UnionFind.UnionFind.UnionSetsFixed | src/union_find/mod.rs:54-69 | the corrected union: as `UnionSets`, but two values already in one set change nothing but compressed paths |
| BSearchTree.BSearchTree.Count | src/bsearch_tree/mod.rs:11-17 | `count` is the number of values the tree holds |
| BSearchTree.BSearchTree.Value | src/bsearch_tree/mod.rs:19-24 | `None` exactly for the empty tree |
| BSearchTree.BSearchTree.Insert | src/bsearch_tree/mod.rs:34-70 | the new tree holds the old values plus the inserted one (duplicates go right) and is never empty |
| BSearchTree.InsertOrdered | src/bsearch_tree/mod.rs:34-70 | inserting into an ordered tree (left below, right at or above each value) keeps it ordered |
| BSearchTree.InOrderSorted | src/bsearch_tree/mod.rs:34-70 | the in-order walk of an ordered tree is sorted and holds exactly its values |
| BSearchTree.BSearchTree.Search | src/bsearch_tree/mod.rs:72-89 | a subtree found has the searched value at its root, and the value is in the tree |
| BSearchTree.SearchFinds | src/bsearch_tree/mod.rs:72-96 | on an ordered tree `search` and `contains` succeed exactly when the value is in the tree |
| BSearchTree.HeightBounds | src/bsearch_tree/mod.rs:11-32 | the height is at most the count, and at least 1 for a non-empty tree |
| BSearchTree.BSearchTree.Minimum | src/bsearch_tree/mod.rs:98-104 | as written: a result is a leaf holding a value of the tree |
| BSearchTree.BSearchTree.Maximum | src/bsearch_tree/mod.rs:106-112 | as written: a result is a leaf holding a value of the tree |
| BSearchTree.MinimumSound | src/bsearch_tree/mod.rs:98-104 | where the as-written `minimum` finds a leaf on an ordered tree, it holds the least value |
| BSearchTree.MinimumMisses | src/bsearch_tree/mod.rs:98-104 | inserting 5 then 7 gives a node whose `minimum` is `None` although the tree holds 5 |
| BSearchTree.MaximumMisses | src/bsearch_tree/mod.rs:106-112 | inserting 7 then 5 gives a node whose `maximum` is `None` although the tree holds 7 |
| BSearchTree.BSearchTree.MinimumNode | src/bsearch_tree/mod.rs:98-104 | corrected: `None` exactly for the empty tree; otherwise a non-empty subtree whose root is a value of the tree |
| BSearchTree.BSearchTree.MaximumNode | src/bsearch_tree/mod.rs:106-112 | corrected: the same for the maximum |
| BSearchTree.MinimumNodeLeast | src/bsearch_tree/mod.rs:98-104 | on an ordered tree the corrected minimum holds the least value |
| BSearchTree.MaximumNodeGreatest | src/bsearch_tree/mod.rs:106-112 | on an ordered tree the corrected maximum holds the greatest value |
| BSearchTree.TestTreeBuilt | src/bsearch_tree/test.rs:24-33 | the tests' insertions of 8, 5, 4, 6, 11, 13, 9, 14 build the tree they expect |
| BSearchTree.TestTreeMeasures | src/bsearch_tree/test.rs:35-36 | that tree has count 8 and height 4 |
| BSearchTree.TestTreeExtremes | src/bsearch_tree/test.rs:37-38 | its minimum is the leaf 4 and its maximum the leaf 14 |
| BSearchTree.TestTreeInOrder | src/bsearch_tree/test.rs:63-95 | its in-order walk is `[4, 5, 6, 8, 9, 11, 13, 14]` |
| BSearchTree.TestTreeSearches | src/bsearch_tree/test.rs:40-46 | 11 and 13 are found, 12 and 15 are not |
| HuffmanBits.BitWriter.constructor | src/huffman_coding/mod.rs:29-35 | a new writer holds no bits |
| HuffmanBits.WriteBitSound | src/huffman_coding/mod.rs:37-45 | pushing a full byte out and shifting the bit into the pending byte appends exactly that bit to the bits written |
| HuffmanBits.BitWriter.WriteBit | src/huffman_coding/mod.rs:37-45 | the new buffer, pending byte and count are as the code computes, and the bits written grow by `bit` |
| HuffmanBits.FlushSound | src/huffman_coding/mod.rs:47-55 | flushing appends the pending bits, then zeros up to a whole byte |
| HuffmanBits.BitWriter.Flush | src/huffman_coding/mod.rs:47-55 | the buffer's bits become the bits written plus the padding zeros; the pending count is left as it was |
| HuffmanBits.BitWriter.Data | src/huffman_coding/mod.rs:57-59 | returns the buffer and leaves it empty |
| HuffmanBits.BitReader.constructor | src/huffman_coding/mod.rs:70-77 | a new reader is at bit 0 of the buffer |
| HuffmanBits.BitReader.ReadBit | src/huffman_coding/mod.rs:79-90 | loads the next byte when the current one is used up; the bit returned is the next bit of the buffer, most significant first, and the position advances by one |
| HuffmanBits.WriteExample | src/huffman_coding/mod.rs:311-329 | the test's fourteen bits come out as the bytes 15 and 12 |
| HuffmanBits.ReadExample | src/huffman_coding/mod.rs:302-309 | reading the byte 12 gives `false×4, true, true, false, false` |
| HuffmanBits.BytesBitsInjective | src/huffman_coding/mod.rs:79-90 | byte sequences with the same bits are equal |
| HuffmanTree.Fresh | src/huffman_coding/mod.rs:249-255 | a new node table is 256 default nodes |
| HuffmanTree.CountedCounts | src/huffman_coding/mod.rs:172-180 | after `count_byte_freq` a byte's leaf has gained one count per occurrence and carries its own index; a byte that does not occur is untouched |
| HuffmanTree.CountedSum | src/huffman_coding/mod.rs:172-180 | counting adds `|data|` to the total |
| HuffmanTree.CountedPlain | src/huffman_coding/mod.rs:172-180 | counting into a new table leaves unlinked leaves, exactly the occurring bytes with a positive count and their index |
| HuffmanTree.TableCounts | src/huffman_coding/mod.rs:257-263 | every entry of `frequency_tbl` names a leaf with that positive count |
| HuffmanTree.TableIncreasing | src/huffman_coding/mod.rs:257-263 | the entries are in increasing byte order |
| HuffmanTree.TableComplete | src/huffman_coding/mod.rs:257-263 | every leaf with a positive count has its entry |
| HuffmanTree.RestoreTable | src/huffman_coding/mod.rs:212-217 | putting the frequency table of a counted table into a new table gives that table back |
| HuffmanTree.BuiltSound | src/huffman_coding/mod.rs:182-210 | `build_tree` on a startable table gives a well-linked table extending it, whose root has no parent and counts every byte, and is the root above every leaf with a positive count |
| HuffmanTree.MergedSound | src/huffman_coding/mod.rs:191-206 | the merge loop keeps its invariant until one node is left |
| HuffmanTree.MergeSound | src/huffman_coding/mod.rs:192-205 | one round (two dequeues, the parent pushed and linked, the parent enqueued) keeps the invariant |
| HuffmanTree.TakeTwo | src/huffman_coding/mod.rs:192-193 | the two dequeued nodes are two different waiting nodes, and the queue holds the rest as a heap |
| HuffmanTree.QueuedBuilding | src/huffman_coding/mod.rs:183-188 | the queue after the first loop is a heap of the nodes with a positive count, the loop's starting invariant |
| HuffmanCoding.Huffman.constructor | src/huffman_coding/mod.rs:249-255 | `new`: root `-1` and 256 default nodes |
| HuffmanCoding.Huffman.CountByteFreq | src/huffman_coding/mod.rs:172-180 | the loop counts the bytes into the table |
| HuffmanCoding.Huffman.EnqueueLive | src/huffman_coding/mod.rs:183-188 | the queue holds the nodes with a positive count |
| HuffmanCoding.Huffman.MergeRound | src/huffman_coding/mod.rs:192-205 | one round of the merge loop, as the tree function computes |
| HuffmanCoding.Huffman.AddParent | src/huffman_coding/mod.rs:195-203 | the parent is pushed and linked from its two children |
| HuffmanCoding.Huffman.MergeRounds | src/huffman_coding/mod.rs:191-206 | the merge loop leaves one node queued, the root of the finished table |
| HuffmanCoding.Huffman.BuildTree | src/huffman_coding/mod.rs:182-210 | the table and root become those of `build_tree` |
| HuffmanCoding.DequeueUnwrap | src/huffman_coding/mod.rs:192-193 | `dequeue().unwrap()` on a non-empty queue returns its first node |
| HuffmanCoding.Huffman.RestoreTree | src/huffman_coding/mod.rs:212-219 | the entries are put into the table, then the tree is built |
| HuffmanCoding.Huffman.TraverseTree | src/huffman_coding/mod.rs:221-233 | the bits written are the path from the root down to the node, one for a left edge and zero for a right edge |
| HuffmanCoding.CodeStep | src/huffman_coding/mod.rs:221-233 | a node's code is its parent's code plus the bit for the edge down to it |
| HuffmanCoding.Huffman.FindLeafNode | src/huffman_coding/mod.rs:235-245 | the reader advances by the bits of one root-to-leaf walk and the leaf's byte is returned |
| HuffmanCoding.Huffman.ReadStep | src/huffman_coding/mod.rs:237-243 | one step down from an inner node reads one bit and moves to the child the walk goes to |
| HuffmanCoding.FollowCode | src/huffman_coding/mod.rs:221-245 | following a leaf's code from its root reaches exactly that leaf, consuming exactly the code |
| HuffmanCoding.EncodeSnoc | src/huffman_coding/mod.rs:270-272 | the encoding of `data + [b]` is that of `data` followed by the code of `b` |
| HuffmanCoding.DecodeEncode | src/huffman_coding/mod.rs:265-292 | decoding `|data|` bytes of an encoding, followed by anything, gives the data back |
| HuffmanCoding.Huffman.WriteCodes | src/huffman_coding/mod.rs:270-272 | the loop writes the codes of the data in order |
| HuffmanCoding.Huffman.FlushCodes | src/huffman_coding/mod.rs:273-274 | the bytes returned hold the bits written, then zeros up to a whole byte |
| HuffmanCoding.Huffman.WriteData | src/huffman_coding/mod.rs:269-274 | the bytes hold the codes of the data in order, then zeros up to a whole byte |
| HuffmanCoding.Huffman.CompressData | src/huffman_coding/mod.rs:265-275 | the tree is built from the data's counts, and the bits of the result are the codes of the data followed by zeros up to a whole byte |
| HuffmanCoding.Huffman.DecompressData | src/huffman_coding/mod.rs:277-292 | the tree is rebuilt from the frequency table and the result is the decoding of as many bytes as the root counts |
| HuffmanCoding.Huffman.DecodeNext | src/huffman_coding/mod.rs:287-288 | the leaf found from the root is the first byte still to decode, and the rest decodes from the bits after it |
| HuffmanCoding.Huffman.DecodeBytes | src/huffman_coding/mod.rs:284-291 | the loop returns the decoding of `byteCount` bytes of the reader's bits |
| HuffmanCoding.RoundTrip | src/huffman_coding/mod.rs:331-344 | compressing non-empty data with one fresh instance, then decompressing with another from the first one's frequency table, gives the data back |
| SegTree.Build | src/segtree/mod.rs:49-59 | `SegTree::new` over `[lo, hi]` gives a tree covering exactly that range in which every node holds `op` folded over its range |
| SegTree.SummaryValue | src/segtree/mod.rs:27-31 | the value at a node is the fold over its range |
| SegTree.FoldSplit | src/segtree/mod.rs:56 | for an associative `op` the fold over `[l, r]` is `op` of the folds over `[l, m]` and `[m+1, r]` |
| SegTree.SegTree.Query | src/segtree/mod.rs:62-82 | a query over the node's whole range returns the node's own value |
| SegTree.QuerySummary | src/segtree/mod.rs:62-82 | for an associative `op`, `query(l, r)` inside a node's range is the fold over `[l, r]` |
| SegTree.SegTree.Replace | src/segtree/mod.rs:84-98 | replacing keeps the node's range and, through `SameRanges`, the range of every node below it and the tree's shape |
| SegTree.SameRangesRefl | src/segtree/mod.rs:84-98 | a subtree that `replace` leaves alone keeps its ranges and shape |
| SegTree.ReplaceSummary | src/segtree/mod.rs:84-98 | after `replace(i, x)` every node holds the fold over its range of the array with `x` at `i` |
| SegTree.SummaryFrame | src/segtree/mod.rs:89-95 | a subtree whose range does not contain `i` is still a summary of the changed array |
| SegTree.SegmentTree.constructor | src/segtree/mod.rs:106-111 | `SegmentTree::new`: a tree summarising the array over `0..=len-1` |
| SegTree.SegmentTree.Query | src/segtree/mod.rs:113-118 | `None` exactly where the assertions fail; otherwise, for associative `op`, the fold over `l..=r` of the current contents |
| SegTree.SegmentTree.Replace | src/segtree/mod.rs:120-124 | position `i` of the contents now holds `x`, and the tree still summarises them |
| SegTree.PlusAssociative | src/segtree/test.rs:4-8 | the tests' `usize` addition is associative |
| SegTree.QueryScenario | src/segtree/test.rs:14-17 | on `[1..8]` the queries give 36, 18 and 2 |
| SegTree.ReplaceScenario | src/segtree/test.rs:28-33 | 15 before, 22 after replacing position 2 by 10, then 5 at position 0 after replacing it by 5 |
| Graph.BfsStep | src/graph/list_graph.rs:99-109 | one iteration of the BFS loop keeps its invariant: every output vertex is reachable, distinct, and every edge out of one is queued or visited |
| Graph.BfsVisitsReachable | src/graph/list_graph.rs:89-111 | BFS from `src` outputs `src` first, no vertex twice, and exactly the vertices reachable from `src` |
| Graph.DfsVisitState | src/graph/list_graph.rs:122-131 | one recursive visit keeps the DFS invariant and only appends to the output |
| Graph.DfsVisitsReachable | src/graph/list_graph.rs:113-131 | DFS from `src` outputs `src` first, no vertex twice, and exactly the vertices reachable from `src` |
| Graph.BfsScenario | src/graph/test.rs:126-146 | on the tests' five-vertex graph BFS from `a` gives `[a, b, d, c, e]` |
| Graph.DfsScenario | src/graph/test.rs:158-180 | and DFS from `a` gives `[a, b, c, d, e]` |
| ListGraph.ConsistentWellFormed | src/graph/list_graph.rs:57-66 | edges added between existing vertices give successors that are vertices |
| ListGraph.ListGraph.constructor | src/graph/list_graph.rs:28-33 | `new`: no vertices, no edges |
| ListGraph.ListGraph.CreateVertex | src/graph/list_graph.rs:45-55 | the new vertex gets the next id and an empty edge list |
| ListGraph.ListGraph.AddDirectedEdge | src/graph/list_graph.rs:57-66 | the edge is appended to `src`'s list, even when it is already there |
| ListGraph.ListGraph.AddUndirectedEdge | src/graph/list_graph.rs:68-71 | the edge `src -> des`, then `des -> src` |
| ListGraph.LastMatch | src/graph/list_graph.rs:78-80 | `None` exactly when no edge goes to `des`; otherwise the last such edge |
| ListGraph.AddedWeight | src/graph/list_graph.rs:57-80 | after adding `src -> des` its weight is the one for `des`; other targets keep theirs |
| ListGraph.ListGraph.GetWeight | src/graph/list_graph.rs:73-81 | `None` when no edge goes to `des`; otherwise the weight of the last edge to `des` |
| ListGraph.ListGraph.EdgesFromSrc | src/graph/list_graph.rs:83-87 | `src`'s edge list, all of them from `src` to a vertex |
| ListGraph.DedupSpec | src/graph/list_graph.rs:41 | `Vec::dedup` drops adjacent repeats only: no two neighbours equal, the same set of edges, the same last edge |
| ListGraph.FlattenMembers | src/graph/list_graph.rs:38-40 | the concatenated lists hold exactly the edges of the vertices' lists |
| ListGraph.ListGraph.Edges | src/graph/list_graph.rs:35-43 | the lists concatenated and deduplicated: exactly the graph's edges, no two neighbours equal |
| ListGraph.ListGraph.BfsTraverse | src/graph/list_graph.rs:89-111 | the queue-driven loop computes BFS on the successor lists: `src` first, distinct, exactly the reachable vertices |
| ListGraph.ListGraph.EnqueueTargets | src/graph/list_graph.rs:106-108 | each edge's target is enqueued, in list order |
| ListGraph.ListGraph.BfsStep | src/graph/list_graph.rs:99-109 | one turn of the BFS loop advances the BFS function by one dequeued vertex, the visited set growing or the queue shrinking |
| ListGraph.ListGraph.DfsFrom | src/graph/list_graph.rs:122-131 | `_dfs_traverse` computes the recursive visit |
| ListGraph.ListGraph.DfsTraverse | src/graph/list_graph.rs:113-120 | DFS on the successor lists: `src` first, distinct, exactly the reachable vertices |
| ListGraph.TestEdge | src/graph/test.rs:36-65 | the edge test: two edges from `a`, one from `b`, three in all, in that order |
| ListGraph.TestBfs | src/graph/test.rs:126-156 | building the tests' graph and running BFS gives `[a, b, d, c, e]` |
| ListGraph.TestDfs | src/graph/test.rs:158-188 | and DFS gives `[a, b, c, d, e]` |
| MatrixGraph.SomeColsSpec | src/graph/matrix_graph.rs:143-148 | the columns enqueued from a row are exactly those holding a weight, in increasing order |
| MatrixGraph.SquareWellFormed | src/graph/matrix_graph.rs:72-88 | a square matrix gives successors that are vertices |
| MatrixGraph.MatrixGraph.constructor | src/graph/matrix_graph.rs:46-51 | `new`: no vertices, no cells |
| MatrixGraph.MatrixGraph.CreateVertex | src/graph/matrix_graph.rs:72-88 | the new vertex gets the next id; every row grows by an empty cell and an empty row is added, the old cells unchanged |
| MatrixGraph.MatrixGraph.AddDirectedEdge | src/graph/matrix_graph.rs:90-95 | the cell `[src][des]` is overwritten with the weight, which `get_weight` then returns |
| MatrixGraph.MatrixGraph.AddUndirectedEdge | src/graph/matrix_graph.rs:97-100 | both cells are overwritten, and both weights read back |
| MatrixGraph.RowEdgesSpec | src/graph/matrix_graph.rs:107-123 | the edges of a row are exactly its weighted cells, in increasing column order |
| MatrixGraph.MatrixGraph.GetWeightListed | src/graph/matrix_graph.rs:102-105 | `get_weight(src, des)` is `Some(w)` exactly when `edges_from_src(src)` lists an edge to `des`, `None` exactly when it lists none, and every listed edge to `des` carries that weight |
| MatrixGraph.RowEdgesAt | src/graph/matrix_graph.rs:102-123 | the cell `[src][des]` holds a weight exactly when the row's edges list `src -> des` with it, and it is the only edge to `des` there |
| MatrixGraph.RowEdgesMembers | src/graph/matrix_graph.rs:107-123 | the edges of a row from column `j` on are exactly its weighted cells from `j` on |
| MatrixGraph.RowEdgesOrdered | src/graph/matrix_graph.rs:107-123 | those edges come in increasing column order |
| MatrixGraph.MatrixGraph.AppendRow | src/graph/matrix_graph.rs:57-66 | the inner loop over a row appends exactly the row's weighted cells as edges, in column order |
| MatrixGraph.MatrixGraph.EdgesFromSrc | src/graph/matrix_graph.rs:107-123 | exactly the weighted cells of `src`'s row as edges, in column order |
| MatrixGraph.AllEdgesMembers | src/graph/matrix_graph.rs:53-70 | the nested loops list exactly the weighted cells |
| MatrixGraph.MatrixGraph.Edges | src/graph/matrix_graph.rs:53-70 | exactly the weighted cells of the matrix, as edges |
| MatrixGraph.MatrixGraph.BfsTraverse | src/graph/matrix_graph.rs:125-151 | the loop computes BFS on the rows' weighted columns: `src` first, distinct, exactly the reachable vertices |
| MatrixGraph.MatrixGraph.EnqueueCols | src/graph/matrix_graph.rs:143-148 | the columns of the row holding a weight are enqueued, in increasing order |
| MatrixGraph.MatrixGraph.BfsStep | src/graph/matrix_graph.rs:135-149 | one turn of the BFS loop advances the BFS function by one dequeued vertex, the visited set growing or the queue shrinking |
| MatrixGraph.MatrixGraph.DfsCell | src/graph/matrix_graph.rs:170-174 | one cell of `_dfs`'s loop: a weighted, unvisited column is visited recursively, as the recursive visit does |
| MatrixGraph.MatrixGraph.DfsFrom | src/graph/matrix_graph.rs:163-175 | `_dfs` computes the recursive visit |
| MatrixGraph.MatrixGraph.DfsTraverse | src/graph/matrix_graph.rs:153-161 | DFS on the rows: `src` first, distinct, exactly the reachable vertices |
| MatrixGraph.TestEdgesUndirected | src/graph/test.rs:77-114 | the undirected edge test: two edges from each of `a`, `b`, `c`, six in all, in row order |
| MatrixGraph.TestBfs | src/graph/test.rs:126-151 | building the tests' graph and running BFS gives `[a, b, d, c, e]` |
| MatrixGraph.TestDfs | src/graph/test.rs:158-183 | and DFS gives `[a, b, c, d, e]` |
| BitSet.IndexTuple | src/bitset/mod.rs:220-224 | `index_tuple(idx)` names word `idx / 64` and a mask with exactly bit `idx % 64` set |
| BitSet.BitLowest | src/bitset/mod.rs:88 | `cur & !(cur - 1)` has exactly the lowest set bit of `cur` set |
| BitSet.PopLowest | src/bitset/mod.rs:87-91 | clearing that bit lowers the word's population by one, so the inner loop counts the set bits |
| BitSet.HasSet | src/bitset/mod.rs:60-63 | after `set(idx)` exactly `idx` and the old members are members |
| BitSet.HasClear | src/bitset/mod.rs:65-68 | after `clear(idx)` exactly the old members other than `idx` are members |
| BitSet.HasFlip | src/bitset/mod.rs:71-75 | `flip(idx)` inverts membership of `idx` and of nothing else |
| BitSet.TestHas | src/bitset/mod.rs:77-80 | `words[i] & mask != 0` is membership of `idx` |
| BitSet.CardSet | src/bitset/mod.rs:60-63 | `set` raises the cardinality by one exactly when `idx` was not a member |
| BitSet.CardClear | src/bitset/mod.rs:65-68 | `clear` lowers it by one exactly when `idx` was a member |
| BitSet.CardFlip | src/bitset/mod.rs:71-75 | `flip` lowers it by one for a member and raises it by one otherwise |
| BitSet.BitLastMask | src/bitset/mod.rs:226-230 | `last_mask` has exactly the bits of the last word that lie below `size` |
| BitSet.FullHas | src/bitset/mod.rs:53-58 | after `set_all` the members are exactly the positions below `size` |
| BitSet.FullExactly | src/bitset/mod.rs:96-104 | the words are those of `set_all` exactly when the members are the positions below `size` |
| BitSet.CardFull | src/bitset/mod.rs:53-58 | after `set_all` the cardinality is `size` |
| BitSet.HasClearUnused | src/bitset/mod.rs:215-218 | `clear_unused` keeps exactly the members below `size` |
| BitSet.HasNot | src/bitset/mod.rs:192-204 | `!` has as members exactly the positions below `size` that were not members |
| BitSet.CardNot | src/bitset/mod.rs:192-204 | the complement's cardinality is `size` minus the cardinality |
| BitSet.HasOr | src/bitset/mod.rs:154-165 | `\|` has as members the members of either operand |
| BitSet.HasXor | src/bitset/mod.rs:173-184 | `^` has as members the members of exactly one operand |
| BitSet.HasAnd | src/bitset/mod.rs:134-146 | the corrected `&` has as members the members of both operands |
| BitSet.AndAsWrittenAgrees | src/bitset/mod.rs:134-146 | as written, `&` agrees with the corrected one when the left operand has no more words than the right one |
| BitSet.AndAsWrittenPanics | src/bitset/mod.rs:138-141 | as written, `BitSet::new(128) & BitSet::new(64)` indexes past the right operand's one word, while the corrected result is the empty set |
| BitSet.BitSet.constructor | src/bitset/mod.rs:38-45 | `new(size)`: `(size + 63) / 64` zero words, so no members |
| BitSet.BitSet.Clone | src/bitset/mod.rs:9 | the derived `clone`: the same size and words |
| BitSet.BitSet.ClearAll | src/bitset/mod.rs:47-51 | every word becomes zero |
| BitSet.BitSet.SetAll | src/bitset/mod.rs:53-58 | the words become those with exactly the positions below `size` set |
| BitSet.BitSet.Set | src/bitset/mod.rs:60-63 | the word update, after which exactly `idx` and the old members are members |
| BitSet.BitSet.Clear | src/bitset/mod.rs:65-68 | the word update, after which exactly the old members other than `idx` are members |
| BitSet.BitSet.Flip | src/bitset/mod.rs:70-75 | `idx`'s membership is inverted and returned, nothing else changes |
| BitSet.BitSet.Test | src/bitset/mod.rs:77-80 | membership of `idx` |
| BitSet.BitSet.Cardinality | src/bitset/mod.rs:82-94 | the two loops count the set bits of all words |
| BitSet.BitSet.All1 | src/bitset/mod.rs:96-104 | true exactly when the words are those of `set_all` |
| BitSet.BitSet.All0 | src/bitset/mod.rs:106-113 | true exactly when there is no member |
| BitSet.BitSet.Any1 | src/bitset/mod.rs:115-122 | true exactly when there is a member |
| BitSet.BitSet.ClearUnused | src/bitset/mod.rs:215-218 | the last word is masked by `last_mask` |
| BitSet.BitSet.Not | src/bitset/mod.rs:192-204 | a new set of the same size holding the complement below `size` |
| BitSet.BitSet.BitAnd | src/bitset/mod.rs:134-146 | corrected: a new set of the larger size whose words are the common words and-ed |
| BitSet.BitSet.BitOr | src/bitset/mod.rs:154-165 | a copy of the larger operand with the common words or-ed |
| BitSet.BitSet.BitXor | src/bitset/mod.rs:173-184 | a copy of the larger operand with the common words xor-ed |
| BitSet.BitSet.BitAndAssign | src/bitset/mod.rs:148-152 | the receiver becomes the corrected `&` of itself and `rhs` |
| BitSet.BitSet.BitOrAssign | src/bitset/mod.rs:167-171 | the receiver becomes the `\|` of itself and `rhs` |
| BitSet.BitSet.BitXorAssign | src/bitset/mod.rs:186-190 | the receiver becomes the `^` of itself and `rhs` |
| BitSet.TestCreate | src/bitset/test.rs:4-14 | a new set of 66 positions has two words, no members, is not full and has cardinality 0 |
| BitSet.TestOpsSetAll | src/bitset/test.rs:18-28 | `set_all` on 100 positions gives cardinality 100 and every position below 100 |
| BitSet.TestOpsClear | src/bitset/test.rs:31-38 | clearing 0 and 99 leaves 98 members, so neither full nor empty |
| BitSet.TestOpsFlip | src/bitset/test.rs:40-49 | flipping 1 then clears it and leaves 97; `clear_all` then leaves nothing |
| BitSet.TestMembers | src/bitset/test.rs:57-64 | the test's operands: `{0, 2, 3}` of 4 and `{1}` of 8 |
| BitSet.TestOr | src/bitset/test.rs:66-70 | their union holds 0 to 3, four members |
| BitSet.TestAnd | src/bitset/test.rs:72-74 | their intersection is empty |
| BitSet.TestXor | src/bitset/test.rs:76-77 | their symmetric difference equals their union |
| BitSet.TestNot | src/bitset/test.rs:79-81 | the complement of `{0, 2, 3}` of 4 is `{1}`, one member |
| Trie.SubRoot | src/trie/mod.rs:224-237 | the words below the root are all the stored words |
| Trie.SubPrefix | src/trie/mod.rs:224-237 | the words below a node are exactly the stored words that start with its path |
| Trie.WordAt | src/trie/mod.rs:172-183 | a node's path is a stored word exactly when the node is terminal |
| Trie.GraftWords | src/trie/mod.rs:94-106 | grafting a new non-terminal child leaves the stored words unchanged |
| Trie.GraftLinked | src/trie/mod.rs:94-106 | and keeps parent and child links consistent, with distinct nodes at distinct paths |
| Trie.MarkWords | src/trie/mod.rs:146 | setting a node's terminal flag adds its path to the words, clearing it removes it |
| Trie.PruneWords | src/trie/mod.rs:208-216 | unhooking a leaf removes its path from the words when it was terminal, and nothing otherwise |
| Trie.PruneLinked | src/trie/mod.rs:208-216 | unhooking a leaf keeps the links consistent |
| Trie.DeleteSpinsAtRoot | src/trie/mod.rs:205-222 | as written, the loop body leaves a parentless leaf unchanged while the loop condition still holds, so `delete_node` never ends there |
| Trie.RemoveOnlyWordSpins | src/trie/mod.rs:150-159 | `remove("a")` on a trie holding only "a" reaches the root as a parentless leaf and spins |
| Trie.Trie.IsEmpty | src/trie/mod.rs:120-122 | true exactly when the word count is 0 |
| Trie.Trie.constructor | src/trie/mod.rs:124-132 | `new`: only the root, no words, count 0 |
| Trie.Trie.AppendNode | src/trie/mod.rs:33-66 | a parentless, childless, non-terminal node holding `data` is stored under a fresh id |
| Trie.Trie.Add | src/trie/mod.rs:94-106 | `None` and no change when `x` already has a child under `value`; otherwise a new node is appended and hooked under `x` |
| Trie.Trie.NewChild | src/trie/mod.rs:140-144 | the missing-child branch: a child at `path[x] + [c]`, linked both ways, words unchanged |
| Trie.Trie.Insert | src/trie/mod.rs:134-148 | the word is added to the words and the count goes up by one, even for a word already stored |
| Trie.Trie.Contains | src/trie/mod.rs:172-183 | true exactly when the word is stored |
| Trie.Trie.FindLastNode | src/trie/mod.rs:193-203 | a node exactly when some node has the word as its path, and then that node |
| Trie.Trie.SetTerminal | src/trie/mod.rs:156 | setting the flag adds the node's path to the words, clearing it removes it |
| Trie.Trie.UnhookLeaf | src/trie/mod.rs:209-216 | the leaf leaves the arena and its parent's children, the arena becomes `Pruned` of the old one, and its path leaves the words |
| Trie.PruneChainAncestors | src/trie/mod.rs:205-222 | the chain `delete_node` prunes from `x` is `x` (unless it is the root) and ancestors of `x` that end no word and have one child; the root is never in it |
| Trie.PruningStep | src/trie/mod.rs:208-216 | unhooking the current leaf adds it to the removed nodes and moves the cursor to its parent, keeping the loop's invariant |
| Trie.Trie.PruneUp | src/trie/mod.rs:208-216 | one pass of the loop: the leaf is removed and the cursor moves to its parent |
| Trie.Trie.FinishDelete | src/trie/mod.rs:205-222 | after the loop the arena holds exactly the old nodes minus the pruned chain, and the words lose the node's path |
| Trie.Trie.DeleteNode | src/trie/mod.rs:205-222 | corrected: also stopping at a parentless node. From a leaf it removes exactly the chain the source prunes: the leaf, then every ancestor that ends no word and is left childless, up to but not including the root. It removes the leaf's path from the words and keeps every other word; from a node with children nothing changes |
| Trie.Trie.Remove | src/trie/mod.rs:150-159 | for a word whose path exists, the word is no longer stored and the count goes down by one |
| Trie.Trie.WordsInSubtrie | src/trie/mod.rs:224-237 | appends exactly the stored words below `x`, each once |
| Trie.Trie.AllWords | src/trie/mod.rs:185-189 | exactly the stored words, each once |
| Trie.Trie.FindWithPrefix | src/trie/mod.rs:161-170 | exactly the stored words starting with the prefix, each once |
| Trie.TestCreate | src/trie/test.rs:4-9 | a new trie is empty with count 0 |
| Trie.TestInsert | src/trie/test.rs:12-22 | after "cute", "cutie", "fred", "cute" is stored and "cut" is not; after "cut" it is, and the count is 4 |
| Trie.TestRemove | src/trie/test.rs:25-33 | removing "cute" from {"cute", "cut"} keeps "cut" and leaves count 1 |
| Trie.TestWords | src/trie/test.rs:36-61 | no words at first, then `["foobar"]`, then the four words |
| Trie.TestFindPrefix | src/trie/test.rs:64-90 | six words; prefix "fo" finds four of them and "f" five |
| TreeShape.ChildFacts | src/idtree/mod.rs:9-17 | in a well-formed picture, the i-th entry of a children list names the parent, its list neighbours as previous and next sibling, and has a smaller rank than the parent (so the tree is acyclic) |
| TreeShape.TraverseIsEdges | src/idtree/mod.rs:284-313 | started at `Start(root)` on a well-formed picture, the traversal step emits exactly `Edges(sh, root)` (open and close of every node of the subtree, in pre-order nesting) and then stops |
| TreeShape.StartsOfEdges | src/idtree/mod.rs:318-329 | the `Start` edges of a subtree's traversal, in order, are its pre-order: what `descendants` yields |
| TreeShape.EdgesShape | src/idtree/mod.rs:284-313 | the traversal of a subtree opens with `Start(x)`, closes with `End(x)`, and touches only nodes of that subtree |
| TreeShape.ValidWalkable | src/idtree/mod.rs:284-313 | from every node of a well-formed picture the traversal emits exactly that node's edges and stops, which is the invariant the iterators rely on |
| TreeShape.ProgressStart | src/idtree/mod.rs:107-117 | A fresh traversal satisfies the traversal invariant with nothing emitted |
| TreeShape.ProgressStep | src/idtree/mod.rs:318-329 | one traversal step from the k-th edge keeps the invariant, and the emitted count grows by one exactly on a `Start` edge |
| TreeShape.ProgressEnd | src/idtree/mod.rs:318-329 | when the traversal yields nothing more, all edges were visited and the whole pre-order was emitted |
| TreeWalk.WalkForward | src/idtree/mod.rs:84-89 | following next-sibling links from the i-th child yields the children list from position i on |
| TreeWalk.WalkBackward | src/idtree/mod.rs:77-82 | following previous-sibling links from the i-th child yields the list up to position i, reversed |
| TreeWalk.FollowingSiblings | src/idtree/mod.rs:84-89 | `following_siblings(y)` yields y and the siblings after it (only y for a root) |
| TreeWalk.PrecedingSiblings | src/idtree/mod.rs:77-82 | `preceding_siblings(y)` yields y and the siblings before it, nearest first (only y for a root) |
| TreeWalk.Children | src/idtree/mod.rs:91-105 | `children(p)` yields p's children list and `reverse_children(p)` its reverse |
| TreeWalk.Ancestors | src/idtree/mod.rs:70-75 | a is yielded by `ancestors(y)` if and only if y lies in a's subtree |
| TreeWalk.PreOrderNoDup | src/idtree/mod.rs:318-329 | `descendants` yields no node twice |
| TreeWalk.FirstMatchSpec | src/idtree/mod.rs:199-207 | the search result is a node with the value and no earlier node in pre-order has it; `None` means no node of the subtree has it |
| TreeWalk.SearchStep | src/idtree/mod.rs:199-207 | one step of the search loop keeps the traversal invariant; a matching `Start` is the first match, otherwise every emitted node was checked and missed |
| TreeWalk.SearchEnd | src/idtree/mod.rs:199-207 | A search that runs out of edges has checked the whole pre-order, so the first match is `None` |
| TreeEdit.DetachLinked | src/arena_tree/mod.rs:84-100 | joining n's neighbours and clearing n's own links leaves every children list spelled out as before without n, and n free |
| TreeEdit.DetachRanked | src/arena_tree/mod.rs:84-100 | removing n from its parent's list keeps the ranks decreasing along every list |
| TreeEdit.FreeUnlinked | src/idtree/mod.rs:119-135 | detaching a node without parent and sibling links changes nothing |
| TreeEdit.SpliceLinked | src/rctree/mod.rs:173-281 | splicing a free node into the gap j of q's children makes every list linked again, with q's list gaining n at position j |
| TreeEdit.MoveValid | src/rctree/mod.rs:173-281 | moving n to position j among the children of a node q outside n's subtree keeps the picture well formed; q's list becomes the old one without n and with n at j, every other list just loses n |
| TreeEdit.AddValid | src/idtree/mod.rs:31-45 | adding a node without links keeps the picture well formed, the new node free and every existing list unchanged |
| TreeAttach.DetachTakenValid | src/rctree/mod.rs:19-45 | on a well-formed picture `detach` as written equals the reference `Detached`, leaves n free, and a second `detach` changes nothing |
| TreeAttach.DetachFreeUnchanged | src/rctree/mod.rs:19-45 | `detach` of a free node changes nothing |
| TreeAttach.DetachMoves | src/rctree/mod.rs:19-45 | after `detach`, n is free and the picture is well formed with every children list minus n |
| TreeAttach.AppendMoves | src/rctree/mod.rs:173-198 | detach-then-append under q (outside n's subtree) is well formed and q's children become the old ones without n, followed by n |
| TreeAttach.PrependMoves | src/rctree/mod.rs:200-223 | detach-then-prepend: q's children become n followed by the old ones without n |
| TreeAttach.InsertAfterMoves | src/rctree/mod.rs:225-252 | detach-then-insert_after: n lands immediately after s in the children of s's parent |
| TreeAttach.InsertBeforeMoves | src/rctree/mod.rs:254-281 | detach-then-insert_before: n lands immediately before s in the children of s's parent |
| ArenaTree.ArenaNode.constructor | src/arena_tree/mod.rs:18-27 | A new node has no links and holds its data |
| ArenaTree.ArenaNode.WriteParent | src/arena_tree/mod.rs:4-11 | setting a `Cell` link changes that one link of that node in the picture, and keeps links inside the picture |
| ArenaTree.ArenaNode.WriteFirst | src/arena_tree/mod.rs:4-11 | as WriteParent, for the first-child link |
| ArenaTree.ArenaNode.WriteLast | src/arena_tree/mod.rs:4-11 | as WriteParent, for the last-child link |
| ArenaTree.ArenaNode.WritePrev | src/arena_tree/mod.rs:4-11 | as WriteParent, for the previous-sibling link |
| ArenaTree.ArenaNode.WriteNext | src/arena_tree/mod.rs:4-11 | as WriteParent, for the next-sibling link |
| ArenaTree.ArenaNode.Detach | src/arena_tree/mod.rs:84-100 | the picture becomes `DetachTaken` of the old one (neighbours joined, n's own links cleared) and stays closed; with TreeAttach.DetachMoves, n leaves every list |
| ArenaTree.ArenaNode.Append | src/arena_tree/mod.rs:102-112 | the picture becomes the shared append splice after `detach`; with TreeAttach.AppendMoves, n becomes the last child |
| ArenaTree.ArenaNode.Prepend | src/arena_tree/mod.rs:114-124 | the picture becomes the shared prepend splice after `detach`; with TreeAttach.PrependMoves, n becomes the first child |
| ArenaTree.ArenaNode.InsertBefore | src/arena_tree/mod.rs:126-138 | as written: after `detach`, only the old previous sibling (or the parent's first child), n's previous link and s's previous link are written; n gets no parent and no next sibling |
| ArenaTree.ArenaNode.InsertAfter | src/arena_tree/mod.rs:140-152 | as written: mirror image of InsertBefore; n gets no parent and no previous sibling |
| ArenaTree.InsertBeforeBreaks | src/arena_tree/mod.rs:126-138 | on every well-formed tree and every n other than s, the picture `insert_before` leaves agrees with no children lists at all |
| ArenaTree.InsertAfterBreaks | src/arena_tree/mod.rs:140-152 | the same for `insert_after` |
| ArenaTree.PrevNotBack | src/arena_tree/mod.rs:126-138 | A node whose previous sibling does not name it back as next sibling rules out every set of children lists |
| ArenaTree.NextNotBack | src/arena_tree/mod.rs:140-152 | the mirror image for next siblings |
| ArenaTree.InsertBeforeTestRun | src/arena_tree/test.rs:56-68 | on the test's tree, after `1.insert_before(6)` the traversal from 5 stops after [Start(5), Start(6), End(6)]: `descendants` yields [5, 6], not the [5, 6, 7, 1, 4, 2, 3, ...] the test expects |
| ArenaTree.ArenaNode.InsertBeforeLinked | src/arena_tree/mod.rs:126-138 | corrected `insert_before`: also sets n's parent and next sibling, so the picture is the shared `AttachBefore` splice (TreeAttach.InsertBeforeMoves) |
| ArenaTree.ArenaNode.InsertAfterLinked | src/arena_tree/mod.rs:140-152 | corrected `insert_after`: also sets n's parent and previous sibling; the picture is the shared `AttachAfter` splice (TreeAttach.InsertAfterMoves) |
| ArenaTree.Relationship.constructor | src/arena_tree/mod.rs:170-189 | an iterator starts at the given node and follows the given link |
| ArenaTree.Relationship.Next | src/arena_tree/mod.rs:179-187 | `next` yields the current node and moves along the link |
| ArenaTree.Ancestors | src/arena_tree/mod.rs:53-55 | the iterator starts at n and follows parent links |
| ArenaTree.PrecedingSiblings | src/arena_tree/mod.rs:57-59 | the iterator starts at n and follows previous-sibling links |
| ArenaTree.FollowingSiblings | src/arena_tree/mod.rs:61-63 | the iterator starts at n and follows next-sibling links |
| ArenaTree.Children | src/arena_tree/mod.rs:65-67 | the iterator starts at p's first child and follows next-sibling links |
| ArenaTree.ReverseChildren | src/arena_tree/mod.rs:69-71 | the iterator starts at p's last child and follows previous-sibling links |
| ArenaTree.Collect | src/arena_tree/mod.rs:179-187 | draining an iterator yields the walk along its link (TreeWalk gives its contents) and exhausts it |
| ArenaTree.Traverse.constructor | src/arena_tree/mod.rs:73-78 | A traversal starts at `Start(root)` with no steps taken |
| ArenaTree.Traverse.Next | src/arena_tree/mod.rs:229-259 | `next` yields the current edge, and the following one is the step function's successor |
| ArenaTree.TraverseAll | src/arena_tree/mod.rs:229-259 | draining `traverse(root)` yields exactly `Edges(sh, root)`, opening with `Start(root)`, closing with `End(root)`, all inside the subtree |
| ArenaTree.Descendants.constructor | src/arena_tree/mod.rs:80-82 | `descendants` wraps a fresh traversal from `Start(root)` |
| ArenaTree.Descendants.Next | src/arena_tree/mod.rs:267-277 | each call yields the next node of the pre-order (or `None` once it is exhausted), keeping the traversal invariant |
| ArenaTree.DescendantsAll | src/arena_tree/mod.rs:262-277 | draining `descendants(root)` yields exactly the pre-order of root's subtree |
| ArenaTree.FindNode | src/arena_tree/mod.rs:157-167 | the result is the first node of the subtree's pre-order whose data equals the value, or `None` when there is none (TreeWalk.FirstMatchSpec) |
| IdTree.Arena.constructor | src/idtree/mod.rs:25-29 | A new arena holds no nodes |
| IdTree.Arena.NewNode | src/idtree/mod.rs:31-45 | the new id is the old node count; the new node has no links and holds the data; nothing else changes |
| IdTree.Arena.SetParentOf | src/idtree/mod.rs:55-58 | writing through `IndexMut` changes that one link of that node and no contents |
| IdTree.Arena.SetFirstOf | src/idtree/mod.rs:55-58 | as SetParentOf, for the first-child link |
| IdTree.Arena.SetLastOf | src/idtree/mod.rs:55-58 | as SetParentOf, for the last-child link |
| IdTree.Arena.SetPrevOf | src/idtree/mod.rs:55-58 | as SetParentOf, for the previous-sibling link |
| IdTree.Arena.SetNextOf | src/idtree/mod.rs:55-58 | as SetParentOf, for the next-sibling link |
| IdTree.Arena.Detach | src/idtree/mod.rs:119-135 | as written: the picture becomes `Unlinked`: neighbours joined around n, n's own parent and sibling links kept |
| IdTree.DetachChildren | src/idtree/mod.rs:119-135 | on a well-formed tree, `detach` as written spells every children list as before without n, while n keeps all its links |
| IdTree.DetachTwice | src/idtree/mod.rs:119-135 | A second `detach` of the same node writes the same values again |
| IdTree.Arena.DetachCleared | src/idtree/mod.rs:119-135 | corrected `detach`: also clears n's parent and sibling links; the picture is the reference `Detached`, n is free, and the tree stays well formed with every list minus n |
| IdTree.Arena.Append | src/idtree/mod.rs:173-184 | the picture becomes the shared append splice after idtree's `detach`, and stays closed |
| IdTree.Arena.Prepend | src/idtree/mod.rs:186-197 | the picture becomes the shared prepend splice after idtree's `detach` |
| IdTree.Arena.InsertBefore | src/idtree/mod.rs:137-153 | the picture becomes the shared insert-before splice after idtree's `detach` |
| IdTree.Arena.InsertAfter | src/idtree/mod.rs:155-171 | the picture becomes the shared insert-after splice after idtree's `detach` |
| IdTree.AppendFree | src/idtree/mod.rs:173-184 | `append` of a free node under q keeps the tree well formed and q's children gain n at the end |
| IdTree.PrependFree | src/idtree/mod.rs:186-197 | `prepend` of a free node: q's children gain n at the front |
| IdTree.InsertBeforeFree | src/idtree/mod.rs:137-153 | `insert_before` of a free node: n lands just before s among s's siblings |
| IdTree.InsertAfterFree | src/idtree/mod.rs:155-171 | `insert_after` of a free node: n lands just after s among s's siblings |
| IdTree.AppendStale | src/idtree/mod.rs:173-184 | `append` of a node that has a next sibling leaves a picture no children lists agree with |
| IdTree.PrependStale | src/idtree/mod.rs:186-197 | `prepend` of a node that has a previous sibling leaves a picture no children lists agree with |
| IdTree.InsertBeforeStale | src/idtree/mod.rs:137-153 | `insert_before` a first child of a node that has a previous sibling breaks every children list |
| IdTree.InsertAfterStale | src/idtree/mod.rs:155-171 | `insert_after` a last child of a node that has a next sibling breaks every children list |
| IdTree.NodeIter.constructor | src/idtree/mod.rs:235-250 | an iterator starts at the given node over the given arena and link |
| IdTree.NodeIter.Next | src/idtree/mod.rs:240-248 | `next` yields the current node and moves along the link |
| IdTree.Ancestors | src/idtree/mod.rs:70-75 | the iterator starts at n and follows parent links |
| IdTree.PrecedingSiblings | src/idtree/mod.rs:77-82 | the iterator starts at n and follows previous-sibling links |
| IdTree.FollowingSiblings | src/idtree/mod.rs:84-89 | the iterator starts at n and follows next-sibling links |
| IdTree.Children | src/idtree/mod.rs:91-97 | the iterator starts at p's first child and follows next-sibling links |
| IdTree.ReverseChildren | src/idtree/mod.rs:99-105 | the iterator starts at p's last child and follows previous-sibling links |
| IdTree.Collect | src/idtree/mod.rs:240-248 | draining an iterator yields the walk along its link and exhausts it |
| IdTree.Traverse.constructor | src/idtree/mod.rs:107-113 | A traversal starts at `Start(root)` with no steps taken |
| IdTree.Traverse.Next | src/idtree/mod.rs:284-313 | `next` yields the current edge, and the following one is the step function's successor |
| IdTree.TraverseAll | src/idtree/mod.rs:284-313 | draining `traverse(root)` yields exactly `Edges(sh, root)` |
| IdTree.Descendants.constructor | src/idtree/mod.rs:115-117 | `descendants` wraps a fresh traversal |
| IdTree.Descendants.Next | src/idtree/mod.rs:318-329 | each call yields the next node of the pre-order, or `None` once it is exhausted |
| IdTree.DescendantsAll | src/idtree/mod.rs:318-329 | draining `descendants(root)` yields exactly the pre-order of root's subtree |
| IdTree.FindNode | src/idtree/mod.rs:199-207 | the first pre-order node of the subtree holding the value, or `None` when there is none |
| RcTree.Node.constructor | src/rctree/mod.rs:81-91 | A new node has no links and holds its data |
| RcTree.Node.WriteParent | src/rctree/mod.rs:9-16 | writing one link of a borrowed node changes that one link in the picture |
| RcTree.Node.WriteFirst | src/rctree/mod.rs:9-16 | as WriteParent, for the first-child link |
| RcTree.Node.WriteLast | src/rctree/mod.rs:9-16 | as WriteParent, for the last-child link |
| RcTree.Node.WritePrev | src/rctree/mod.rs:9-16 | as WriteParent, for the previous-sibling link |
| RcTree.Node.WriteNext | src/rctree/mod.rs:9-16 | as WriteParent, for the next-sibling link |
| RcTree.Node.Detach | src/rctree/mod.rs:19-45 | the picture becomes `DetachTaken` of the old one and stays closed; the cells it borrows are distinct from the borrowed node |
| RcTree.TakeOrder | src/rctree/mod.rs:19-45 | taking the three links in rctree's order gives the same picture as the shared `DetachTaken` |
| RcTree.Node.Append | src/rctree/mod.rs:173-198 | the picture becomes the shared append splice after `detach`; with TreeAttach.AppendMoves, n becomes the last child |
| RcTree.Node.Prepend | src/rctree/mod.rs:200-223 | the picture becomes the shared prepend splice after `detach` |
| RcTree.Node.InsertAfter | src/rctree/mod.rs:225-252 | the picture becomes the shared insert-after splice after `detach` |
| RcTree.Node.InsertBefore | src/rctree/mod.rs:254-281 | the picture becomes rctree's own insert-before writes after `detach` |
| RcTree.RcAttachLastIs | src/rctree/mod.rs:173-198 | rctree's append writes, in its order, equal the shared `AttachLast` |
| RcTree.RcAttachFirstIs | src/rctree/mod.rs:200-223 | rctree's prepend writes equal the shared `AttachFirst` |
| RcTree.RcAttachAfterIs | src/rctree/mod.rs:225-252 | rctree's insert_after writes equal the shared `AttachAfter` |
| RcTree.RcAttachBeforeIs | src/rctree/mod.rs:254-281 | rctree's insert_before writes equal the shared `AttachBefore` if and only if n is not already s's previous sibling |
| RcTree.InsertBeforeAgrees | src/rctree/mod.rs:254-281 | after `detach` on a well-formed tree n is never s's previous sibling, so `insert_before` is the shared splice |
| RcTree.EndChildren | src/rctree/mod.rs:173-223 | A node has a first child exactly when it has a last child; those children name it as parent, sit at the list ends and rank below it |
| RcTree.AppendDebugAssert | src/rctree/mod.rs:194-196 | the `debug_assert!` of `append` holds on every well-formed tree |
| RcTree.PrependDebugAssert | src/rctree/mod.rs:211-212 | the first `debug_assert!` of `prepend` holds on every well-formed tree |
| RcTree.AppendSafe | src/rctree/mod.rs:173-223 | on a well-formed tree, `append` and `prepend` borrow no cell twice when n is not q and not a child or sibling of q |
| RcTree.InsertSafe | src/rctree/mod.rs:225-281 | on a well-formed tree, `insert_after` and `insert_before` borrow no cell twice unless n is a child or sibling of s or its parent |
| RcTree.NodeIter.constructor | src/rctree/mod.rs:334-350 | an iterator starts at the given node and follows the given link |
| RcTree.NodeIter.Next | src/rctree/mod.rs:339-347 | `next` yields the current node and moves along the link |
| RcTree.Ancestors | src/rctree/mod.rs:131-134 | the iterator starts at n and follows parent links |
| RcTree.PrecedingSiblings | src/rctree/mod.rs:136-139 | the iterator starts at n and follows previous-sibling links |
| RcTree.FollowingSiblings | src/rctree/mod.rs:141-144 | the iterator starts at n and follows next-sibling links |
| RcTree.Children | src/rctree/mod.rs:146-149 | the iterator starts at p's first child and follows next-sibling links |
| RcTree.ReverseChildren | src/rctree/mod.rs:151-154 | the iterator starts at p's last child and follows previous-sibling links |
| RcTree.Collect | src/rctree/mod.rs:339-347 | draining an iterator yields the walk along its link and exhausts it |
| RcTree.Traverse.constructor | src/rctree/mod.rs:160-163 | A traversal starts at `Start(root)` with no steps taken |
| RcTree.Traverse.Next | src/rctree/mod.rs:394-427 | `next` yields the current edge, and the following one is the step function's successor |
| RcTree.TraverseAll | src/rctree/mod.rs:394-427 | draining `traverse(root)` yields exactly `Edges(sh, root)` |
| RcTree.Descendants.constructor | src/rctree/mod.rs:156-158 | `descendants` wraps a fresh traversal |
| RcTree.Descendants.Next | src/rctree/mod.rs:369-380 | each call yields the next node of the pre-order, or `None` once it is exhausted |
| RcTree.DescendantsAll | src/rctree/mod.rs:369-380 | draining `descendants(root)` yields exactly the pre-order of root's subtree |
| RcTree.FindNode | src/rctree/mod.rs:286-302 | the first pre-order node of the subtree holding the value, or `None` when there is none |
| TreeScenario.FullOrder | src/idtree/test.rs:54-56 | on any well-formed picture shaped like the test's tree, the pre-order from 5 is [5, 6, 7, 1, 4, 2, 3, 9, 8, 10] |
| TreeScenario.OrderWithoutOne | src/idtree/test.rs:58-61 | without node 1 among 5's children, the pre-order from 5 is [5, 6, 7, 9, 8, 10] |
| TreeScenario.OrderWithoutEight | src/rctree/test.rs:46-51 | without node 8, the pre-order from 5 is [5, 6, 7, 1, 4, 2, 3, 9, 10] |
| TreeScenario.AncestorsOfTwo | src/idtree/test.rs:89-90 | on the test's original tree [6, 7, 1, 9, 8, 10] below 5, `ancestors(2)` yields [2, 1, 5]. The test asks after `8.insert_after(1)`, which changes only the children of 5, so the answer is the same |
| TreeScenario.ParentsOfTwo | src/idtree/test.rs:89-90 | in that tree 2 hangs below 1 and 1 below the root 5 |
| TreeScenario.ParentWalk | src/idtree/mod.rs:235-252 | the walk up from 2 in such a picture is [2, 1, 5] |
| TreeScenario.IdTreeWalks | src/idtree/test.rs:54-56 | on any idtree arena whose picture has the test tree's shape, the walks yield [5, 6, 7, 1, 4, 2, 3, 9, 8, 10] from `descendants(5)` and [2, 1, 5] from `ancestors(2)` |
| TreeScenario.IdTreeDetachOne | src/idtree/test.rs:58-61 | on any picture with the test tree's shape, idtree's `detach(1)` leaves the children lists of the tree without 1, and `descendants(5)` is [5, 6, 7, 9, 8, 10] |
| TreeScenario.RcTreeDetachEight | src/rctree/test.rs:46-51 | detaching 8 (the previous sibling of 10) leaves 8 free, the tree well formed, and `descendants` of 5 is [5, 6, 7, 1, 4, 2, 3, 9, 10] |

## Left out

Panics that the model turns into preconditions or into an `Option` result:

- QuickSort.QuickSort: `requires low >= high || high < a.Length`. When the range is not trivial and `high` lies past the end of the array, the source panics with an index out of bounds; the model does not cover those calls. The `p - 1` underflow is modelled: it is the `false` result (see Findings).
- QuickSort.QuickSortFixed: the same `requires` as QuickSort.QuickSort, for the same out-of-bounds panic.
- BinarySearch.Search: `requires right <= |a|`. The source reads only the middle elements, so some calls with `right > len` complete. One example: `[1, 2, 3]` with key 1 and right 4 returns `Some(0)`. Others panic, such as key 4 with right 4. The model covers only ranges inside the slice.
- HuffmanBits.BitReader.ReadBit: `requires Pos() < |BytesBits(buf)|`. Reading past the end of `buf` panics in the source (src/huffman_coding/mod.rs:81).
- HuffmanTree.Built: requires `Startable`, which includes at least one positive count. On empty data, `build_tree` unwraps an empty queue and panics (src/huffman_coding/mod.rs:208).
- HuffmanCoding.Huffman.BuildTree: requires `Startable`, for the same panic as HuffmanTree.Built.
- HuffmanCoding.Huffman.CompressData: `requires |data| > 0`, for the same empty-queue panic.
- HuffmanCoding.RoundTrip: `requires |data| > 0`, for the same empty-queue panic.
- HuffmanCoding.Huffman.DecompressData: requires a non-empty frequency table (the same panic). It also requires that reading the data along the rebuilt tree succeeds for `root.count` symbols. On truncated or corrupt data the source reads past `buf` and panics, and the model does not cover that case.
- HuffmanCoding.Huffman.CompressData and HuffmanCoding.Huffman.DecompressData require a fresh instance (`tree == Fresh()`). Reusing an instance that has already built a tree is not modelled.
- KthSmallest.KthSmallest: returns `None` where the source panics on `assert!(k < len)` (src/kth_smallest/mod.rs:2). `None` stands for the panic.
- RcTree.Node.Detach: requires `DetachSpares`, i.e. no `RefCell` borrowed twice. A second `borrow_mut` of a borrowed cell panics in the source.
- RcTree.Node.Append: requires `AppendBorrows`, the no-double-borrow condition. Re-appending q's first or last child to q is one case that panics in the source: `detach` then borrows q, which `append` already holds (src/rctree/mod.rs:29-31, 39-41). A middle child is detached through its two siblings and does not panic. RcTree.AppendSafe shows that the condition holds whenever n is not q and is not a child or sibling of q.
- RcTree.Node.Prepend: requires `PrependBorrows`, for the same kind of double-borrow panic as RcTree.Node.Append.
- RcTree.Node.InsertAfter: requires `InsertAfterBorrows`, for the same kind of panic. RcTree.InsertSafe shows when the condition holds.
- RcTree.Node.InsertBefore: requires `InsertBeforeBorrows`, for the same kind of panic as RcTree.Node.InsertAfter.
- RcTree: every `Weak::upgrade` is taken to succeed, because every linked node is alive. The branches that silently skip a write when an upgrade fails are not modelled.
- Trie.Trie.Remove: `requires word in path.Values && wordCnt > 0`. The source unwraps `find_last_node` and decrements a `usize` count, which panics otherwise. As in the source, the count is decremented even when the path exists but is not a stored word.
- Trie.Trie.FindWithPrefix: `requires |prefix| > 0`; the source asserts it (src/trie/mod.rs:162).
- Trie.Trie.Add: `requires x in nodes`. Indexing the slab with a missing id panics.
- SegTree.SegmentTree.constructor: `requires |a| > 0`. `new` computes `len() - 1` and underflows on an empty array.
- SegTree.SegmentTree.Query: returns `None` where the source panics on its three assertions, `left <= right` and both ends inside the root's range (src/segtree/mod.rs:114-116). `None` stands for the panic.
- SegTree.SegmentTree.Replace: `requires i < |contents|`, in place of the source's bound assertion (src/segtree/mod.rs:120-121).
- BitSet.BitSet.Set: `requires idx / 64 < |words|`. An index beyond the words panics.
- BitSet.BitSet.Clear: `requires idx / 64 < |words|`, for the same index panic.
- BitSet.BitSet.Flip: `requires idx / 64 < |words|`, for the same index panic.
- BitSet.BitSet.Test: `requires idx / 64 < |words|`, for the same index panic.
- BitSet.BitSet.SetAll: `requires size > 0`. A set of size 0 has no words, and `clear_unused` then indexes `words[len - 1]` with `len == 0`, so `len - 1` underflows (src/bitset/mod.rs:215-218). `last_mask` itself does not panic at size 0.
- BitSet.BitSet.All1: `requires size > 0`. With no words, both `0..len - 1` and `words[len - 1]` underflow `len - 1` (src/bitset/mod.rs:96-103).
- BitSet.BitSet.ClearUnused: `requires size > 0`. With no words, `words[len - 1]` underflows `len - 1` (src/bitset/mod.rs:215-218).
- BitSet.BitSet.Not: `requires size > 0`. It calls `clear_unused`, which underflows `words.len() - 1` when there are no words.
- ListGraph.ListGraph.AddDirectedEdge: the source's `assert!` on the vertex ids becomes `requires src < |vertices| && des < |vertices|`.
- ListGraph.ListGraph.AddUndirectedEdge, ListGraph.ListGraph.GetWeight, ListGraph.ListGraph.EdgesFromSrc, ListGraph.ListGraph.BfsTraverse and ListGraph.ListGraph.DfsTraverse require ids below the vertex count, where the source asserts or indexes out of bounds.
- MatrixGraph.MatrixGraph.AddDirectedEdge: the source's `assert!` on the vertex ids becomes a `requires`. MatrixGraph.MatrixGraph.AddUndirectedEdge, MatrixGraph.MatrixGraph.EdgesFromSrc, MatrixGraph.MatrixGraph.BfsTraverse and MatrixGraph.MatrixGraph.DfsTraverse do the same.
- MatrixGraph.MatrixGraph.GetWeight: `requires src < |vertices| && des < |vertices|` in place of the source's `assert!` (src/graph/matrix_graph.rs:103). MatrixGraph.MatrixGraph.GetWeightListed carries the same requires.
- UnionFind.UnionFind.SetByIdx: `requires idx < |parent|`. An index outside the vectors panics.
- Heap.ParentIndex: `requires idx > 0` (`(idx - 1) / 2` underflows at 0).
- Cycle-forming edits are excluded in all three trees. The tree edits' lemmas require that the new parent lies outside the moved node's subtree, which no tree checks.

Types and widths:

- Heap.Heap and PriorityQueue.PriorityQueue: `T: PartialOrd` becomes a key function `key: T -> int` compared with integer order. An order that is not total, such as `f64` with NaN, is not modelled.
- MergeSort.MergeSort: `T: Ord + Clone` becomes a key function `key: T -> int` compared with integer order. Elements with equal keys need not be equal, so the model also covers orders that `Ord` would call equal only on equal values.
- HuffmanTree.Rank: the reversed `PartialOrd` of Huffman nodes becomes the key `-count`. The max-heap on that key yields the smallest count first, as the reversed order does.
- SelectionSort.SelectionSort, QuickSort.QuickSort, KthSmallest.KthSmallest, BinarySearch.Search, BinarySearch.Search2 and CntOccurrences.CntOccurrences: `T: Ord` becomes `int`. The algorithms only compare elements, so any total order behaves the same.
- Queue.Compacts: the `f64` test `head / len > 0.25` becomes `4 * head > len`. The two agree only while `len` stays well below 2^50.
- usize and u32 counters become unbounded integers: union-find sizes, Huffman counts and tree indices, the bit writer's and reader's counters, the trie's word count, the queue head, vertex ids and bitset sizes. Overflow and wrap-around are not modelled.
- `HashMap` becomes a Dafny `map`: the union-find index and the trie's children. The unspecified iteration order of `words_in_subtrie` is modelled by stating the words as a set (Trie.Trie.WordsInSubtrie, Trie.Trie.AllWords).
- Graph weights `Option<f32>` are a type parameter that is only stored and compared.
- Trie: `to_lowercase` is the identity, which is what it does on lowercase input. Unicode case mapping is not modelled.

Operations and tests not modelled:

- `dijkstra` of both graphs (src/graph/list_graph.rs:133-171, src/graph/matrix_graph.rs:177-221) is left out, because it computes with `f32` and an `F32MAX` sentinel.
- All `Debug`/`Display` formatting is left out, because it is string output: src/huffman_coding/mod.rs:12-26 and 125-169, src/bitset/mod.rs:15-35, src/graph/matrix_graph.rs:10-43 and src/graph/list_graph.rs:11-25.
- The bitset `Index` impl (src/bitset/mod.rs:125-132) transmutes a reference to a local value; only `test` is modelled.
- The trie's slab capacity and `reserve_exact` retry (src/trie/mod.rs:52-64) are allocation details. Ids are map keys that are never reused.
- Rc/Weak ownership, the drop counts the tree tests check, and the `typed_arena` allocator and lifetimes of arena_tree are memory management. Nodes are plain objects, or entries of a sequence for idtree.
- `src/lib.rs` and `src/graph/mod.rs` are module wiring and plain `Vertex`/`Edge` types; the latter's types appear in `graph.dfy`.
- The segment tree's 10000-element query test (src/segtree/test.rs:19-23) and its benchmark (src/segtree/test.rs:36-46) are not restated.
- TreeScenario: the scenarios are proved on any well-formed picture of the test tree's shape, not by running the tests' `append` calls one after the other. The rctree scenario is likewise proved on such a picture rather than through the rctree methods. The idtree test's children, reverse-children and sibling lists after `detach(1)`, and its re-insertion `8.insert_after(1)` (src/idtree/test.rs:63-87), are not restated. The `find_node` tests (src/idtree/test.rs:97-136, src/arena_tree/test.rs:91-133) and the arena_tree creation test are covered only by the general lemmas.
- TreeAttach.InsertBeforeMoves, TreeAttach.InsertAfterMoves, IdTree.InsertBeforeFree and IdTree.InsertAfterFree: these cover only an `s` that has a parent. Inserting next to a root `s` is not stated. The source then links `n` as a sibling of a root, and the children-list picture has no list for roots.
- Graph tests: the undirected-edge test is restated for the matrix graph only, and the edge-list test for the list graph only.

## Findings

| source | as written | input that shows it | evidently intended | confidence | as-written member | corrected member |
|---|---|---|---|---|---|---|
| src/union_find/mod.rs:60-66 | `union_sets` adds the size of one root to the other even when both values already have the same root | `add_set(0)`, then `union_sets(0, 0)`: the set {0} has size 2 | a union of two values in the same set changes no size | not executed | UnionFind.UnionFind.UnionSets, UnionFind.SelfUnionDoubles | UnionFind.UnionFind.UnionSetsFixed, UnionFind.UnionSizes |
| src/quick_sort/mod.rs:4 | `quick_sort(array, low, p - 1)` is called with `usize` `p` even when `partition` returns 0 | `[2, 1]`, low 0, high 1: the pivot 1 lands at 0 and `0 - 1` underflows | recurse on the left part only when it is non-empty | not executed | QuickSort.QuickSort, QuickSort.AsWrittenPanics, QuickSort.TwoOnePanics | QuickSort.QuickSortFixed, QuickSort.QuickSortedSorts |
| src/bsearch_tree/mod.rs:98-112 | `minimum` recurses into the left child and returns `None` at an `Empty` one, even though the node itself holds the least value; `maximum` does the same on the right | insert 5 then 7: `Node(Empty, 5, Leaf(7))`, and `minimum()` is `None` | the node holding the least (greatest) value | not executed | BSearchTree.BSearchTree.Minimum, BSearchTree.MinimumMisses, BSearchTree.MaximumMisses | BSearchTree.BSearchTree.MinimumNode, BSearchTree.MinimumNodeLeast, BSearchTree.MaximumNodeGreatest |
| src/arena_tree/mod.rs:126-152 | `insert_before` never sets the new node's parent and next sibling; `insert_after` never sets its parent and previous sibling | the test tree (src/arena_tree/test.rs:61): after `1.insert_before(6)`, `descendants(5)` is [5, 6] | the new node is spliced into the sibling list with the sibling's parent | not executed | ArenaTree.ArenaNode.InsertBefore, ArenaTree.InsertBeforeBreaks, ArenaTree.InsertAfterBreaks, ArenaTree.InsertBeforeTestRun | ArenaTree.ArenaNode.InsertBeforeLinked, ArenaTree.ArenaNode.InsertAfterLinked, TreeAttach.InsertBeforeMoves |
| src/idtree/mod.rs:119-135 | `detach` leaves the node's own parent and sibling links, so a later `append`, `prepend`, `insert_before` or `insert_after` of it keeps a stale link | root 0 with children 1, 2 and a free node 3: after `3.append(1)`, node 1 still names 2 as next sibling, so `children(3)` yields 1, 2 | `detach` clears the node's parent and sibling links, as arena_tree and rctree do | not executed | IdTree.Arena.Detach, IdTree.AppendStale, IdTree.PrependStale, IdTree.InsertBeforeStale, IdTree.InsertAfterStale | IdTree.Arena.DetachCleared, IdTree.AppendFree |
| src/trie/mod.rs:205-222 | the `while` loop never ends once it reaches a childless root: with no parent, the body changes nothing | insert "a", then remove "a": the leaf goes, then the loop spins at the root | stop at the root | not executed | Trie.DeleteSpinsAtRoot, Trie.RemoveOnlyWordSpins | Trie.Trie.DeleteNode, Trie.Trie.Remove |
| src/bitset/mod.rs:138 | `BitAnd` takes `min(self.words.len(), self.words.len())`, so it indexes `rhs.words` up to `self`'s word count | a 128-bit set AND a 64-bit set: `rhs.words[1]` is out of bounds | `min(self.words.len(), rhs.words.len())` | not executed | BitSet.AndAsWrittenAgrees, BitSet.AndAsWrittenPanics | BitSet.BitSet.BitAnd, BitSet.HasAnd |
