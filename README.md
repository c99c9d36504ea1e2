# Data-structure and recursion labs, modelled in Dafny

This project models the algorithmic core of a set of Python laboratory
exercises and proves what they promise:

- **lab06** — an unbalanced binary search tree of integer keys.
  - `TreeNode` objects are linked through `left` and `right`.
  - A `BinarySearchTree` object holds the root and offers iterative insert,
    iterative and recursive search, recursive delete (in-order successor
    promotion), the leftmost/rightmost walks, a bound-tightening validity
    check and height.
- **lab02** — a singly linked list with `head`, `tail` and `size` fields,
  and three stack/deque tasks:
  - a bracket balance checker;
  - a deque palindrome check;
  - a FIFO print queue.
- **lab03** — recursive binary search and the Towers of Hanoi; factorial,
  naive Fibonacci and fast exponentiation; Fibonacci memoised in a
  dictionary.
- **lab00** — array summation.

## Files

| file | module | contents |
|---|---|---|
| `wrappers.dfy` | `Wrappers` | `Option` (Python's `None` or a value) |
| `bst_model.dfy` | `TreeModel` | the tree as a value; what insert, delete, search, the min/max walks, the validity check and height compute |
| `bst.dfy` | `Bst` | the heap tree; every method is proved against `TreeModel` |
| `linked_list.dfy` | `LinkedLists` | the linked list as a class over heap nodes |
| `task_solutions.dfy` | `TaskSolutions` | bracket checker, palindrome check, print queue |
| `recursion.dfy` | `Recursion` | factorial, Fibonacci, power |
| `recursion_tasks.dfy` | `RecursionTasks` | binary search and Hanoi, including a legal-play proof |
| `memoization.dfy` | `Memoization` | the Fibonacci cache as an object whose map field only grows |
| `sum_analysis.dfy` | `SumAnalysis` | the summation loop |

### How the tree is modelled

Every `TreeNode` carries two ghost fields, which are bookkeeping for the
proofs only:

- `Model` is the subtree it roots, as a `TreeModel.Tree` value.
- `Repr` is the set of its nodes.

`TreeNode.Valid()` says that these nodes form a tree and that `Model`
mirrors it. Search-tree ordering (`TreeModel.Ordered`) is a separate
predicate. Because of that, `is_valid_bst` can be proved to accept exactly
the ordered trees: insert and delete are proved to preserve ordering rather than
taking it for granted.

## Model

| member | source | states |
|---|---|---|
| TreeModel.Insert | lab06/src/binary_search_tree.py:37-52 | insert never removes a node and adds at most one |
| TreeModel.InsertKeys | lab06/src/binary_search_tree.py:37-52 | insert makes the key set the old keys plus the value |
| TreeModel.InsertOrdered | lab06/src/binary_search_tree.py:37-50 | insert keeps the strict left-less/right-greater ordering |
| TreeModel.InsertPresent | lab06/src/binary_search_tree.py:51-52 | when the walk meets the value, insert changes nothing |
| TreeModel.InsertAddsOneNode | lab06/src/binary_search_tree.py:37-50 | inserting an absent value adds exactly one node |
| TreeModel.InsertFinds | lab06/src/binary_search_tree.py:37-52 | after insert the search walk finds the value, whatever the tree |
| TreeModel.Contains | lab06/src/binary_search_tree.py:60-68 | a value the search walk finds is a key of the tree |
| TreeModel.ContainsIffKey | lab06/src/binary_search_tree.py:60-68 | on an ordered tree the search walk succeeds iff the value is a key |
| TreeModel.MinKey | lab06/src/binary_search_tree.py:117-120 | the leftmost value is a key of the non-empty tree |
| TreeModel.MaxKey | lab06/src/binary_search_tree.py:127-130 | the rightmost value is a key of the non-empty tree |
| TreeModel.MinKeyLeast | lab06/src/binary_search_tree.py:117-120 | on an ordered tree the leftmost value is the least key |
| TreeModel.MaxKeyGreatest | lab06/src/binary_search_tree.py:127-130 | on an ordered tree the rightmost value is the greatest key |
| TreeModel.Delete | lab06/src/binary_search_tree.py:94-110 | a delete leaves the empty tree only when the tree had at most one node |
| TreeModel.DeleteAbsent | lab06/src/binary_search_tree.py:94-110 | deleting an absent value returns the subtree unchanged |
| TreeModel.DeleteKeys | lab06/src/binary_search_tree.py:94-110 | on an ordered tree delete makes the key set the old keys minus the value |
| TreeModel.DeleteOrdered | lab06/src/binary_search_tree.py:94-110 | delete, including successor promotion in the two-child case, keeps the ordering |
| TreeModel.DeleteCount | lab06/src/binary_search_tree.py:94-110 | on an ordered tree delete removes exactly one node when the value is a key and none otherwise |
| TreeModel.IsValidBst | lab06/src/binary_search_tree.py:144-149 | a subtree that passes the check has every key strictly between the bounds |
| TreeModel.IsValidBstIffOrdered | lab06/src/binary_search_tree.py:144-149 | the bound-tightening check holds iff the tree is ordered and all keys lie strictly between the bounds, so equal keys fail |
| TreeModel.Height | lab06/src/binary_search_tree.py:157-161 | the height is at most the node count, and 0 exactly for the empty tree |
| TreeModel.HeightBounds | lab06/src/binary_search_tree.py:157-161 | the node count is below 2^height, so the height is at least log2(count + 1) |
| TreeModel.BalancedScenario | lab06/src/analysis.py:119-121 | inserting 50, 30, 70, 20, 40, 60, 80 gives the complete tree of height 3; deleting 50 promotes 60 |
| TreeModel.IncreasingHeight | lab06/src/analysis.py:66-70 | inserting any strictly increasing sequence into the empty tree gives a right chain whose height is the number of values |
| TreeModel.DegenerateScenario | lab06/src/analysis.py:133-135 | inserting 1..6 in order gives a right chain of height 6 |
| Bst.TreeNode.constructor | lab06/src/binary_search_tree.py:15-18 | a new node holds the value and has no children |
| Bst.Attach | lab06/src/binary_search_tree.py:39-49 | the missing child on the value's side becomes a new leaf holding the value, and the node's model becomes the insert of the value |
| Bst.LinkLeaf | lab06/src/binary_search_tree.py:37-50 | hanging the leaf below the walked path turns the root's model into the insert of the value, and the root's nodes grow by the leaf only |
| Bst.BinarySearchTree.constructor | lab06/src/binary_search_tree.py:25-26 | a new tree has no root and models the empty tree |
| Bst.BinarySearchTree.Insert | lab06/src/binary_search_tree.py:28-52 | the new tree is the insert of the value; its keys are the old keys plus the value; ordering is preserved; an empty tree gets a one-node root; a value the walk meets leaves every node unchanged |
| Bst.BinarySearchTree.Search | lab06/src/binary_search_tree.py:54-68 | returns the node `_search_recursive` returns from the root; non-null iff the walk finds the value, which on an ordered tree means iff it is a key; a found node holds the value |
| Bst.BinarySearchTree.SearchRecursive | lab06/src/binary_search_tree.py:70-80 | non-null iff the walk from the node finds the value; a found node holds the value and belongs to the subtree |
| Bst.BinarySearchTree.Delete | lab06/src/binary_search_tree.py:82-87 | the new tree is the delete of the value; on an ordered tree the keys lose exactly the value and ordering is kept; an absent value changes nothing |
| Bst.BinarySearchTree.DeleteRecursive | lab06/src/binary_search_tree.py:89-110 | the returned subtree is built from nodes of the old one and models the delete of the value from it; for an absent value it is the same root and no node changes |
| Bst.BinarySearchTree.DeleteInChild | lab06/src/binary_search_tree.py:96-99 | deleting below a node whose value differs keeps the subtree valid over the same nodes and makes its model the delete of the value; an absent value changes no node |
| Bst.BinarySearchTree.RemoveNode | lab06/src/binary_search_tree.py:101-110 | the node holding the value is removed: the returned subtree is built from nodes of the old one and models the delete of the node's value, by child promotion or by successor promotion |
| Bst.BinarySearchTree.FindMin | lab06/src/binary_search_tree.py:112-120 | returns a node of the subtree with no left child, holding its leftmost value, which is ≤ every key when the subtree is ordered |
| Bst.BinarySearchTree.FindMax | lab06/src/binary_search_tree.py:122-130 | returns a node of the subtree with no right child, holding its rightmost value, which is ≥ every key when the subtree is ordered |
| Bst.BinarySearchTree.IsValidBst | lab06/src/binary_search_tree.py:132-137 | true iff the tree is ordered |
| Bst.BinarySearchTree.IsValidBstFrom | lab06/src/binary_search_tree.py:139-149 | true iff the subtree is ordered and every key lies strictly between the optional bounds |
| Bst.BinarySearchTree.Height | lab06/src/binary_search_tree.py:151-161 | the height of the modelled subtree, between the log of the node count and the node count |
| Bst.BuildTree | lab06/src/analysis.py:118-121 | a new tree with the values inserted in turn models the inserts of those values into the empty tree |
| Bst.InsertSearchScenario | lab06/src/test_binary_search_tree.py:10-28 | after inserting 10, 5 and 15, search finds a node holding each value and `is_valid_bst` is true |
| Bst.DeleteScenario | lab06/src/test_binary_search_tree.py:18-22 | after inserting 10 and 5 and deleting 5, search for 5 returns null |
| Bst.HeightScenario | lab06/src/analysis.py:116-135 | the balanced insertion order gives a valid tree of height 3, the increasing order height 6 |
| LinkedLists.Node.constructor | lab02/src/linked_list.py:4-12 | a new node holds the data and has no successor |
| LinkedLists.LinkedList.constructor | lab02/src/linked_list.py:18-22 | a new list has no head or tail, size 0 and no contents |
| LinkedLists.LinkedList.InsertAtStart | lab02/src/linked_list.py:24-42 | contents become the data followed by the old contents; size grows by one; an empty list's tail is the new node |
| LinkedLists.LinkedList.InsertAtEnd | lab02/src/linked_list.py:44-62 | contents become the old contents followed by the data; size grows by one; tail is the new node |
| LinkedLists.LinkedList.DeleteFromStart | lab02/src/linked_list.py:64-85 | an empty list returns None and is unchanged; otherwise returns the first data, drops it from the contents and shrinks size by one, and a one-element list loses head and tail |
| LinkedLists.LinkedList.Traversal | lab02/src/linked_list.py:87-103 | returns exactly the contents, in order, without changing the list |
| LinkedLists.LinkedList.IsEmpty | lab02/src/linked_list.py:105-114 | true iff the contents are empty, iff size is 0 |
| LinkedLists.LinkedListDemo | lab02/src/linked_list.py:24-103 | a sequence of inserts, traversals and deletes yields the promised contents, and deleting from an emptied list gives None |
| TaskSolutions.Scan | lab02/src/task_solutions.py:18-24 | the stack scan can empty a stack only after reading at least as many characters as the stack holds |
| TaskSolutions.Brackets | lab02/src/task_solutions.py:18-24 | keeps only the six bracket characters |
| TaskSolutions.ScanIgnoresOthers | lab02/src/task_solutions.py:18-24 | characters other than brackets do not affect the stack scan |
| TaskSolutions.ScanKeepsOpeners | lab02/src/task_solutions.py:19-24 | the stack only ever holds opening brackets |
| TaskSolutions.ScanNested | lab02/src/task_solutions.py:18-24 | a properly nested bracket group leaves the stack as it found it |
| TaskSolutions.ScanEmptiesShape | lab02/src/task_solutions.py:18-26 | a bracket string that empties a stack of openers is a nesting followed by the closers of that stack |
| TaskSolutions.BalancedIffNested | lab02/src/task_solutions.py:15-26 | the scan ends with an empty stack iff the brackets of the string form a properly nested structure |
| TaskSolutions.CheckBracketsBalance | lab02/src/task_solutions.py:3-26 | true iff the scan ends with an empty stack, iff the brackets form a properly nested structure |
| TaskSolutions.ScanConcat | lab02/src/task_solutions.py:18-24 | scanning a concatenation is scanning the second part from the stack the first part leaves |
| TaskSolutions.ClosingMismatchRejects | lab02/src/task_solutions.py:21-23 | a closer met with an empty stack or a mismatched top makes the whole check fail |
| TaskSolutions.BalancedDemos | lab02/src/task_solutions.py:111-114 | "()", "()[]{}" and "([{}])" are balanced |
| TaskSolutions.UnbalancedDemos | lab02/src/task_solutions.py:115-117 | "(]" and "([)]" fail on a closer; "((()" leaves two openers on the stack |
| TaskSolutions.Reverse | lab02/src/task_solutions.py:46-50 | the reverse has the same length |
| TaskSolutions.ReverseIndex | lab02/src/task_solutions.py:46-50 | position k of the reverse holds position length-1-k |
| TaskSolutions.PalindromeIffMirrored | lab02/src/task_solutions.py:46-50 | a sequence equals its reverse iff each position matches its mirror position |
| TaskSolutions.ShortIsPalindrome | lab02/src/task_solutions.py:46 | a sequence of length at most 1 is a palindrome |
| TaskSolutions.Clean | lab02/src/task_solutions.py:42 | the lower-cased alphanumeric characters of the text, in order: a text with no alphanumeric character cleans to nothing, and when every character lower-cases to one character the result is no longer than the text |
| TaskSolutions.CleanConcat | lab02/src/task_solutions.py:42 | cleaning distributes over concatenation |
| TaskSolutions.IsPalindromeDeque | lab02/src/task_solutions.py:29-50 | true iff the lower-cased alphanumeric filtering of the text equals its reverse |
| TaskSolutions.RacecarDemo | lab02/src/task_solutions.py:130 | "racecar" cleans to itself and is a palindrome |
| TaskSolutions.MadamDemo | lab02/src/task_solutions.py:132 | "Madam, I'm Adam" cleans to "madamimadam", a palindrome |
| TaskSolutions.RozaDemo | lab02/src/task_solutions.py:129 | the Cyrillic sentence cleans to a 21-letter palindrome |
| TaskSolutions.HelloDemo | lab02/src/task_solutions.py:131 | "hello" is not a palindrome |
| TaskSolutions.NotAPalindromeDemo | lab02/src/task_solutions.py:133 | "not a palindrome" cleans to a string that differs from its reverse |
| TaskSolutions.PrintQueue.constructor | lab02/src/task_solutions.py:56-58 | a new queue is empty |
| TaskSolutions.PrintQueue.Enqueue | lab02/src/task_solutions.py:60-69 | the task joins the back of the queue |
| TaskSolutions.PrintQueue.Dequeue | lab02/src/task_solutions.py:71-82 | an empty queue gives None and stays empty; otherwise the oldest task leaves and is returned |
| TaskSolutions.PrintQueue.ProcessQueue | lab02/src/task_solutions.py:84-94 | the tasks are printed in arrival order, all of them, and the queue ends empty |
| TaskSolutions.PrintQueue.IsEmpty | lab02/src/task_solutions.py:96-105 | true iff the queue has length 0 |
| TaskSolutions.PrintQueueDemo | lab02/src/task_solutions.py:145-154 | enqueuing tasks and processing the queue prints them in the order added, and a further dequeue gives None |
| Recursion.Factorial | lab03/src/recursion.py:4-7 | the factorial is at least 1 and at least n |
| Recursion.FactorialDivisible | lab03/src/recursion.py:4-7 | every k in 1..n divides factorial(n) |
| Recursion.Fibonacci | lab03/src/recursion.py:13-18 | the n-th Fibonacci number is positive for n >= 1 |
| Recursion.PowAdd | lab03/src/recursion.py:27-32 | a^(m+k) = a^m · a^k, the identity behind squaring the half power |
| Recursion.Power | lab03/src/recursion.py:24-32 | fast exponentiation computes a^n for every n >= 0 |
| Recursion.PowerDepthLogarithmic | lab03/src/recursion.py:28-31 | the recursion depth d of power(a, n) satisfies 2^(d-1) <= n < 2^d |
| RecursionTasks.BinarySearch | lab03/src/recursion_tasks.py:5-14 | -1 for an empty range; any other result is an index in the range holding the target; on a sorted range -1 iff the target is absent |
| RecursionTasks.BinarySearchDemo | lab03/src/recursion_tasks.py:36-38 | 7 is found at index 3 of [1, 3, 5, 7, 9, 11] |
| RecursionTasks.Hanoi | lab03/src/recursion_tasks.py:26-32 | hanoi(n) prints 2^n - 1 moves |
| RecursionTasks.HanoiDemo | lab03/src/recursion_tasks.py:27-29 | one disk takes the single move of disk 1; hanoi(3, "A", "C", "B") prints the seven expected moves |
| RecursionTasks.HanoiCountRecurrence | lab03/src/recursion_tasks.py:30-32 | the move count obeys m(n) = 2·m(n-1) + 1 |
| RecursionTasks.HanoiSolves | lab03/src/recursion_tasks.py:26-32 | every printed move is legal, and the moves carry the tower of n disks from source to target, leaving every other disk in place |
| Memoization.NewKeysOfBothCalls | lab03/src/memoization.py:16-17 | the keys the two recursive calls add, with n, are the keys fibonacci_memo(n) adds |
| Memoization.FibonacciCache.constructor | lab03/src/memoization.py:7 | the cache starts empty and valid |
| Memoization.FibonacciCache.FibonacciMemo | lab03/src/memoization.py:9-18 | returns the naive Fibonacci number and caches it under n; entries are never overwritten; the new keys are n and, for n >= 2, every smaller number; a cached n changes nothing |
| Memoization.Benchmark | lab03/src/memoization.py:28-50 | all benchmark calls return the naive Fibonacci numbers, and calls for smaller n after the first are served entirely from the cache |
| SumAnalysis.SumAppend | lab00/sum_analysis.py:32-33 | the sum of xs + [x] is the sum of xs plus x |
| SumAnalysis.SumConcat | lab00/sum_analysis.py:32-33 | the sum of a concatenation is the sum of the sums |
| SumAnalysis.SumArray | lab00/sum_analysis.py:20-34 | the loop returns the mathematical sum of the elements, 0 for an empty list, without changing the input |

## Left out

- Console output is not modelled. The printed results become returned values:
  - `hanoi` returns its moves as a sequence;
  - `process_queue` returns the printed tasks;
  - the demonstration drivers become lemmas and methods whose contracts state the printed verdicts.
- The following are not modelled, because they are I/O, clocks, randomness or plotting:
  - timing with `time`/`timeit`;
  - `random`;
  - matplotlib;
  - console input and file reading in lab00/sum_analysis.py;
  - `visualize_tree`/`print_tree_ascii` in lab06/src/analysis.py;
  - lab02/src/performance_analysis.py;
  - lines 20-60 of lab03/src/memoization.py, except the calls of its benchmark.
- `recursive_file_traversal` walks the file system with `os.walk` and is not modelled.
- TaskSolutions.IsPalindromeDeque: Unicode `str.isalnum` and `str.lower` are parameters. The demonstrations instantiate them with an ASCII-and-basic-Cyrillic table; the full Unicode tables are not part of the model.
- TaskSolutions.IsPalindromeDeque and TaskSolutions.PrintQueue: Python's `deque` is modelled as a sequence. Only its contents matter here.
- Bst.BinarySearchTree.IsValidBst: the `float('-inf')`/`float('inf')` sentinels become absent (`None`) bounds. No integer key equals an infinite float, so the comparisons agree.
- Bst.BinarySearchTree.Search: Python node identity is captured only as "a node of the tree holding the value"; which node is returned is fixed by its equality with `SearchRecursive`.
- Bst.BinarySearchTree.Insert: the walk and its branches are those of the source, but the walk also records the nodes it passes in a sequence, O(h) extra space the source does not use. The source writes the new leaf into `current` just before its `break`. Here the loop only breaks at the missing child, and `LinkLeaf` then recurses down the recorded path, |path| - 1 calls, to that node. Its base case makes the single write through `Attach`, and the calls update the ghost `Model` and `Repr` of the path's nodes on the way back.
- Bst.BinarySearchTree.Delete: deleted nodes stay in the ghost `Repr` of the tree. The proofs need no tighter footprint.
- Bst.BinarySearchTree.DeleteRecursive: the two branches of `_delete_recursive` that walk down (lines 96-99) are a separate method, DeleteInChild, so that each proof stays small. The decision is the source's: a differing value walks down, an equal one goes to RemoveNode.
- RecursionTasks.BinarySearch requires `low..high` to lie within the array when the range is non-empty. Python's negative-index wrap-around and its IndexError past the end are not modelled.
- RecursionTasks.Hanoi requires n >= 1, because the source never reaches its base case for n = 0.
- Recursion.Factorial, Recursion.Fibonacci, Recursion.Power and Memoization.FibonacciCache.FibonacciMemo take natural numbers. For a negative argument the source never reaches a base case and recurses until Python raises RecursionError (for `fibonacci_memo`, lab03/src/memoization.py:16-17).
- Python's recursion limit is not modelled. Past about 1000 nested calls, the source's `height`, `_is_valid_bst`, `_search_recursive`, `_delete_recursive`, `factorial` and `fibonacci_memo` raise RecursionError, for example `height` on the chain that inserting 1..1000 in order builds. The model returns the mathematical result instead.
- TreeModel.BalancedScenario: the median-first insertion order is shown to give height ceil(log2(n + 1)) only for the driver's seven keys. No general lemma covers every n. The increasing order is covered for every sequence by TreeModel.IncreasingHeight.
- Memoization.FibonacciCache.FibonacciMemo: the module-level `memo` dictionary becomes a field of a cache object. The new keys are stated exactly, as n and, for n >= 2, all smaller numbers. "Every k in 0..n is cached" is therefore claimed only for n != 1, since fibonacci_memo(1) caches only 1.
