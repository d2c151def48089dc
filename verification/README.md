# Proofs about the EpLibrary containers and algorithms

This project models the header-only template library under
`EpOraLibrary/EpOraLibrary/EpLibraryHeaders` of the EpOraLibrary repository in Dafny: the Patricia
trie, the K-ary heap, the three sorts, the binary search, the sorted priority queue, the dynamic array
and the reference-count protocol of SmartObject. `dafny verify dfyconfig.toml` checks it.

| file | models |
|---|---|
| `EpAlgorithm.dfy` | comparison results, comparators as total preorders, classes of equal elements |
| `EpBinarySearch.dfy` | the search with its hit and miss index |
| `EpPatriciaTrieSpec.dfy` | the trie's nodes as sets of root paths, listings of a dictionary, the stack traversal |
| `EpPatriciaTrie.dfy` | the trie's nodes and operations on the heap |
| `EpPatriciaTrieRun.dfy` | whole runs of a trie against a map, and one mode against the other |
| `EpPatriciaTrieCopy.dfy` | the trie's deep copy, as a value taken off the heap |
| `EpKAryHeapSpec.dfy` | the list functions of the heap, and what they keep |
| `EpKAryHeap.dfy` | the pruned search and the heap class |
| `EpKAryHeapSift.dfy` | where sifting moves the pairs, slot by slot |
| `EpKAryHeapRun.dfy` | whole runs of the heap, and what its Erase leaves |
| `EpMergeSort.dfy`, `EpQuickSort.dfy`, `EpInsertionSort.dfy` | the sorts on arrays |
| `EpQuickSortScan.dfy` | what the partition does, element by element |
| `EpQuickSortForms.dfy` | when the two forms of quick sort leave the same list |
| `EpThreadSafePQueue.dfy` | the queue kept sorted by insertion |
| `EpSmartObject.dfy` | retain, release and delete as a transition system |
| `EpDynamicArray.dfy` | the growing array |

## How it is modelled

A comparator is any total preorder with the results less, equal and greater; different values may
compare equal. A character's comparator in the trie is given by a rank: the terminator is a template
argument, so the character type is integral, and every total preorder on it comes from a rank. Two
strings whose characters have the same ranks are one key.

A class of the source is a class here, and what its methods change is changed in place. An array
algorithm works on an `array`, with pointers into it as offsets. Each method is proved against a
function or predicate of the old state, and lemmas state what the source promises about that.

In the trie, the ghost map `at` gives the node at each root path. `Linked` says that the child lists are
exactly that map, strictly sorted, that leaves are exactly the nodes whose path ends with the terminator,
and that a leaf's string is its path. `Valid` adds that no inner node but the root is empty and that the
count is the number of entries. A trie's meaning is `Dict`, the map from paths to stored pairs, and
`Shape`, its child lists.

Both forms of an operation are methods of their own. Where both keep the same contract and that contract
fixes the result, they agree; where the orders differ, lemmas relate the two results exactly. The loop
forms keep the source's explicit stack of snapshots with its stages, and a measure shows that it runs empty.

SmartObject is a transition system in which taking the lock, changing the counter and giving the lock
back are separate steps of each thread. A thread retains only through a reference it holds and releases
each reference once. The lock is a real one: with `LOCK_POLICY_NONE`, which the constructor accepts, the
lock steps exclude nobody and nothing is claimed.

## Where the code departs from its documentation

The model follows the code, except in the first item.

- `getParentIdx(0)` is documented as -1, but the division is unsigned. The heap operations use the
  documented value; `CompiledRoot32` and `CompiledRoot64` say for which k the compiled expression gives it.
- `KAryHeap::Erase` passes the key as the index and always returns false; `ErasedKeepsPromiseIff` says when
  it still removes the right pair.
- `KAryHeap::erase(index)` only sifts down, so heap order can break; `ErasedAtKeepsOrderIff` says when.
- `IsEmpty` is inverted in the trie, the heap and the dynamic array.
- The two forms of quick sort pass the three candidates to the median in different orders. Where a list
  is partitioned at all, they agree on every input only when equal elements are identical
  (`FormsAgreeIff`, `ModesAgreeIff`); the results always agree up to the comparator (`FormsMatch`).
- Merge sort takes the right run on a tie, so it reverses equal elements instead of keeping their order.
- Copying a trie doubles the child lists below the root at every level (`CopyOfGoodIff`, `CopyOfCounts`).
- The trie passes an `int` where the search wants a `size_t` reference; the model treats it as the index.

## Model

| member | source | states |
|---|---|---|
| `EpPatriciaTrieSpec.CanonicalPaths` | EpOraLibrary/EpOraLibrary/EpLibraryHeaders/epPatriciaTrie.h:752-787 | The nodes of a trie are exactly the prefixes of its leaves, and the root: every non-root inner node has a leaf below it and nothing else exists. |
| `EpPatriciaTrieSpec.SameLeavesSamePaths` | EpOraLibrary/EpOraLibrary/EpLibraryHeaders/epPatriciaTrie.h:752-877 | Two trees in good order with the same leaves have the same nodes. |
| `EpPatriciaTrieSpec.TreeUnique` | EpOraLibrary/EpOraLibrary/EpLibraryHeaders/epPatriciaTrie.h:752-877 | A set of keys has one tree, nodes and child lists, whatever the history. |
| `EpPatriciaTrieSpec.LeafIsKey` | EpOraLibrary/EpOraLibrary/EpLibraryHeaders/epPatriciaTrie.h:752-787 | A leaf path contains the terminator once, at its end. |
| `EpPatriciaTrieSpec.InsertedPaths` | EpOraLibrary/EpOraLibrary/EpLibraryHeaders/epPatriciaTrie.h:752-787 | Adding the missing prefixes of a key keeps a tree with no empty inner node and adds exactly that leaf. |
| `EpPatriciaTrieSpec.SweptShape` | EpOraLibrary/EpOraLibrary/EpLibraryHeaders/epPatriciaTrie.h:849-877 | While erase goes back up, what is left is a tree with the leaf gone, and only the next node up may be empty. |
| `EpPatriciaTrieSpec.SweptAll` | EpOraLibrary/EpOraLibrary/EpLibraryHeaders/epPatriciaTrie.h:849-877 | When erase has gone all the way up, exactly that leaf is gone and no inner node is empty. |
| `EpPatriciaTrieSpec.InsertErase` | EpOraLibrary/EpOraLibrary/EpLibraryHeaders/epPatriciaTrie.h:752-877 | Inserting an absent key and erasing it gives back the same nodes. |
| `EpPatriciaTrieSpec.EraseInsert` | EpOraLibrary/EpOraLibrary/EpLibraryHeaders/epPatriciaTrie.h:752-877 | Erasing a stored key and inserting it gives back the same nodes. |
| `EpPatriciaTrieSpec.ListingUnique` | EpOraLibrary/EpOraLibrary/EpLibraryHeaders/epPatriciaTrie.h:1168-1233 | A dictionary has exactly one listing in each order, so each pair stands in a listing once. |
| `EpPatriciaTrieSpec.ReverseLists` | EpOraLibrary/EpOraLibrary/EpLibraryHeaders/epPatriciaTrie.h:1168-1233 | The reverse of the ascending listing is the descending one. |
| `EpPatriciaTrieSpec.LoopReversesRecursive` | EpOraLibrary/EpOraLibrary/EpLibraryHeaders/epPatriciaTrie.h:1168-1233 | What the stack traversal lists is exactly the reverse of what the recursive one lists, of the same pairs. |
| `EpPatriciaTrieSpec.QueryModes` | EpOraLibrary/EpOraLibrary/EpLibraryHeaders/epPatriciaTrie.h:1028-1165 | The two modes of findAll list the same pairs; entry by entry the character after the query is the same, and the pairs that share it are in exactly reversed order. |
| `EpPatriciaTrieSpec.LoopEmit` | EpOraLibrary/EpOraLibrary/EpLibraryHeaders/epPatriciaTrie.h:1195-1233 | One round of the stack traversal at a leaf: what is listed stays everything the stack does not cover, in descending order. |
| `EpPatriciaTrieSpec.LoopExpand` | EpOraLibrary/EpOraLibrary/EpLibraryHeaders/epPatriciaTrie.h:1195-1233 | One round at an inner node: its children on the stack cover the same pairs. |
| `EpPatriciaTrieSpec.TodoShrinks` | EpOraLibrary/EpOraLibrary/EpLibraryHeaders/epPatriciaTrie.h:1195-1233 | Every round leaves a smaller set of nodes to visit, so the stack traversal ends. |
| `EpPatriciaTrie.Node.Leaf` | EpOraLibrary/EpOraLibrary/EpLibraryHeaders/epPatriciaTrie.h:1282-1297 | A leaf keeps the characters up to the first terminator and the terminator, reading no further. |
| `EpPatriciaTrie.LocateList` | EpOraLibrary/EpOraLibrary/EpLibraryHeaders/epPatriciaTrie.h:1443-1532 | In a sorted child list the binary search hits exactly when the child exists, and a miss gives the place that keeps the order. |
| `EpPatriciaTrie.PatriciaTrie.constructor` | EpOraLibrary/EpOraLibrary/EpLibraryHeaders/epPatriciaTrie.h:529-551 | A new trie is in good order and empty. |
| `EpPatriciaTrie.PatriciaTrie.Child` | EpOraLibrary/EpOraLibrary/EpLibraryHeaders/epPatriciaTrie.h:1522-1533 | operator[] of a node returns the child for that character, or NULL exactly when there is none. |
| `EpPatriciaTrie.PatriciaTrie.AddNode` | EpOraLibrary/EpOraLibrary/EpLibraryHeaders/epPatriciaTrie.h:1442-1463 | Adds exactly one inner node at its sorted place and keeps the tree linked; does nothing when the child exists. |
| `EpPatriciaTrie.PatriciaTrie.AddLeaf` | EpOraLibrary/EpOraLibrary/EpLibraryHeaders/epPatriciaTrie.h:1466-1487 | The same for a leaf holding the given string and data. |
| `EpPatriciaTrie.PatriciaTrie.RemoveNode` | EpOraLibrary/EpOraLibrary/EpLibraryHeaders/epPatriciaTrie.h:1490-1519 | Removes the child exactly when it is a leaf or has no children, and nothing else. |
| `EpPatriciaTrie.PatriciaTrie.RemovableIff` | EpOraLibrary/EpOraLibrary/EpLibraryHeaders/epPatriciaTrie.h:1490-1519 | A child list is empty exactly when the tree has no path below the node. |
| `EpPatriciaTrie.PatriciaTrie.AtLeaf` | EpOraLibrary/EpOraLibrary/EpLibraryHeaders/epPatriciaTrie.h:752-787 | A walk stands at a leaf exactly when the whole string has been consumed, so no character after the terminator is read. |
| `EpPatriciaTrie.PatriciaTrie.StopsShort` | EpOraLibrary/EpOraLibrary/EpLibraryHeaders/epPatriciaTrie.h:946-975 | Where a walk finds no child the string is not stored. |
| `EpPatriciaTrie.PatriciaTrie.InsertRecursive` | EpOraLibrary/EpOraLibrary/EpLibraryHeaders/epPatriciaTrie.h:752-782 | From any node on the path: NULL and no change when the key is there; else exactly its missing prefixes are added and the new leaf is returned. |
| `EpPatriciaTrie.PatriciaTrie.InsertLoop` | EpOraLibrary/EpOraLibrary/EpLibraryHeaders/epPatriciaTrie.h:789-846 | The loop form keeps the same contract as the recursive one, so both leave the same tree and result; its stack ends. |
| `EpPatriciaTrie.PatriciaTrie.EraseRecursive` | EpOraLibrary/EpOraLibrary/EpLibraryHeaders/epPatriciaTrie.h:849-873 | From any node on the path: false and no change when the key is absent; else exactly what the sweep of RemoveNode calls back up to that node removes. |
| `EpPatriciaTrie.PatriciaTrie.EraseLoop` | EpOraLibrary/EpOraLibrary/EpLibraryHeaders/epPatriciaTrie.h:881-944 | The two-stage stack machine keeps the same contract as recursive erase, and ends. |
| `EpPatriciaTrie.PatriciaTrie.FindAt` | EpOraLibrary/EpOraLibrary/EpLibraryHeaders/epPatriciaTrie.h:946-975 | Returns the leaf of the key and its data, or NULL with the output left alone. |
| `EpPatriciaTrie.PatriciaTrie.FindLoop` | EpOraLibrary/EpOraLibrary/EpLibraryHeaders/epPatriciaTrie.h:978-1026 | The loop form has the same result. |
| `EpPatriciaTrie.PatriciaTrie.TraverseRecursive` | EpOraLibrary/EpOraLibrary/EpLibraryHeaders/epPatriciaTrie.h:1168-1192 | Appends exactly the pairs below the node, each once, in ascending order of the strings. |
| `EpPatriciaTrie.PatriciaTrie.TraverseAllLoop` | EpOraLibrary/EpOraLibrary/EpLibraryHeaders/epPatriciaTrie.h:1195-1233 | Appends exactly the pairs below the node, each once, in descending order, and ends. |
| `EpPatriciaTrie.PatriciaTrie.FindAllRecursive` | EpOraLibrary/EpOraLibrary/EpLibraryHeaders/epPatriciaTrie.h:1028-1060 | Appends exactly the pairs that start with the query, each once, the exact match first; true exactly when the list is not empty. |
| `EpPatriciaTrie.PatriciaTrie.FindAllLoop` | EpOraLibrary/EpOraLibrary/EpLibraryHeaders/epPatriciaTrie.h:1069-1165 | The two-stage stack machine does the same, its subtrees in the loop traversal's order. |
| `EpPatriciaTrie.PatriciaTrie.CollectOthers` | EpOraLibrary/EpOraLibrary/EpLibraryHeaders/epPatriciaTrie.h:1046-1056 | At the end of the query, adds every other subtree to the exact match, and the exact match not again. |
| `EpPatriciaTrie.PatriciaTrie.Insert` | EpOraLibrary/EpOraLibrary/EpLibraryHeaders/epPatriciaTrie.h:693-705 | Succeeds exactly when the string is not NULL and its key is absent; then adds that entry alone, and keeps the count right. |
| `EpPatriciaTrie.PatriciaTrie.InsertHere` | EpOraLibrary/EpOraLibrary/EpLibraryHeaders/epPatriciaTrie.h:752-787 | The same for the protected insert from the root, in terms of the dictionary. |
| `EpPatriciaTrie.PatriciaTrie.Erase` | EpOraLibrary/EpOraLibrary/EpLibraryHeaders/epPatriciaTrie.h:708-720 | Succeeds exactly when the key is present; then removes that entry alone. |
| `EpPatriciaTrie.PatriciaTrie.Find` | EpOraLibrary/EpOraLibrary/EpLibraryHeaders/epPatriciaTrie.h:723-734 | Is the map lookup; the output is left alone on a miss. |
| `EpPatriciaTrie.PatriciaTrie.FindAll` | EpOraLibrary/EpOraLibrary/EpLibraryHeaders/epPatriciaTrie.h:737-749 | On an empty list: exactly the stored pairs that start with the query, and true exactly when there is one. On any list: those pairs behind what was there. |
| `EpPatriciaTrie.PatriciaTrie.Ref` | EpOraLibrary/EpOraLibrary/EpLibraryHeaders/epPatriciaTrie.h:634-653 | operator[]: the leaf of the key; when absent, one entry with default data is added and counted. |
| `EpPatriciaTrie.PatriciaTrie.ConstRef` | EpOraLibrary/EpOraLibrary/EpLibraryHeaders/epPatriciaTrie.h:655-664 | operator[] of a constant trie returns the stored data. |
| `EpPatriciaTrie.PatriciaTrie.SetData` | EpOraLibrary/EpOraLibrary/EpLibraryHeaders/epPatriciaTrie.h:1335-1339 | Writing through the returned reference changes that one entry's data. |
| `EpPatriciaTrie.PatriciaTrie.Clear` | EpOraLibrary/EpOraLibrary/EpLibraryHeaders/epPatriciaTrie.h:666-674 | The trie is empty and in good order. |
| `EpPatriciaTrie.PatriciaTrie.IsEmpty` | EpOraLibrary/EpOraLibrary/EpLibraryHeaders/epPatriciaTrie.h:676-683 | As written: true exactly when there is an entry, the opposite of its name. |
| `EpPatriciaTrie.PatriciaTrie.Size` | EpOraLibrary/EpOraLibrary/EpLibraryHeaders/epPatriciaTrie.h:685-690 | The number of entries. |
| `EpPatriciaTrie.SameKeysSameTree` | EpOraLibrary/EpOraLibrary/EpLibraryHeaders/epPatriciaTrie.h:629-749 | Two tries with the same keys have the same nodes, leaves and child lists and the same count, whatever calls and whatever mode led there; the leaves agree when the dictionaries do. |
| `EpPatriciaTrie.InsertedDict` | EpOraLibrary/EpOraLibrary/EpLibraryHeaders/epPatriciaTrie.h:752-787 | What an insertion does to the nodes adds its key to the dictionary and keeps every other entry. |
| `EpPatriciaTrie.ErasedDict` | EpOraLibrary/EpOraLibrary/EpLibraryHeaders/epPatriciaTrie.h:849-877 | What an erasure does to the nodes takes its key from the dictionary and keeps every other entry. |
| `EpPatriciaTrieRun.Perform` | EpOraLibrary/EpOraLibrary/EpLibraryHeaders/epPatriciaTrie.h:629-749 | Every call does to the dictionary, and returns, what the call on a map does and returns. |
| `EpPatriciaTrieRun.Run` | EpOraLibrary/EpOraLibrary/EpLibraryHeaders/epPatriciaTrie.h:629-749 | So does every run of Insert, Erase, Find, FindAll, assignment through operator[], Clear, IsEmpty and Size. |
| `EpPatriciaTrieRun.AnswersAllUnique` | EpOraLibrary/EpOraLibrary/EpLibraryHeaders/epPatriciaTrie.h:629-749 | What a run returns is determined by the map, the calls and, for the order of FindAll, the mode. |
| `EpPatriciaTrieRun.AnswersAlike` | EpOraLibrary/EpOraLibrary/EpLibraryHeaders/epPatriciaTrie.h:946-1233 | A call answered in the two modes gives the same answer, except that FindAll lists the pairs that share the character after the query in exactly reversed order. |
| `EpPatriciaTrieRun.BothModes` | EpOraLibrary/EpOraLibrary/EpLibraryHeaders/epPatriciaTrie.h:752-1233 | The same run in recursive and in loop mode gives the same dictionary and tree, and answers related in that way. |
| `EpPatriciaTrieRun.BothFindAll` | EpOraLibrary/EpOraLibrary/EpLibraryHeaders/epPatriciaTrie.h:1028-1165 | FindAll in the two modes gives the same pairs, entry by entry with the same next character, and the pairs that share it in exactly reversed order. |
| `EpPatriciaTrieRun.InsertThenErase` | EpOraLibrary/EpOraLibrary/EpLibraryHeaders/epPatriciaTrie.h:693-720 | Inserting an absent key and erasing it restores the dictionary and the tree. |
| `EpPatriciaTrieCopy.CopyOfGoodIff` | EpOraLibrary/EpOraLibrary/EpLibraryHeaders/epPatriciaTrie.h:553-583 | The copy of a valid trie is in good order if and only if no string but the empty one is stored. |
| `EpPatriciaTrieCopy.CopyOfCounts` | EpOraLibrary/EpOraLibrary/EpLibraryHeaders/epPatriciaTrie.h:553-583 | The copy of a valid trie holds a stored string of length n, terminator included, 2^(n-1) times, and no other string. |
| `EpPatriciaTrieCopy.CopyFails` | EpOraLibrary/EpOraLibrary/EpLibraryHeaders/epPatriciaTrie.h:553-583 | A trie with one string of one character, whose copy is out of order and holds it twice. |
| `EpPatriciaTrieCopy.TreeCounts` | EpOraLibrary/EpOraLibrary/EpLibraryHeaders/epPatriciaTrie.h:1358-1396 | The tree that is copied holds every stored string once. |
| `EpPatriciaTrieCopy.CopyOrderedIff` | EpOraLibrary/EpOraLibrary/EpLibraryHeaders/epPatriciaTrie.h:1358-1422 | A copied sorted tree is sorted, and equal to the original, exactly when the root's children have no children. |
| `EpPatriciaTrieCopy.CopyPairs` | EpOraLibrary/EpOraLibrary/EpLibraryHeaders/epPatriciaTrie.h:1358-1422 | From left to right the copy holds the pairs of the original, those of every inner node below the root twice over. |
| `EpPatriciaTrieCopy.CopyCounts` | EpOraLibrary/EpOraLibrary/EpLibraryHeaders/epPatriciaTrie.h:1358-1422 | Copying multiplies the occurrences of a string of length n, terminator included, by 2^(n-1). |
| `EpBinarySearch.BinarySearch` | EpOraLibrary/EpOraLibrary/EpLibraryHeaders/epBinarySearch.h:59-102 | The while(1) loop ends and computes the specified hit or miss index. |
| `EpBinarySearch.SearchCorrect` | EpOraLibrary/EpOraLibrary/EpLibraryHeaders/epBinarySearch.h:59-102 | On an ordered list: a hit exactly when an equal element exists, and a miss index is the one that cuts the list into below and above the key. |
| `EpBinarySearch.ProbeCuts` | EpOraLibrary/EpOraLibrary/EpLibraryHeaders/epBinarySearch.h:72-101 | From every window that holds the answer the search finds an equal element or the cut. |
| `EpBinarySearch.CutUnique` | EpOraLibrary/EpOraLibrary/EpLibraryHeaders/epBinarySearch.h:59-102 | There is at most one such cut. |
| `EpBinarySearch.SearchHits` | EpOraLibrary/EpOraLibrary/EpLibraryHeaders/epBinarySearch.h:59-102 | Which of several equal elements is hit: the first middle, halving the whole list, that lies among them; in a list of equal elements the middle one. |
| `EpBinarySearch.InsertKeepsSorted` | EpOraLibrary/EpOraLibrary/EpLibraryHeaders/epBinarySearch.h:59-102 | Inserting at the returned index, hit or miss, keeps the list sorted. |
| `EpThreadSafePQueue.ThreadSafePQueue.Push` | EpOraLibrary/EpOraLibrary/EpLibraryHeaders/epThreadSafePQueue.h:117-133 | The queue is the old one with the item inserted at the index of the binary search, duplicates too, and stays sorted. |
| `EpThreadSafePQueue.ThreadSafePQueue.Pop` | EpOraLibrary/EpOraLibrary/EpLibraryHeaders/epThreadSafeQueue.h:301-310 | Removes the front and nothing else. |
| `EpThreadSafePQueue.ThreadSafePQueue.Front` | EpOraLibrary/EpOraLibrary/EpLibraryHeaders/epThreadSafeQueue.h:256-264 | The front, which is a minimum. |
| `EpThreadSafePQueue.ThreadSafePQueue.Back` | EpOraLibrary/EpOraLibrary/EpLibraryHeaders/epThreadSafeQueue.h:267-275 | The back, which is a maximum. |
| `EpThreadSafePQueue.ThreadSafePQueue.IsExist` | EpOraLibrary/EpOraLibrary/EpLibraryHeaders/epThreadSafeQueue.h:224-238 | True exactly when the element type's == takes some item for the given one. |
| `EpThreadSafePQueue.ThreadSafePQueue.Erase` | EpOraLibrary/EpOraLibrary/EpLibraryHeaders/epThreadSafeQueue.h:285-299 | Removes the first item that == takes for the given one, and reports whether there was one. |
| `EpThreadSafePQueue.ErasedAt` | EpOraLibrary/EpOraLibrary/EpLibraryHeaders/epThreadSafeQueue.h:285-299 | Erasing takes out the first item that matches, whatever == is, and nothing else. |
| `EpThreadSafePQueue.PushedBeside` | EpOraLibrary/EpOraLibrary/EpLibraryHeaders/epThreadSafePQueue.h:117-133 | A new item goes directly before an equal one when there is one, and else to the one place where it belongs. |
| `EpThreadSafePQueue.PushedAmongEquals` | EpOraLibrary/EpOraLibrary/EpLibraryHeaders/epThreadSafePQueue.h:117-133 | Among equal items it goes before the first middle that the halving of the queue meets; in a queue of equal items before the middle one. |
| `EpThreadSafePQueue.StepAsAsked` | EpOraLibrary/EpOraLibrary/EpLibraryHeaders/epThreadSafeQueue.h:285-310 | One call of a run: push inserts there, pop takes the front, a minimum, and erase takes exactly the first item that matches, or nothing when none does. |
| `EpThreadSafePQueue.RunAsAsked` | EpOraLibrary/EpOraLibrary/EpLibraryHeaders/epThreadSafeQueue.h:285-310 | Every run does that, call by call. |
| `EpThreadSafePQueue.Perform` | EpOraLibrary/EpOraLibrary/EpLibraryHeaders/epThreadSafeQueue.h:285-310 | A call on the class leaves the queue, and takes out the items, that the call of a run does. |
| `EpThreadSafePQueue.PerformAll` | EpOraLibrary/EpOraLibrary/EpLibraryHeaders/epThreadSafeQueue.h:285-310 | So does a whole run on the class. |
| `EpThreadSafePQueue.RunKeepsSorted` | EpOraLibrary/EpOraLibrary/EpLibraryHeaders/epThreadSafePQueue.h:117-133 | Every run of Push, Pop and Erase keeps the queue sorted. |
| `EpThreadSafePQueue.RunConserves` | EpOraLibrary/EpOraLibrary/EpLibraryHeaders/epThreadSafePQueue.h:117-133 | Over every run, what is in the queue and what was taken out is what was in it and what was pushed. |
| `EpThreadSafePQueue.PushAllPopAllSorts` | EpOraLibrary/EpOraLibrary/EpLibraryHeaders/epThreadSafePQueue.h:117-133 | Pushing any list and popping everything sorts it. |
| `EpInsertionSort.InsertAt` | EpOraLibrary/EpOraLibrary/EpLibraryHeaders/epInsertionSort.h:55-71 | The inner loop shifts in place and inserts one element into the sorted part before it. |
| `EpInsertionSort.InsertionSort` | EpOraLibrary/EpOraLibrary/EpLibraryHeaders/epInsertionSort.h:55-71 | Sorts the sub-range in place as specified and touches nothing else. |
| `EpInsertionSort.InsertionSortedStable` | EpOraLibrary/EpOraLibrary/EpLibraryHeaders/epInsertionSort.h:55-71 | The result is sorted and every class of equal elements keeps its order. |
| `EpMergeSort.MergeSortedReversesTies` | EpOraLibrary/EpOraLibrary/EpLibraryHeaders/epMergeSort.h:87-137 | The result is sorted, and every class of equal elements comes out in exactly reversed input order. |
| `EpMergeSort.MergeSortedOnly` | EpOraLibrary/EpOraLibrary/EpLibraryHeaders/epMergeSort.h:87-137 | No other list has that property, and the result is a permutation of the input. |
| `EpMergeSort.MergeSortIsReversedInsertionSort` | EpOraLibrary/EpOraLibrary/EpLibraryHeaders/epMergeSort.h:87-137 | The result is what a stable sort of the reversed input gives. |
| `EpMergeSort.MergedClass` | EpOraLibrary/EpOraLibrary/EpLibraryHeaders/epMergeSort.h:103-128 | A merge puts the right run's equal elements before the left run's. |
| `EpMergeSort.MergeToWorkSpace` | EpOraLibrary/EpOraLibrary/EpLibraryHeaders/epMergeSort.h:103-128 | The merge loop with its moving pointers and counters writes the merge of the two runs to the workspace. |
| `EpMergeSort.MergeRuns` | EpOraLibrary/EpOraLibrary/EpLibraryHeaders/epMergeSort.h:97-136 | Merging through the shared workspace and copying back changes only the range of the two runs. |
| `EpMergeSort.SubMergeSortRecursive` | EpOraLibrary/EpOraLibrary/EpLibraryHeaders/epMergeSort.h:87-137 | Sorts the range in place and returns its start, however the workspace is left. |
| `EpMergeSort.SubMergeSortLoop` | EpOraLibrary/EpOraLibrary/EpLibraryHeaders/epMergeSort.h:146-257 | The three-stage stack machine leaves the identical array as the recursive form, and ends. |
| `EpMergeSort.MergeSort` | EpOraLibrary/EpOraLibrary/EpLibraryHeaders/epMergeSort.h:63-81 | Both modes compute the one specified list; NULL and short lists are left alone. |
| `EpQuickSort.PartitionedPermutes` | EpOraLibrary/EpOraLibrary/EpLibraryHeaders/epQuickSort.h:180-208 | The two-ended partition permutes its range and leaves everything outside alone. |
| `EpQuickSort.PartitionedParts` | EpOraLibrary/EpOraLibrary/EpLibraryHeaders/epQuickSort.h:180-208 | When the ends meet, everything to the left is at most the pivot and everything to the right at least. |
| `EpQuickSort.DividedParts` | EpOraLibrary/EpOraLibrary/EpLibraryHeaders/epQuickSort.h:134-142 | After partitionWrapper the pivot stands at the returned index with smaller or equal keys left and greater or equal keys right, in both forms. |
| `EpQuickSort.QuickSortedSorts` | EpOraLibrary/EpOraLibrary/EpLibraryHeaders/epQuickSort.h:102-124 | For every threshold and both forms, the result is a sorted permutation. |
| `EpQuickSort.MedianIsBetween` | EpOraLibrary/EpOraLibrary/EpLibraryHeaders/epQuickSort.h:152-169 | Of the three candidates the chosen one is the median: one of the others is at most it, and it is at most the other. |
| `EpQuickSortScan.MedianIsMiddle` | EpOraLibrary/EpOraLibrary/EpLibraryHeaders/epQuickSort.h:152-169 | The median is the middle one in a stable sort of the three candidates in the order they are passed. |
| `EpQuickSortScan.OuterPairSwaps` | EpOraLibrary/EpOraLibrary/EpLibraryHeaders/epQuickSort.h:180-208 | The scan: the first element above the pivot and the last one below it, if in this order, trade places and the scan goes on between them; nothing else moves. |
| `EpQuickSortScan.ScanMeets` | EpOraLibrary/EpOraLibrary/EpLibraryHeaders/epQuickSort.h:180-208 | Without such a pair nothing moves, and the ends meet in the middle, or at the last element below the pivot if it stands behind the middle, or at the first one above it if it stands before the middle. |
| `EpQuickSortScan.MeetingUnique` | EpOraLibrary/EpOraLibrary/EpLibraryHeaders/epQuickSort.h:180-208 | There is one such place. |
| `EpQuickSortForms.PivotsAgree` | EpOraLibrary/EpOraLibrary/EpLibraryHeaders/epQuickSort.h:134-170 | The recursive form asks for the median of (low+1, high, mid), the loop of (low+1, mid, high): the same pivot exactly when mid and high do not compare equal. |
| `EpQuickSortForms.FormsMatch` | EpOraLibrary/EpOraLibrary/EpLibraryHeaders/epQuickSort.h:102-336 | On every input and threshold the two results agree in every position up to the comparator. |
| `EpQuickSortForms.FormsAgreeWithoutTies` | EpOraLibrary/EpOraLibrary/EpLibraryHeaders/epQuickSort.h:102-336 | Both forms give the same array on an input whose equal elements are identical. |
| `EpQuickSortForms.DividedOneClass` | EpOraLibrary/EpOraLibrary/EpLibraryHeaders/epQuickSort.h:134-208 | On a list of equal elements the loop form's partition leaves the list as it is; the recursive form's swaps the last element to the front and then to the middle. |
| `EpQuickSortForms.LoopKeepsOneClass` | EpOraLibrary/EpOraLibrary/EpLibraryHeaders/epQuickSort.h:218-336 | The loop form leaves every list of equal elements as it is. |
| `EpQuickSortForms.FormsDiffer` | EpOraLibrary/EpOraLibrary/EpLibraryHeaders/epQuickSort.h:102-336 | For every length above 2 that is above the threshold in the unsigned comparison: on copies of one element with another, equal one behind them, the loop form changes nothing and the recursive form moves the last element to the middle. |
| `EpQuickSortForms.FormsAgreeIff` | EpOraLibrary/EpOraLibrary/EpLibraryHeaders/epQuickSort.h:102-336 | For every length n and threshold: both forms give the same array on all inputs of that length if and only if n is at most 2, or the threshold is negative (it converts to a large unsigned one, so both forms insertion sort), or n is at most the threshold, or elements that compare equal are identical. |
| `EpQuickSortForms.ModesAgreeIff` | EpOraLibrary/EpOraLibrary/EpLibraryHeaders/epQuickSort.h:69-336 | For a call of QuickSort with minSize: its two modes agree on all inputs of length n if and only if n is at most 2, or minSize is n, or elements that compare equal are identical. |
| `EpQuickSort.SidesInAnyOrder` | EpOraLibrary/EpOraLibrary/EpLibraryHeaders/epQuickSort.h:102-336 | Sorting the left part first and sorting the right part first give the same array. |
| `EpQuickSort.Partition` | EpOraLibrary/EpOraLibrary/EpLibraryHeaders/epQuickSort.h:180-208 | The in-place loop does the specified partition. |
| `EpQuickSort.PartitionCached` | EpOraLibrary/EpOraLibrary/EpLibraryHeaders/epQuickSort.h:268-310 | The loop that caches its comparison results does the same partition. |
| `EpQuickSort.PartitionWrapper` | EpOraLibrary/EpOraLibrary/EpLibraryHeaders/epQuickSort.h:134-142 | Median, partition and pivot swaps divide exactly the range. |
| `EpQuickSort.SubQuickSortRecursive` | EpOraLibrary/EpOraLibrary/EpLibraryHeaders/epQuickSort.h:102-124 | Sorts the range in place as the recursive form is specified, for every threshold, negative ones included; empty ranges are no-ops. |
| `EpQuickSort.SortOrDivide` | EpOraLibrary/EpOraLibrary/EpLibraryHeaders/epQuickSort.h:232-334 | One round of the loop: the range is sorted, or divided so that sorting its two sides, right one first, finishes it. |
| `EpQuickSort.SubQuickSortLoop` | EpOraLibrary/EpOraLibrary/EpLibraryHeaders/epQuickSort.h:218-336 | The stack form, right half first, does what the loop form is specified to do, for every threshold, negative ones included, and ends. |
| `EpQuickSort.QuickSort` | EpOraLibrary/EpOraLibrary/EpLibraryHeaders/epQuickSort.h:69-89 | The array ends as a sorted permutation, the one specified for the mode and threshold. |
| `EpKAryHeapSpec.GetParentIdx` | EpOraLibrary/EpOraLibrary/EpLibraryHeaders/epKAryHeap.h:265-271 | As documented: -1 for the root, else the p whose children k*p+1 .. k*p+k include the index. |
| `EpKAryHeapSpec.ChildHasParent` | EpOraLibrary/EpOraLibrary/EpLibraryHeaders/epKAryHeap.h:738-758 | The child range of findMinChild is exactly the nodes whose parent it is. |
| `EpKAryHeapSpec.CompiledNonRoot` | EpOraLibrary/EpOraLibrary/EpLibraryHeaders/epKAryHeap.h:892-904 | With the unsigned division as compiled, every index but 0 has the documented parent. |
| `EpKAryHeapSpec.CompiledRoot32` | EpOraLibrary/EpOraLibrary/EpLibraryHeaders/epKAryHeap.h:892-904 | With a 32-bit size_t, index 0 has parent -1 if and only if k is 1. |
| `EpKAryHeapSpec.CompiledRoot64` | EpOraLibrary/EpOraLibrary/EpLibraryHeaders/epKAryHeap.h:892-904 | With a 64-bit size_t, if and only if k divides 2^32 or is 2^32+1. |
| `EpKAryHeapSpec.CompiledDefaultArity` | EpOraLibrary/EpOraLibrary/EpLibraryHeaders/epKAryHeap.h:892-904 | For k = 5 it is 858993459. |
| `EpKAryHeapSpec.SiftedUpOrdered` | EpOraLibrary/EpOraLibrary/EpLibraryHeaders/epKAryHeap.h:685-709 | heapifyUp repairs a heap whose only fault is at the index and its parent. |
| `EpKAryHeapSpec.SiftedDownOrdered` | EpOraLibrary/EpOraLibrary/EpLibraryHeaders/epKAryHeap.h:711-736 | heapifyDown repairs a heap whose only fault is between the index and its children. |
| `EpKAryHeapSpec.MinChildIsLeast` | EpOraLibrary/EpOraLibrary/EpLibraryHeaders/epKAryHeap.h:738-758 | findMinChild returns a child not above any other child, or -1 exactly when there is none. |
| `EpKAryHeapSpec.PushedKeepsOrder` | EpOraLibrary/EpOraLibrary/EpLibraryHeaders/epKAryHeap.h:622-636 | push keeps heap order and adds exactly the pair. |
| `EpKAryHeapSpec.PoppedKeepsOrder` | EpOraLibrary/EpOraLibrary/EpLibraryHeaders/epKAryHeap.h:605-620 | pop keeps heap order and removes exactly the root, which is a minimum. |
| `EpKAryHeapSpec.KeyChangedKeepsOrder` | EpOraLibrary/EpOraLibrary/EpLibraryHeaders/epKAryHeap.h:638-655 | changeKey keeps heap order and changes exactly that pair's key, up or down. |
| `EpKAryHeapSpec.ErasedAtRemoves` | EpOraLibrary/EpOraLibrary/EpLibraryHeaders/epKAryHeap.h:667-681 | erase(index) removes exactly that pair. |
| `EpKAryHeapSpec.ErasedAtKeepsOrderIff` | EpOraLibrary/EpOraLibrary/EpLibraryHeaders/epKAryHeap.h:667-681 | erase(index) keeps heap order if and only if the slot is the root or the last one or the moved key is not below the key of the slot's parent. |
| `EpKAryHeapSpec.ErasedAtCounterexample` | EpOraLibrary/EpOraLibrary/EpLibraryHeaders/epKAryHeap.h:667-681 | A binary heap of seven pairs in which erase(3) breaks heap order. |
| `EpKAryHeapSpec.ErasedAtThenSiftedUp` | EpOraLibrary/EpOraLibrary/EpLibraryHeaders/epKAryHeap.h:667-681 | erase(index) followed by a sift-up of the slot, if it is still there, keeps heap order at every index. |
| `EpKAryHeap.SearchIsExact` | EpOraLibrary/EpOraLibrary/EpLibraryHeaders/epKAryHeap.h:849-884 | Under heap order the pruned search returns -1 if and only if the key is nowhere in the heap. |
| `EpKAryHeap.FoundIndexFirst` | EpOraLibrary/EpOraLibrary/EpLibraryHeaders/epKAryHeap.h:849-884 | On every heap, ordered or not: a match that can be entered without passing a key above the searched one is not missed, and what is found can be entered and comes no later in depth-first preorder, the lexicographic order of the child numbers on the way from the root. |
| `EpKAryHeap.FoundIsReached` | EpOraLibrary/EpOraLibrary/EpLibraryHeaders/epKAryHeap.h:849-884 | What is found can be entered in that way. |
| `EpKAryHeap.RouteUnique` | EpOraLibrary/EpOraLibrary/EpLibraryHeaders/epKAryHeap.h:849-884 | That preorder has one place for every slot, so there is one first match. |
| `EpKAryHeap.FoundIndexComplete` | EpOraLibrary/EpOraLibrary/EpLibraryHeaders/epKAryHeap.h:849-884 | Under heap order, not entering a node above the key misses no match below it, and the match found is the first of all in preorder. |
| `EpKAryHeap.KAryHeap.FindIndex` | EpOraLibrary/EpOraLibrary/EpLibraryHeaders/epKAryHeap.h:849-890 | The first match in the pruned depth-first preorder, in both modes. |
| `EpKAryHeap.KAryHeap.FindIndexLoop` | EpOraLibrary/EpOraLibrary/EpLibraryHeaders/epKAryHeap.h:760-847 | The three-stage stack machine has the same result and ends. |
| `EpKAryHeap.KAryHeap.FindMinChild` | EpOraLibrary/EpOraLibrary/EpLibraryHeaders/epKAryHeap.h:738-758 | The loop finds the specified child. |
| `EpKAryHeap.KAryHeap.HeapifyUp` | EpOraLibrary/EpOraLibrary/EpLibraryHeaders/epKAryHeap.h:685-709 | The loop moves the pair as specified. |
| `EpKAryHeap.KAryHeap.HeapifyDown` | EpOraLibrary/EpOraLibrary/EpLibraryHeaders/epKAryHeap.h:711-736 | The loop moves the pair as specified. |
| `EpKAryHeap.KAryHeap.Push` | EpOraLibrary/EpOraLibrary/EpLibraryHeaders/epKAryHeap.h:592-601 | Adds the pair, keeps order, and returns the first slot in preorder whose key compares equal: the new pair's own when the key was new. |
| `EpKAryHeap.KAryHeap.Pop` | EpOraLibrary/EpOraLibrary/EpLibraryHeaders/epKAryHeap.h:487-500 | None on an empty heap; else removes and returns a minimum. |
| `EpKAryHeap.KAryHeap.Front` | EpOraLibrary/EpOraLibrary/EpLibraryHeaders/epKAryHeap.h:502-513 | The root, which is a minimum. |
| `EpKAryHeap.KAryHeap.ChangeKey` | EpOraLibrary/EpOraLibrary/EpLibraryHeaders/epKAryHeap.h:524-535 | True exactly when the key is there; then that key alone is changed. |
| `EpKAryHeap.KAryHeap.GetData` | EpOraLibrary/EpOraLibrary/EpLibraryHeaders/epKAryHeap.h:474-484 | The data of the found pair; a miss exactly when the key is nowhere. |
| `EpKAryHeap.KAryHeap.At` | EpOraLibrary/EpOraLibrary/EpLibraryHeaders/epKAryHeap.h:433-445 | operator[]: an existing key's slot with the heap unchanged, or the slot of a new pair. |
| `EpKAryHeap.KAryHeap.EraseAt` | EpOraLibrary/EpOraLibrary/EpLibraryHeaders/epKAryHeap.h:667-681 | The specified removal for an index inside the heap, nothing otherwise. |
| `EpKAryHeap.KAryHeap.Erase` | EpOraLibrary/EpOraLibrary/EpLibraryHeaders/epKAryHeap.h:563-573 | As written: always false, and the key is used as the index. |
| `EpKAryHeap.KAryHeap.IsEmpty` | EpOraLibrary/EpOraLibrary/EpLibraryHeaders/epKAryHeap.h:574-581 | As written: true exactly when the heap is not empty. |
| `EpKAryHeapSift.SiftedUpPath` | EpOraLibrary/EpOraLibrary/EpLibraryHeaders/epKAryHeap.h:685-709 | heapifyUp moves the pair up past the parents whose keys are above its key, strictly, and moves nothing else. |
| `EpKAryHeapSift.RisesUnique` | EpOraLibrary/EpOraLibrary/EpLibraryHeaders/epKAryHeap.h:685-709 | There is one list of slots like that. |
| `EpKAryHeapSift.MinChildIsFirst` | EpOraLibrary/EpOraLibrary/EpLibraryHeaders/epKAryHeap.h:738-758 | findMinChild returns the first of the least children. |
| `EpKAryHeapSift.SiftedDownPath` | EpOraLibrary/EpOraLibrary/EpLibraryHeaders/epKAryHeap.h:711-736 | heapifyDown moves the pair down past the first least children whose keys are not above its key, and moves nothing else. |
| `EpKAryHeapSift.SinksUnique` | EpOraLibrary/EpOraLibrary/EpLibraryHeaders/epKAryHeap.h:711-736 | There is one list of slots like that. |
| `EpKAryHeapSift.PushedRises` | EpOraLibrary/EpOraLibrary/EpLibraryHeaders/epKAryHeap.h:622-636 | push: the new pair rises from the last slot. |
| `EpKAryHeapSift.ErasedSinks` | EpOraLibrary/EpOraLibrary/EpLibraryHeaders/epKAryHeap.h:605-681 | erase(index), and pop at 0: the last pair takes the slot and sinks; the last slot just goes. |
| `EpKAryHeapSift.KeyChangedMoves` | EpOraLibrary/EpOraLibrary/EpLibraryHeaders/epKAryHeap.h:638-655 | changeKey: a pair whose key grows sinks, any other rises. |
| `EpKAryHeapRun.ErasedIs` | EpOraLibrary/EpOraLibrary/EpLibraryHeaders/epKAryHeap.h:563-573 | What Erase leaves: when the key is there and its index names a slot, the heap without exactly the pair of that slot, whatever its key; else the same heap. |
| `EpKAryHeapRun.Perform` | EpOraLibrary/EpOraLibrary/EpLibraryHeaders/epKAryHeap.h:487-535 | A call on the class leaves the heap, and takes out the pairs, that the call of a run does. |
| `EpKAryHeapRun.PerformAll` | EpOraLibrary/EpOraLibrary/EpLibraryHeaders/epKAryHeap.h:487-535 | So does a whole run on the class. |
| `EpKAryHeapRun.ErasedKeepsPromiseIff` | EpOraLibrary/EpOraLibrary/EpLibraryHeaders/epKAryHeap.h:563-573 | What Erase leaves is the heap without a pair of the key, or the same heap when there is none, if and only if the key is not there or the slot whose index the key converts to exists and holds it. |
| `EpKAryHeapRun.ErasedKeepsOrderIff` | EpOraLibrary/EpOraLibrary/EpLibraryHeaders/epKAryHeap.h:563-573 | What Erase leaves is in heap order if and only if the key is not there, the index it converts to is no slot, or the moved last key fits in that slot. |
| `EpKAryHeapRun.EraseCounterexample` | EpOraLibrary/EpOraLibrary/EpLibraryHeaders/epKAryHeap.h:563-573 | A heap from which Erase removes nothing although the key is there, and one from which it removes another key. |
| `EpKAryHeapRun.StepKeepsOrder` | EpOraLibrary/EpOraLibrary/EpLibraryHeaders/epKAryHeap.h:605-655 | Every push, pop and key change keeps heap order and is a call of a priority queue on a multiset of pairs: push adds the pair, pop takes a minimum, a key change changes one pair with the key, or nothing when there is none. |
| `EpKAryHeapRun.RunKeepsOrder` | EpOraLibrary/EpOraLibrary/EpLibraryHeaders/epKAryHeap.h:605-655 | Every run, for every k > 0, keeps heap order and is a run of that priority queue: every pair taken is a minimum of the heap it was taken from, and the pairs change exactly as asked. |
| `EpKAryHeapRun.RunConserves` | EpOraLibrary/EpOraLibrary/EpLibraryHeaders/epKAryHeap.h:605-636 | On every run without key changes, the pairs in the heap and the pairs taken are the pairs at the start and the pushed ones. |
| `EpKAryHeapRun.RunConservesData` | EpOraLibrary/EpOraLibrary/EpLibraryHeaders/epKAryHeap.h:605-655 | On every run, key changes included, the same holds of the data. |
| `EpKAryHeapRun.DrainSorts` | EpOraLibrary/EpOraLibrary/EpLibraryHeaders/epKAryHeap.h:605-620 | Popping everything yields the pairs in ascending key order. |
| `EpKAryHeapRun.PushAllPopAllSorts` | EpOraLibrary/EpOraLibrary/EpLibraryHeaders/epKAryHeap.h:605-636 | Pushing any pairs and draining yields all of them in ascending key order. |
| `EpSmartObject.ApplyKeepsInv` | EpOraLibrary/EpOraLibrary/EpLibraryHeaders/epSmartObject.h:112-138 | Every single step of retain, release, dummy increment and destruction keeps the protocol invariant. |
| `EpSmartObject.EveryRunKeepsInv` | EpOraLibrary/EpOraLibrary/EpLibraryHeaders/epSmartObject.h:112-138 | So does every interleaved run. |
| `EpSmartObject.EveryRunIsSafe` | EpOraLibrary/EpOraLibrary/EpLibraryHeaders/epSmartObject.h:112-207 | On every run: the count is the held references plus one while a dummy increment is pending; the destructor runs at most once; its assertion finds 0; no step touches freed memory; a held reference means a live object. |
| `EpSmartObject.NoReferenceNoObject` | EpOraLibrary/EpOraLibrary/EpLibraryHeaders/epSmartObject.h:112-207 | When all threads are between calls, the object is gone exactly when no reference is left, and then its destructor ran once. |
| `EpSmartObject.EveryStepCounts` | EpOraLibrary/EpOraLibrary/EpLibraryHeaders/epSmartObject.h:112-207 | On every run the count is 1 and what the steps of the run added and took; every further step changes the count by what it adds and the references exactly as its call asks. |
| `EpSmartObject.RetainAddsOne` | EpOraLibrary/EpOraLibrary/EpLibraryHeaders/epSmartObject.h:112-117 | From every state of a run: an uninterrupted RetainObj adds exactly the new reference and one to the count, and changes nothing else. |
| `EpSmartObject.ReleaseTakesOne` | EpOraLibrary/EpOraLibrary/EpLibraryHeaders/epSmartObject.h:123-137 | From every state of a run: an uninterrupted ReleaseObj takes exactly its reference and one from the count, and with the last reference leaves a pending delete. |
| `EpSmartObject.DeleteFrees` | EpOraLibrary/EpOraLibrary/EpLibraryHeaders/epSmartObject.h:196-207 | The delete that follows frees the object with a count of 0. |
| `EpSmartObject.EveryRunCanGoOn` | EpOraLibrary/EpOraLibrary/EpLibraryHeaders/epSmartObject.h:112-207 | No run gets stuck: while some call is in progress, some thread inside a call can take its next step. |
| `EpSmartObject.IntruderFails` | EpOraLibrary/EpOraLibrary/EpLibraryHeaders/epSmartObject.h:112-138 | In every state with a pending delete, a thread that retains without a held reference before the destructor gets the lock makes the destructor's assertion find 1. |
| `EpSmartObject.RetainWithoutReferenceFails` | EpOraLibrary/EpOraLibrary/EpLibraryHeaders/epSmartObject.h:112-138 | The same from the construction on: the run that releases the only reference, the retain that breaks the rule, and the destructor. |
| `EpDynamicArray.DynamicArray.constructor` | EpOraLibrary/EpOraLibrary/EpLibraryHeaders/epDynamicArray.h:222-249 | An array of the given count and capacity, its content arbitrary. |
| `EpDynamicArray.DynamicArray.Resize` | EpOraLibrary/EpOraLibrary/EpLibraryHeaders/epDynamicArray.h:344-363 | Grows only; keeps the content; every slot behind the count is zero. |
| `EpDynamicArray.DynamicArray.At` | EpOraLibrary/EpOraLibrary/EpLibraryHeaders/epDynamicArray.h:365-375 | Beyond the end it extends the array, and all it exposes is zeros; the capacity grows only if needed, and then to exactly what is needed. |
| `EpDynamicArray.DynamicArray.Put` | EpOraLibrary/EpOraLibrary/EpLibraryHeaders/epDynamicArray.h:365-375 | Writing through the reference At returns sets that element alone. |
| `EpDynamicArray.DynamicArray.Append` | EpOraLibrary/EpOraLibrary/EpLibraryHeaders/epDynamicArray.h:392-400 | Adds exactly one element at the end, with the same growth. |
| `EpDynamicArray.DynamicArray.AppendArray` | EpOraLibrary/EpOraLibrary/EpLibraryHeaders/epDynamicArray.h:403-413 | Is concatenation, of an array to itself too, with the same growth. |
| `EpDynamicArray.DynamicArray.Plus` | EpOraLibrary/EpOraLibrary/EpLibraryHeaders/epDynamicArray.h:482-489 | operator+ is concatenation into a new array. |
| `EpDynamicArray.DynamicArray.Clear` | EpOraLibrary/EpOraLibrary/EpLibraryHeaders/epDynamicArray.h:313-319 | Empties the array and keeps its capacity. |
| `EpDynamicArray.DynamicArray.Delete` | EpOraLibrary/EpOraLibrary/EpLibraryHeaders/epDynamicArray.h:303-311 | Empties the array and gives its memory up. |
| `EpDynamicArray.DynamicArray.IsEmpty` | EpOraLibrary/EpOraLibrary/EpLibraryHeaders/epDynamicArray.h:321-328 | As written: true exactly when there are elements. |

## Left out

- EpPatriciaTrie.PatriciaTrie.Clear: the deletion of the old nodes is not modelled, only that the trie no longer reaches them.
- EpPatriciaTrie.PatriciaTrie.Detach: likewise, a removed node's memory is not modelled.
- EpPatriciaTrie.PatriciaTrie.Ref: the default constructed data of a new entry is a parameter.
- EpKAryHeap.KAryHeap.At: the null that a new pair's data is cast from is a parameter.
- EpKAryHeap.KAryHeap.Erase: the conversion of a key to an integer index is a parameter.
- EpKAryHeap.KAryHeap.PushPair: the slots in use and `m_heapSize` are one sequence of pairs; the swaps of pointers, the
  slots behind the size and the growth of the storage array (`epKAryHeap.h:625-633`) are not modelled.
- EpDynamicArray.DynamicArray.Append: the argument is a value; a reference into the array's own block, which growing may move, is not modelled.
- EpDynamicArray.DynamicArray.At: returns the element; the reference is modelled by `Put`.
- Two arrays that share one block of memory cannot arise in the source; `AppendArray` asks for that.
- Widths of `int`, `size_t` and `ssize_t` are unbounded except in the parent index.
- Allocation failure, and the copying of elements by assignment with side effects.
- Lock policies: each public call is one step. Only SmartObject is modelled at the level of its lock.
- EpSmartObject.EveryRunIsSafe: claims nothing for an object built with `LOCK_POLICY_NONE`.
- SmartObject's copying and its debug output.
- `QSORT_MODE_STL`, which calls the C library.
- The assertions of debug builds that reject a duplicate in `Push` of the heap and the queue; duplicates go in.
- Copying and assignment of the heap, the arrays and the queue, and the plain queue's Push at the back.
- `changeData` and the `Front` that returns a pair, in the heap, which use names that are not declared.
- `Headers` and `OciHeaders`: wrappers and declarations of Oracle calls, whose bodies are not part of this model.
- Delegates, threads, events, pipes, jobs, streams, files, XML, allocators, dates and registry of EpLibrary.
