# JustKit, verified

A Dafny model of the containers and the asynchronous I/O engine of JustKit (C), and proofs of what they promise.
The containers are classes whose methods rewrite pointers, arrays and counters in the order the C code does; each
method is proved against a value-level specification, and what the library promises is proved about that
specification. The two concurrent components are transition systems whose steps are the critical sections of the
code; the critical sections themselves are methods on the shared fields, each proved to be one step.

| file | models |
|---|---|
| `AvlShape.dfy` | `jk_avl.c` on values: the descent path as a zipper, the rotations, the bottom-up loop with its early exit, removal with its predecessor splice |
| `AvlSize.dfy` | `jk_avl.c`: how large a tree the path stack suffices for, and which trees insertion builds |
| `Avl.dfy` | `jk_avl.c` on the heap: nodes, places (pointers to child slots), the 41-slot stack, and the loops that rewrite them |
| `TimerQueue.dfy`, `TimerTree.dfy`, `Timer.dfy` | `jk_timer.c`: the scheduler loop over a sorted queue, over the tree with ties, and on the heap |
| `SkipLanes.dfy`, `SkipList.dfy` | `jk_skip.c`: lanes as positions, and the `forward` links, `update` array and level |
| `Heap.dfy` | `jk_heap.c`: the sift loops and the growing and shrinking array |
| `Hash.dfy` | `jk_hash.c`: chained buckets, in-place rehash, growth policy |
| `PoolProtocol.dfy`, `ThreadPool.dfy` | `jk_thread_pool.c`: every interleaving of workers, pushers and the destroying owner; and the fields |
| `AioProtocol.dfy`, `Aio.dfy` | `jk_aio.c` on top of the pool: submission, completion queue, notice pipe, pollers; and the fields |

`dafny verify dfyconfig.toml` checks everything.

Main results:

- AVL: insertion is the stable sorted insertion; removal drops exactly the given node **if and only if** the key
  search finds that very node. Otherwise the subtree found is replaced by what hung below the given node, which is
  stated exactly, and two equal keys and a third are a concrete case. Both leave every recorded height true and every
  node balanced, through the early exit and all rotations. Insertion builds exactly the balanced trees of different
  nodes with ascending keys. The 41-slot stack suffices for fewer than 701408732 nodes, and for no larger bound: that
  many insertions, none of which overruns it, can build a tree in which the next descent records 42 places.
- Timer: the specified queue fires exactly the due timers, in key order, none early; each is armed again or freed,
  once; none is lost; and the loop ends also when callbacks keep arming timers. A turn of the loop on the tree is
  that turn of the queue **if and only if** the key search finds the first timer, and a loop in which it always does
  makes that run; with tied keys it may not find it, and then another timer is neither fired nor freed. After any
  number of turns every timer is pending or freed **if and only if** every search so far has found its timer.
- Skip list: every lane is the subsequence of nodes tall enough for it, in every reachable state, failed
  allocations included; insertion, deletion and search refine a sorted sequence, which every list keeps with the
  newest of equal keys first, so that the search returns the most recently inserted live entry.
- Heap: extraction returns a maximum, contents change by exactly one element, and extracting until the heap is
  empty yields all of it in non-increasing order, whichever reallocations fail on the way; the capacity is
  never below the used length and, with successful reallocations, never far above it.
- Hash table: it is a map, through rehash; entries stay in the bucket of their hash, and two keys are one exactly when
  hash, length and text up to a NUL agree; every operation that gets its memory keeps the load of at most two thirds
  when the size is a listed one, and other sizes keep it exactly when the stated arithmetic allows it.
- Thread pool: no worker sleeps while more tasks wait than awake workers are about to look; after the quit flag
  the workers take at most three more steps each and begin no task, and the destruction can always be brought to its
  end; every task is run once or freed unrun once.
  The list is last in, first out: it is stated exactly when a task still waits after a run, and a task can wait
  while any number of newer ones are run.
- AIO: every request is in exactly one place, the pending count is exact, each callback runs once and in queue order
  with one consumer; the bytes that waits report and the requests that polls report add up, in every run, to the
  notices and the requests there were. With any number of workers and any pipe, a consumer's rule for when it may
  wait loses no notice over all runs **if and only if** it never allows a wait after one that has read something
  without a poll in between. Once submissions stop, the steps left until every request is polled are bounded, and
  only the poll is ever up to the consumer.

Where code and name disagree, the code is followed: keys of the hash table are compared by `strncmp`, so two keys
with the same hash and length that agree up to a NUL byte are one key (`HashKeys.NulHidesTheRest`), and the signed
key of `jk_skip_find_node` is compared as unsigned (`SkipList.SkipList.FindNode`).

Oracles stand for what the code cannot determine: whether an allocation succeeds, the random level (1 to 32), the
hash function, the readings of the clock, what a timer callback returns (as the `int` it is stored in), which
sleeping workers a signal wakes, and which thread steps next.

## Model

| member | source | states |
|---|---|---|
| AvlShape.PlugInOrder | jk_avl.c:29-95 | rewriting the subtree at the end of a path changes only its own stretch of the in-order sequence |
| AvlShape.PlugBalanced | jk_avl.c:29-95 | a tree is AVL exactly when its path is, for the height in the hole, and the subtree in the hole is |
| AvlShape.PathFits | jk_avl.c:161-177 | along a descent of an AVL tree the places recorded and the height still below never exceed the tree's height |
| AvlShape.RecordedIsTrue | jk_avl.c:25-27 | in an AVL tree the stored heights are the true heights |
| AvlShape.RepairKeepsInOrder | jk_avl.c:41-93 | all four rotations and the height update keep the in-order sequence, balanced or not |
| AvlShape.RepairBalances | jk_avl.c:41-93 | a node with AVL children that differ by at most two is AVL afterwards, and its height is that of the taller child or one more |
| AvlShape.RebalanceKeepsInOrder | jk_avl.c:29-95 | the bottom-up loop, early exit included, never changes the sequence |
| AvlShape.RebalanceBalances | jk_avl.c:29-95 | if only the bottom subtree changed, by at most one in height, the loop leaves the whole tree AVL even when it stops at the first unchanged height |
| AvlShape.RebalanceItems | jk_avl.c:29-95 | the loop keeps the node set and never makes a node occur twice |
| AvlShape.InsertedInOrder | jk_avl.c:157-185 | the new sequence is the nodes with key up to k, the new node, the nodes with key past k |
| AvlShape.InsertedCorrect | jk_avl.c:157-185 | insertion is the stable sorted insertion, adds one node and leaves an AVL tree |
| AvlShape.InsertSortedSorted | jk_avl.c:157-185 | the stable insertion keeps the weak order |
| AvlShape.InsertSortedPlace | jk_avl.c:161-177 | the new node stands behind all nodes with a key not greater and before all with a greater one |
| AvlShape.FoundNone | jk_avl.c:128-142 | the key search ends at a node exactly when the key occurs |
| AvlShape.KeyDescentReaches | jk_avl.c:197-208 | the node at which the key search stops has the node to delete at or below it |
| AvlShape.RemovedInOrder | jk_avl.c:188-241 | in every tree the sequence after a removal is what stands outside the subtree found, with what hung below the given node in its place |
| AvlShape.RemovedSorted | jk_avl.c:188-241 | a sorted tree stays sorted, also when the search finds another node |
| AvlShape.RemovedItems | jk_avl.c:188-241 | the nodes left are exactly those outside the subtree found and those below the given node; the found node is lost when it is another one |
| AvlShape.RemovedExactly | jk_avl.c:188-241 | when the search finds the node, the sequence is the old one without exactly that node and the tree is AVL |
| AvlShape.RemovedExactIff | jk_avl.c:188-241 | removal is exact if and only if the key search finds the very node to delete |
| AvlShape.TwoEqualKeys | jk_avl.c:202-203 | two nodes with one key and a third not below it: removing the first empties the tree |
| AvlShape.UniqueKeyFound | jk_avl.c:197-208 | a node whose key is its own is found, so distinct keys are enough for removal |
| AvlShape.WithoutInserted | jk_avl.c:157-241 | removing what was inserted gives back the old sequence |
| AvlShape.DistinctSequence | jk_avl.c:157-241 | no node stands twice in the sequence |
| AvlSize.BalancedIsLarge | jk_avl.c:25 | an AVL tree of height h has at least Fib(h+2)-1 nodes |
| AvlSize.SparsestBalanced | jk_avl.c:25 | for every height there is an AVL tree of that height |
| AvlSize.SparsestSize | jk_avl.c:25 | with exactly Fib(h+2)-1 nodes |
| AvlSize.SparsestDistinct | jk_avl.c:25 | all different, so that it is a tree the code can hold |
| AvlSize.SparsestDescent | jk_avl.c:161-177 | and the descent to its least place records as many places as it is high |
| AvlSize.StackSuffices | jk_avl.c:25 | with fewer than 701408732 nodes the height is at most 41 |
| AvlSize.PutBack | jk_avl.c:157-185 | putting a lowest leaf back gives the tree it was taken from, whatever the tree hangs under |
| AvlSize.EveryTreeIsBuilt | jk_avl.c:157-185 | every AVL tree of different nodes with ascending keys comes from inserting them in some order |
| AvlSize.BuiltIsBalanced | jk_avl.c:157-185 | whatever insertion builds of different nodes is an AVL tree of exactly these in order |
| AvlSize.BuiltIff | jk_avl.c:157-185 | so among the trees of different nodes with ascending keys insertion builds exactly the AVL trees |
| AvlSize.StackBoundIsTight | jk_avl.c:25 | 701408732 insertions of different nodes, each within the stack, can build a tree in which the next descent records 42 places |
| Avl.RotateRight | jk_avl.c:41-63 | the pointer and height writes turn the heap tree into the rotated tree, whichever shape applies |
| Avl.RotateLeft | jk_avl.c:65-85 | the mirror image |
| Avl.RepairLocal | jk_avl.c:33-93 | one turn reports the early exit exactly for a settled node and otherwise leaves the repaired subtree on the heap |
| Avl.AvlTree.Rebalance | jk_avl.c:29-95 | the loop over the recorded places performs the bottom-up repair of the whole tree, with the exit as soon as it applies |
| Avl.AvlTree.DescendToLeaf | jk_avl.c:161-177 | the descent finds the empty place for the key, its stack records the path, and it stays within 41 slots |
| Avl.AvlTree.Insert | jk_avl.c:157-185 | on the heap: stable sorted insertion of exactly the given node into an AVL tree |
| Avl.AvlTree.DescendToKey | jk_avl.c:197-208 | the descent stops at the first node with the key, with its own place pushed too |
| Avl.AvlTree.DescendToLast | jk_avl.c:217-229 | from the left child along right children to the predecessor, places recorded, still within 41 slots |
| Avl.AvlTree.TakePredecessor | jk_avl.c:231-235 | the predecessor leaves its place and gets the children and height of the deleted node |
| Avl.AvlTree.RewriteSlot | jk_avl.c:237 | the one slot write makes the stack follow the path through the replacement node, and leaves the tree as it is |
| Avl.StackSpliced | jk_avl.c:217-237 | the two descents recorded one above the other are, after that write, one descent through the replacement |
| Avl.AvlTree.RemoveWithoutLeft | jk_avl.c:212-215 | a node without a left child is replaced by its right subtree |
| Avl.AvlTree.RemoveWithLeft | jk_avl.c:217-240 | otherwise its predecessor takes its place and the tree is rebalanced from where the predecessor was |
| Avl.AvlTree.Remove | jk_avl.c:188-241 | on the heap: exactly the given node goes and the tree stays AVL if the search finds it; the found node is lost if not |
| Avl.AvlTree.FindMin | jk_avl.c:98-110 | the first node of the sequence, null exactly for the empty tree |
| Avl.AvlTree.FindMax | jk_avl.c:113-125 | the last node of the sequence, null exactly for the empty tree |
| Avl.AvlTree.FindNode | jk_avl.c:128-142 | a node with the key, null exactly when there is none |
| TimerQueue.QueueSorted | jk_timer.c:98-131 | the pending timers stay in key order over every turn and never become more |
| TimerQueue.FiringOrder | jk_timer.c:104-128 | timers fire in non-decreasing key order and none before its key |
| TimerQueue.TurnKeysLater | jk_timer.c:113-118 | after a turn no pending key is below the one that just fired |
| TimerQueue.RunConserves | jk_timer.c:104-128 | for every entry, fired and pending together are exactly the initial and the re-armed occurrences |
| TimerQueue.FreedOrPending | jk_timer.c:113-125 | every timer is still pending or has been freed, as often as it was there at the start |
| TimerQueue.FreedInOrder | jk_timer.c:119-125 | what the first turns have freed is the beginning of what more turns free |
| TimerQueue.CountIsMultiplicity | jk_timer.c:104-128 | the count by which the proof goes is the multiplicity in the sequence |
| TimerQueue.IntoIsInsertSorted | jk_timer.c:118 | putting a timer before the first later one is the tree's stable sorted insertion |
| TimerQueue.StopsWhenNoneDue | jk_timer.c:106-111 | when the loop stops every pending key lies past the last clock reading |
| TimerQueue.WorkDecreases | jk_timer.c:104-128 | with readings bounded by T every turn lowers the sum of max(0, T+1-key), re-arming included |
| TimerQueue.RunIsBounded | jk_timer.c:104-128 | one call fires at most that many timers |
| TimerQueue.KeysStayDistinct | jk_timer.c:113-118 | distinct keys stay distinct as long as re-armed keys are fresh |
| TimerTree.TreeTurnFollows | jk_timer.c:113-125 | when the key search finds the first timer, removal and insertion on the tree are the turn of the queue |
| TimerTree.TreeTurnItems | jk_timer.c:113-125 | a turn leaves the tree ordered and brings in no timer, whatever the search finds |
| TimerTree.TreeTurnLoses | jk_timer.c:113-114 | when it finds another, that timer is no longer pending though it has not fired |
| TimerTree.TurnExactIff | jk_timer.c:113-125 | so the turn is that of the queue if and only if the search finds the first timer |
| TimerTree.TreeFollows | jk_timer.c:104-128 | as long as it does, the tree goes through the same run as the queue |
| TimerTree.FollowsIff | jk_timer.c:104-128 | over a run of the queue the tree goes through the same states if and only if every search finds the timer that is to fire |
| TimerTree.NoneLostIff | jk_timer.c:104-128 | after any number of turns on the tree every timer is pending or freed if and only if every search has found its timer |
| TimerTree.NoTiesSuffice | jk_timer.c:104-128 | it does at every turn when no popped timer shares its key with a pending one |
| TimerTree.DistinctKeysSuffice | jk_timer.c:104-128 | and so with distinct keys and fresh re-arms |
| TimerTree.TiesLoseTimers | jk_timer.c:113-125 | two timers with one key and a later one: the first turn frees the first and empties the tree |
| Timer.Timer.Push | jk_timer.c:64-83 | a new node comes into its sorted place, its key the sum of timeout and clock, less 2^64 when that does not fit; nothing changes when malloc fails; only a fresh node is added |
| Timer.Timer.MinNode | jk_timer.c:86-95 | the pending timer with the least key |
| Timer.Timer.Fire | jk_timer.c:113-127 | the first timer, found by its key, leaves the tree; it comes back with the sum of a positive result and the clock as its key, and is freed for any other result |
| Timer.Timer.ProcessTimeout | jk_timer.c:98-131 | the loop over the tree makes exactly the specified run: every due timer fires, the next is not due, the freed nodes are those whose callback did not ask for more, and what is pending was pending before |
| Timer.Timer.Destroy | jk_timer.c:134-150 | every pending timer is freed, each once |
| Timer.DestroyTree | jk_timer.c:134-150 | post-order: each node once, and the root last |
| SkipLanes.LaneIsSubsequence | jk_skip.c:58-82 | following the links of lane i visits exactly the nodes taller than i, in list order |
| SkipLanes.NextPut | jk_skip.c:127-130 | where every old link points after a node has come in |
| SkipLanes.NextOfPut | jk_skip.c:127-130 | the new node points where its predecessor on the lane pointed |
| SkipLanes.NextCut | jk_skip.c:153-157 | where every link points after a node has gone |
| SkipLanes.StopBrackets | jk_skip.c:107-112 | wherever a lane is left, the place found on lane 0 lies before the lane's next node |
| SkipLanes.StopUnique | jk_skip.c:107-112 | a lane can be left at one place only |
| SkipLanes.DeleteUndoesInsert | jk_skip.c:102-173 | deleting a key right after inserting it gives back the keys, nodes, heights and tight level of the list, duplicates or not |
| SkipLanes.DatedPut | jk_skip.c:102-135 | inserting before the first entry not less keeps the newest of equal keys in front, and the new one is the youngest of all |
| SkipLanes.DatedCut | jk_skip.c:138-173 | removing any entry keeps that order |
| SkipLanes.SearchFindsNewest | jk_skip.c:176-194 | in a list in that order the first entry with the key is the youngest with it, and there is one if any entry has the key |
| SkipList.SkipList.constructor | jk_skip.c:58-82 | the empty list satisfies the lane invariant |
| SkipList.SkipList.AboveLevel | jk_skip.c:74-78 | header slots at and above the level are null |
| SkipList.SkipList.WalkLane | jk_skip.c:109-110 | a lane is left at its last node with a smaller key |
| SkipList.SkipList.Search | jk_skip.c:107-112 | the update array holds for every lane the node where the search leaves it |
| SkipList.SkipList.SearchAndRaise | jk_skip.c:107-120 | raising the level fills the new slots with the header and keeps the invariant, before the allocation can fail |
| SkipList.SkipList.LinkLane | jk_skip.c:128-129 | one turn of the linking loop puts the node into one more lane |
| SkipList.SkipList.Insert | jk_skip.c:102-135 | the entry comes in, dated as the youngest, just before the first with a key not less, in as many lanes as drawn; the list stays newest first among equal keys; a failed allocation changes at most the level |
| SkipList.SkipList.UnlinkAll | jk_skip.c:153-157 | the loop takes the node out of every lane it is in, and its early break skips only lanes it is not in |
| SkipList.SkipList.LaneMeets | jk_skip.c:154-155 | the break test is true exactly above the height of the node itself |
| SkipList.SkipList.Shrink | jk_skip.c:161-165 | the level drops to the highest non-empty lane, or 1 |
| SkipList.SkipList.Delete | jk_skip.c:138-173 | exactly the first entry with the key goes, from all its lanes, and the level comes down to the tallest left; without one, -1 and no change |
| SkipList.SkipList.FindNode | jk_skip.c:176-194 | the descent returns the most recently inserted live entry with the key itself, or for a negative key with that key plus 2^64; null exactly when there is none |
| HeapOrder.SwapUp | jk_heap.c:105-114 | one swap of the sift-up moves the only defect to the parent |
| HeapOrder.SwapDown | jk_heap.c:162-188 | the two comparisons find no greater child only in a heap, and otherwise the swap moves the only defect down |
| HeapOrder.RootIsMax | jk_heap.c:132-134 | the root of a heap is not less than any element |
| HeapOrder.ExtractsMore | jk_heap.c:132-134 | extraction after extraction is one longer series of extractions |
| HeapOrder.DrainIsSorted | jk_heap.c:122-191 | such a series yields a non-increasing sequence that is a permutation of what went |
| Heap.Heap.SiftUp | jk_heap.c:102-114 | the loop restores the heap and permutes |
| Heap.Heap.SiftDown | jk_heap.c:162-188 | the loop restores the heap and permutes |
| Heap.Heap.Reserve | jk_heap.c:88-98 | room for one more element, or failure and no change |
| Heap.Heap.Insert | jk_heap.c:83-119 | one element more, still a heap, ten slots more when all were used; -1 and no change when the array cannot grow; capacity bound kept; the array is the old one or a new one |
| Heap.Heap.Trim | jk_heap.c:140-154 | the array shrinks by the code's rule, never below what is used |
| Heap.Heap.Extract | jk_heap.c:122-191 | a maximum goes, nothing else does, the last element is read before the shrink to ten slots, to half as much again as is used, or not at all; -1 for the empty heap; one successful resize restores the capacity bound; the array is the old one or a new one |
| Heap.Drain | jk_heap.c:122-191 | extracting until the heap is empty gives all its elements in non-increasing order, for any outcomes of realloc |
| HashKeys.SameTextIsPrefix | jk_hash.c:110 | strncmp of two keys of one length compares them up to the first NUL |
| HashKeys.IdentIsExact | jk_hash.c:109-110 | without NUL bytes the three comparisons mean equality of keys |
| HashKeys.IdentIff | jk_hash.c:109-110 | two keys are one to the table if and only if the hash function gives them one value, their lengths agree, and so does every character before which neither has a NUL |
| HashKeys.SameMark | jk_hash.c:109-110 | two keys are one to the table if and only if hash, length and the text up to the first NUL agree |
| HashKeys.NulHidesTheRest | jk_hash.c:109-110 | two different keys with a NUL that are one |
| HashKeys.GrownSize | jk_hash.c:217-227 | the loop over the size list finds the least listed size above the old one, or keeps the last |
| HashKeys.NextSizeIsLeast | jk_hash.c:217-227 | as the specified growth does |
| HashKeys.ListedIff | jk_hash.c:26-32 | the listed sizes are the entries of the list before the closing 0 |
| HashKeys.NextSizeFacts | jk_hash.c:26-32 | below the last size, growing gives a listed size larger by at least two |
| HashKeys.LoadKept | jk_hash.c:161-165 | from a listed size and a kept load, one more element and the growth it causes keep the load at two thirds until the last size |
| HashKeys.StaysLightIff | jk_hash.c:161-165 | for any size, adding one element keeps the load at two thirds if and only if the next size is larger by two, or by one and the size is no multiple of three |
| HashKeys.UnlistedCanStayHeavy | jk_hash.c:161-165 | from a size that is not listed the load can be exceeded |
| Hash.HashTable.constructor | jk_hash.c:54-79 | an empty table with the size clamped into 7..2147483647 |
| Hash.HashTable.WalkChain | jk_hash.c:106-118 | the search loop stops at the first match with the entry before it, or at the end |
| Hash.HashTable.Find | jk_hash.c:101-120 | finds exactly what the map holds, and reports success exactly then |
| Hash.HashTable.Insert | jk_hash.c:123-168 | the map with the binding added or replaced, the old data freed; the three results told apart; the size grows exactly when the new entry takes the load past two thirds and memory is given, and a listed size keeps that load |
| Hash.HashTable.Remove | jk_hash.c:171-206 | the map without the key, its data freed, and the load kept; error and no change exactly when absent |
| Hash.HashTable.MoveEntry | jk_hash.c:241-247 | an entry comes to the front of its new bucket and only its own pointer changes |
| Hash.MoveStep | jk_hash.c:237-249 | each relink keeps every entry in exactly one of the old and new buckets, in the bucket of its hash |
| Hash.HashTable.Rehash | jk_hash.c:209-256 | the table has the next size and holds exactly the same map; or nothing changes |
| Hash.HashTable.Destroy | jk_hash.c:259-281 | every entry is freed once, and its data is handed to the free function, if there is one, entry by entry |
| Hash.InItsBucket | jk_hash.c:104-127 | every entry carries the hash of its key and stands in the bucket of that hash modulo the number of buckets |
| Hash.CountIsSize | jk_hash.c:161-203 | elm_nums is the number of keys |
| PoolProtocol.WorkConservingKept | jk_thread_pool.c:37-53 | every step keeps: with a sleeper there are no more tasks than workers about to look for one |
| PoolProtocol.ConservedKept | jk_thread_pool.c:25-64 | every step keeps each task in one place, called and finished as often as it should |
| PoolProtocol.QuitKeptKept | jk_thread_pool.c:142-156 | every step keeps: nobody sleeps once the flag is set, nothing is freed unrun before all have exited |
| PoolProtocol.InvOverRuns | jk_thread_pool.c:25-165 | the invariants hold in every state of every run |
| PoolProtocol.NoSleepOverWork | jk_thread_pool.c:37-53 | in every reachable state a waiting task means an awake worker, and no worker reads a null list |
| PoolProtocol.QuitStep | jk_thread_pool.c:39-61 | after the flag a worker's step brings it nearer to exit, and no step begins a task |
| PoolProtocol.ShutdownIsBounded | jk_thread_pool.c:142-156 | whatever else happens, the workers take at most three steps each after the flag |
| PoolProtocol.WorkerStepsCounted | jk_thread_pool.c:37-61 | the steps counted there are the places in the run at which a worker steps |
| PoolProtocol.ShutdownGoesOn | jk_thread_pool.c:154-156 | until it has exited a worker can step, and when no steps are left the joins return |
| PoolProtocol.DestroyEnds | jk_thread_pool.c:142-165 | from every state after the flag the workers and the owner can bring the destruction to its end |
| PoolProtocol.EachTaskOnce | jk_thread_pool.c:142-165 | after destruction every pushed task was run once and finished once, or freed unrun once, and the count is 0 |
| PoolProtocol.WaitsIff | jk_thread_pool.c:48-51 | a task with d others in front of it still waits after a run if and only if at no point of the run more than d more tasks had left the list than had come in |
| PoolProtocol.CanStarve | jk_thread_pool.c:48-51 | with any number of workers, and whichever of them take the newer tasks, a task can wait while any number of newer ones are pushed, run and freed |
| ThreadPool.ThreadPool.Push | jk_thread_pool.c:115-139 | on the fields: one push step of the protocol, or -1 and no change |
| ThreadPool.ThreadPool.Take | jk_thread_pool.c:37-53 | on the fields: leave, wait or take the newest task, as the protocol's step says |
| ThreadPool.ThreadPool.SetQuit | jk_thread_pool.c:149-152 | on the fields: the quit step |
| ThreadPool.ThreadPool.FreeRemaining | jk_thread_pool.c:158-165 | every block left in the list is freed, once, in order, and the count comes to 0 |
| ThreadPool.DrainRuns | jk_thread_pool.c:158-165 | that is a run of the protocol |
| AioProtocol.InvKept | jk_aio.c:90-273 | every step of every thread keeps the invariants |
| AioProtocol.InvOverRuns | jk_aio.c:90-273 | so they hold over every interleaving |
| AioProtocol.OnePlaceEach | jk_aio.c:133-273 | a submitted request is being submitted, listed, in a worker, queued, polled or rejected, in exactly one of these |
| AioProtocol.PendingIsExact | jk_aio.c:90-101 | nreqs - ncoms is the number of requests not yet polled, and never negative |
| AioProtocol.SubmitGoesOn | jk_aio.c:185-200 | a counted request can always be pushed or taken back |
| AioProtocol.CallbackOnce | jk_aio.c:157-161 | a finish callback runs at most once, exactly once for a polled request, never for a request without one |
| AioProtocol.CallbacksInOrder | jk_aio.c:133-165 | with one consumer callbacks run in the order of queueing, none left out |
| AioProtocol.ReportsAddUp | jk_aio.c:104-165 | in every reachable state the bytes that waits have read and those in the pipe are the notices written but for those that found the pipe full, none of them up to its capacity; and the polls report just the requests they take |
| AioProtocol.LostLasts | jk_aio.c:104-118 | a wait on an empty pipe with finished requests queued is ended only by a timeout or a failure of select, until another request is queued |
| AioProtocol.NoLostNotice | jk_aio.c:104-151 | with a rule that makes it poll between a wait that has read something and its next wait, one consumer is, with any number of workers and any pipe, never blocked on an empty pipe with requests queued, but while a worker is about to write |
| AioProtocol.WriterCanWrite | jk_aio.c:270-272 | that worker can write, and then the pipe is not empty |
| AioProtocol.Realized | jk_aio.c:104-165 | with any number of workers and any pipe, every sequence of calls that a rule allows, with the results claimed, happens in some run |
| AioProtocol.WaitingTooSoonLosesNotice | jk_aio.c:104-130 | there, a rule that allows one wait too soon has a run in which the consumer blocks with a finished request queued |
| AioProtocol.SafeIff | jk_aio.c:104-165 | for each number of workers and each pipe, a rule is safe over all runs if and only if it forbids a wait after a wait that has read something without a poll in between |
| AioProtocol.SafeAsStarted | jk_aio.c:78 | so it is for the 15 workers that are started, with any pipe |
| AioProtocol.WorkIsPending | jk_aio.c:90-101 | no work is left exactly when the pending count is 0 |
| AioProtocol.WorkStep | jk_aio.c:133-273 | without submissions every step that brings a request further lowers the work left, and no step raises it |
| AioProtocol.ProgressIsBounded | jk_aio.c:133-273 | so over a run without submissions such steps are at most as many as the work there was |
| AioProtocol.ProductiveLast | jk_aio.c:133-273 | each such step of a run counts for one |
| AioProtocol.ProgressGoesOn | jk_aio.c:133-273 | and while a request is pending one of them is enabled, unless all that are pending wait for the consumer to poll |
| AioProtocol.NotYetQueued | jk_aio.c:252-268 | a request that is about to be queued is not in the queue |
| Aio.AioState.BeginSubmit | jk_aio.c:187-189 | on the fields: the counting step |
| Aio.AioState.CancelSubmit | jk_aio.c:194-196 | on the fields: the count goes back |
| Aio.AioState.Nreqs | jk_aio.c:90-101 | the number of requests in the four places, not negative |
| Aio.AioState.Link | jk_aio.c:258-268 | the request comes to the end of the list from rhead to rtail |
| Aio.AioState.Enqueue | jk_aio.c:252-268 | on the fields: the queueing step |
| Aio.AioState.Dequeue | jk_aio.c:140-155 | on the fields: the first request leaves the list, or null exactly when it is empty |

## Left out

- jk_event.c: wrappers around epoll, kqueue and select; the behaviour is the kernel's.
- jk_spinlock.c: one compare-and-swap word.
- jk_bloom_filter.c: short bit-set facts, and a default hash over global salts that every init rewrites.
- jk_list.h: three ring operations.
- jk_hash_default_hash and jk_skip_random_level: the hash is any function, the level any number from 1 to 32; the generator of the code has no upper bound, so that bound is an assumption. A hash is taken as a natural number that fits the `int` it is stored in.
- jk_avl_find, jk_skip_find: they return the data of what the modelled searches find.
- jk_skip_free, jk_heap_destroy, and the free functions that only release the container itself.
- The fields `key` and `timer_node` of a timer are those of its tree node: a timer is identified with the node it embeds.
- Avl.AvlTree.Remove: the tree is claimed to stay valid only when the search finds the given node; what is lost otherwise is stated, the shape of the remaining tree only as the value-level function.
- Timer.Timer.ProcessTimeout: callbacks do not touch the timer, clock readings never go back and stay below 2^64 - 2^31, and at every turn the key search finds the timer that is to fire (the exact condition of TurnExactIff); of the tree on the heap after a turn that lost a timer nothing is said, only of the run on values (NoneLostIff). A failing clock, which reads 0, is not modelled.
- Skip-list nodes hold their `forward` slots as a sequence field instead of an array inside the node's own memory block.
- Integer widths: heap sizes and counts, `length`, `elm_nums`, `task_nums`, `nreqs` and `ncoms` are unbounded; the 64-bit key sum of a timer, the unsigned conversion of a skip-list key and the listed 32-bit table sizes are not.
- Freed memory: a node or entry that is freed is only no longer part of the structure, and its reuse by malloc is not modelled.
- Concurrency: lock and condition-variable calls are the atomicity of the steps; memory ordering, thread creation and its failure, and the start-up handshake of the pool are not modelled.
- PoolProtocol.EachTaskOnce: pushes end before the owner starts to free the list, as the destroyed pool's memory demands.
- jk_aio_execute and the request constructors: an executed request has any result.
- A request whose push failed is leaked by the code; the model counts it as rejected and does nothing more with it.
- A free function of a single timer: the model says which timers are freed and in which order, not which of them have such a function.
- AioProtocol.SafeIff: the rule decides on the results of the consumer's own calls, for one consumer; nothing is said about notices with several consumers.
