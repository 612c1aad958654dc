# Verified models of ulib and Colossal

ulib is a library of data structures, algorithms and spin locks in C and C++; Colossal is a discrete-event
simulator of a MapReduce scheduler built on it.  This project models the parts of both whose correctness
rests on an invariant that no single function shows, and proves what those parts promise.

Code that works in place is modelled in place: classes with the source's fields, methods with the source's
loops and branches, nodes linked by pointers.  Every such method is proved against a specification over
values, and the results about whole runs, orders and round trips are lemmas about that specification.

| module | source | subject |
|---|---|---|
| McsLock, RwTicketLock | ulib/include/ulib/os_spinlock.h | locks as step machines; a run is any schedule of any number of threads |
| Probing, OpenHash | ulib/src/base/hash_open_prot.h | the open-addressing hash table and its in-place rehash |
| TreeLinks, Avl, SplayDepth, Splay | ulib/opt/tree/tree.c | trees of nodes with parent pointers |
| Heap | ulib/src/base/heap_prot.h | the array heap with a moving hole |
| ListSort | ulib/src/base/sort_list.c | the bottom-up merge sort of linked lists |
| Lis | ulib/include/ulib/dp_lis.h | longest increasing subsequences |
| ExtendedGcd | ulib/src/base/math_gcd.c | extended Euclid on machine words |
| Words, Bitmap, Regions | ulib/src/base/math_bit.h, bitmap.c | searching, remapping and allocating in bitmaps |
| RpcFraming | ulib/app/rpclib/rpclib.cpp | message framing, the response buffer, the worker's loop |
| FairShare, FairSelect | colossal/src/fsched.hpp, fsched.cpp | fair shares and fair selection |
| EngineBooks, EngineState, Engine | colossal/src/engine.cpp, event.cpp, selector.cpp, pool.cpp, vsem.hpp | the event engine with semaphore, timers and preemption |

Common holds what several modules use.

## Model

| member | source | states |
|---|---|---|
| McsLock.MutualExclusion | ulib/include/ulib/os_spinlock.h:156-195 | in every schedule of any number of threads, two threads that are between entering the critical section and handing the lock over are the same thread |
| McsLock.OwnershipFollowsExchangeOrder | ulib/include/ulib/os_spinlock.h:156-181 | at every moment of every run the threads that have exchanged the lock word are, in that order, those that have become owners followed by those still waiting |
| McsLock.ReleaseNeverLosesSuccessor | ulib/include/ulib/os_spinlock.h:184-195 | nobody ever follows a null `next`, and a releaser that failed to clear the lock word has a successor that has linked itself or is about to |
| McsLock.SomeThreadCanProceed | ulib/include/ulib/os_spinlock.h:156-195 | no run deadlocks: while a thread is past its exchange, some such thread has a step that changes the state |
| McsLock.EveryThreadCanGetIn | ulib/include/ulib/os_spinlock.h:156-181 | after any run every thread that does not hold the lock can still get it: some continuation leads it into its critical section |
| McsLock.EveryHolderCanLeave | ulib/include/ulib/os_spinlock.h:184-195 | after any run whoever holds the lock can still release it, also when its successor has yet to link itself |
| McsLock.FreeLockIsTaken | ulib/include/ulib/os_spinlock.h:156-165 | a thread that finds the lock free owns it after two accesses |
| McsLock.Machine.Advance | ulib/include/ulib/os_spinlock.h:156-195 | the thread records updated in place make exactly the steps the runs are made of |
| RwTicketLock.SafeExactlyUpTo256Threads | ulib/include/ulib/os_spinlock.h:355-449 | every schedule keeps writers apart from one another and from readers if and only if there are at most 256 threads |
| RwTicketLock.TicketsAreAdmittedInOrder | ulib/include/ulib/os_spinlock.h:355-449 | with at most 256 threads the tickets taken so far are those admitted, in that order, followed by those still waiting |
| RwTicketLock.ReadIncrementHasOneExecutor | ulib/include/ulib/os_spinlock.h:401-419 | while a thread is inside the non-atomic `++read` nobody else is, no writer owns the lock, and the value about to be stored is still one more than `read` |
| RwTicketLock.ReleaseOverwritesNothing | ulib/include/ulib/os_spinlock.h:373-381 | what a releasing writer is about to store is the current `write` and `read`, each incremented, so nobody's change is undone |
| RwTicketLock.SomeThreadCanProceed | ulib/include/ulib/os_spinlock.h:355-449 | the lock never wedges: while a thread waits, reads or writes, some such thread has a step that changes the state |
| RwTicketLock.EveryWaiterCanGetIn | ulib/include/ulib/os_spinlock.h:355-449 | after any run of at most 256 threads every thread waiting for the lock can still get in: some continuation lets it in |
| RwTicketLock.TryWriteSucceedsExactlyWhen | ulib/include/ulib/os_spinlock.h:383-399 | after any run of at most 256 threads, undisturbed, the write trylock succeeds if and only if all threads are outside the lock; otherwise it changes nothing |
| RwTicketLock.TryReadSucceedsExactlyWhen | ulib/include/ulib/os_spinlock.h:430-449 | likewise the read trylock succeeds if and only if every thread is outside or reading; otherwise it changes nothing |
| RwTicketLock.FailedTryLeavesWord | ulib/include/ulib/os_spinlock.h:383-449 | however it is disturbed, a trylock leaves the lock word alone at every access that does not let its thread in |
| RwTicketLock.FreeLockIsTaken | ulib/include/ulib/os_spinlock.h:355-419 | undisturbed, a thread that asks for the write lock has it at once if and only if all are outside, and one that asks for the read lock reads after three accesses if and only if all are outside or reading |
| RwTicketLock.HoldersCanLeave | ulib/include/ulib/os_spinlock.h:373-428 | a writer is outside again after two accesses, a reader after one |
| RwTicketLock.Machine.Advance | ulib/include/ulib/os_spinlock.h:355-449 | the shared word updated in place makes exactly the steps the runs are made of |
| Probing.EveryBucketIsProbed | ulib/src/base/hash_open_prot.h:126-131 | the triangular walk over a power-of-two table reaches every bucket within as many probes as there are buckets |
| Probing.NoEarlyReturn | ulib/src/base/hash_open_prot.h:126-131 | the walk meets its first bucket again only after all the others, so the test for the end of the search is exact |
| Probing.ProbeIsTriangular | ulib/src/base/hash_open_prot.h:126-131 | the j-th bucket of the walk is the hash plus j * (j + 1) / 2, reduced by the number of buckets |
| Probing.PowerOfTwoTest | ulib/include/ulib/hash_open.h:308-316 | `n & (n - 1)` is zero exactly for the powers of two |
| Probing.WalkReachesAllExactlyWhen | ulib/src/base/hash_open_prot.h:120-131 | for any number of buckets, the masked walk of every hash visits every bucket if and only if the number is a power of two; otherwise some bucket is on the walk of no hash |
| Probing.WalkIsProbe | ulib/src/base/hash_open_prot.h:120-131 | for a power of two, masking with the size less one is the walk modulo the size |
| OpenHash.SearchesEndExactlyWhen | ulib/src/base/hash_open_prot.h:174-180 | for any number of buckets, the search for an empty one ends in every table that has one, whatever the hash, if and only if the number is a power of two |
| OpenHash.NineBucketsAreTwo | ulib/src/base/hash_open_prot.h:145-180 | the input that shows it: rehashing into nine buckets accepts five elements, but with two placed the search for a third never ends |
| OpenHash.KickOut | ulib/src/base/hash_open_prot.h:169-194 | one displacement of the rehash: old-live, carried and new-live entries together stay the original map, no bucket is live in both tables, and every placed key is found along its path |
| OpenHash.Table.ResizeTo | ulib/include/ulib/hash_open.h:308-316 | for every size: refused without any change if it is not a power of two or too small for the elements, otherwise the table has that size, no tombstones, and stores the same map |
| OpenHash.Table.Resize | ulib/src/base/hash_open_prot.h:137-208 | for a power of two: the rehash within the shared key and value arrays, growing or shrinking, ends and keeps the map; for any size the load test refuses: nothing changes |
| OpenHash.Table.Get | ulib/src/base/hash_open_prot.h:116-135 | finds a key's live bucket, with its value, exactly when the map has the key |
| OpenHash.Table.Set | ulib/src/base/hash_open_prot.h:210-264 | adds the key exactly when the map lacks it; no key is ever stored twice; the table doubles, or starts with two buckets, exactly when its used buckets have reached the bound, and a tombstone that is taken again uses up no further bucket |
| OpenHash.Table.FindSite | ulib/src/base/hash_open_prot.h:220-248 | the bucket found is the live one of the key, or else the last tombstone on its path, or else the empty bucket that ends the path |
| OpenHash.Table.PutValue | ulib/src/base/hash_open_prot.h:301-301 | assigning through a live bucket changes the value of its key and nothing else |
| OpenHash.Table.Del | ulib/src/base/hash_open_prot.h:266-273 | takes the key of a live bucket out of the map and ignores every other bucket |
| OpenHash.Table.Clear | ulib/src/base/hash_open_prot.h:106-114 | the map becomes empty and the table keeps its size |
| Heap.Adjust | ulib/src/base/heap_prot.h:47-65 | the hole that sinks to a leaf and the value that rises again leave a heap from `top` on, holding the old elements with the one at `top` replaced |
| Heap.Build | ulib/src/base/heap_prot.h:67-81 | any array becomes a heap of the same elements |
| Heap.PopToRear | ulib/src/base/heap_prot.h:83-94 | the root moves behind a heap of the remaining elements |
| Heap.RootIsGreatest | ulib/src/base/heap_prot.h:34-81 | nothing in a heap exceeds its root |
| Heap.Sort | ulib/src/base/heap_prot.h:96-102 | turns a heap into a sorted permutation of itself |
| FairShare.DoublingEndsExactlyWhenReachable | colossal/src/fsched.hpp:103-121 | the doubling loop ends if and only if the users' limits satisfy them all or use up the slots |
| FairShare.WeightlessUserNeverEnough | colossal/src/fsched.hpp:108-121 | an input that never ends it: one user without weight and min share that asks for something |
| FairShare.SharesAreMaxMin | colossal/src/fsched.hpp:123-141 | with bound B, the shares sum to the slots to within B times the sum of the weights over 2^25 when the demands reach them; otherwise each is that close, by its weight, to its demand |
| FairShare.RatioIsNearlyLeast | colossal/src/fsched.hpp:148-185 | the ratio returned and all larger ones are enough, and those smaller by more than B over 2^25 are not |
| FairShare.ShareRange | colossal/src/fsched.hpp:75-79 | a share lies between the smaller of demand and min share, and the demand |
| FairShare.ComputeFairshares | colossal/src/fsched.hpp:103-142 | every user gets its share at one ratio m: all it demands, or at least its weight times m and its min share, and no more than weight times m unless that is its min share; m is at most B over 2^25 below the ratio r returned, at and above which such shares meet all demands or use up the slots, and below which, by more than that, they do not; B is the first power of two whose shares do; the shares then fit the slots as in SharesAreMaxMin and are weighted max-min fair |
| FairShare.ComputeRatio | colossal/src/fsched.hpp:148-185 | the two loops end; the shares at the ratio returned and at all larger ones meet all demands or use up the slots, and those at ratios smaller by more than B over 2^25 do not, where B is the first power of two whose shares do |
| FairShare.SharesAreMaxMinFair | colossal/src/fsched.hpp:97-142 | with the shares of any one ratio, a user that gets less than it demands gets no less for its weight than any user that gets more than its min share |
| FairShare.ScaleMinshares | colossal/src/fsched.hpp:84-95 | afterwards the min shares sum to the smaller of their old sum and the slots, in the same proportions |
| FairSelect.CompareIsPrecedence | colossal/src/fsched.cpp:22-44 | the comparator puts user a no later than b if and only if a alone is short of its min share, or both are and alloc_a * max(minshare_b, 1) <= alloc_b * max(minshare_a, 1), or neither is and alloc_a * weight_b <= alloc_b * weight_a; where these are equal, by uid |
| FairSelect.Selector.Select | colossal/src/fsched.hpp:240-258 | serves a competing user that is owed something and comes no later than any other, in the sense of CompareIsPrecedence, or nobody when none is owed anything; nobody who is owed something stops competing |
| FairSelect.Selector.Add | colossal/src/fsched.hpp:214-224 | a user joins exactly when it is owed something and does not compete yet |
| FairSelect.Selector.Allocate | colossal/test/fair_shares.cpp:34-46 | calling the selector for a number of slots makes exactly as many picks as there are slots or as were owed, whichever is less; each pick is least of all users at its time; needy users come first; without min shares the outcome is fair |
| FairSelect.PicksUseUpDemand | colossal/src/fsched.hpp:240-258 | along a run what is owed falls by one with each pick, whichever users are picked |
| FairSelect.NeedyUsersFirst | colossal/src/fsched.cpp:22-44 | a user that is least is below its min share if any user owed something is |
| FairSelect.RunsAreFair | colossal/src/fsched.hpp:187-189 | from nothing and without min shares, at every moment (alloc_i - 1) * w_j <= alloc_j * w_i for every served i and every j owed something |
| FairSelect.ChangeIsSafeExactlyWhen | colossal/src/fsched.hpp:190-197 | changing the demand of a user inside the heap keeps every heap in order if and only if the user is owed something both before and after, or neither, or has its min share |
| FairSelect.RaisedUserIsPassedOver | colossal/src/fsched.hpp:190-197 | for every other raise there is a heap whose root is served although the raised user precedes it |
| FairSelect.LoweringKeepsNextPick | colossal/src/fsched.hpp:190-197 | after a demand has been lowered the next user served still is least, whatever the heap |
| Engine.Engine.constructor | colossal/src/engine.cpp:32-41 | an engine of loaded pools, jobs and tasks satisfies the invariant between events |
| Engine.Engine.Step | colossal/src/engine.cpp:249-269 | any event, with or without preemption, keeps the invariant and never sets the clock back; it is one of least time; while a slot is free and a visible task is left to launch the clock stands still, and a creation event that finds a free slot has one more task run; without preemption the remaining work shrinks |
| Engine.Engine.Process | colossal/src/engine.cpp:235-273 | without preemption and with at least one slot the loop ends, with all slots free, every task launched exactly once, not before its creation, and finished its processing time after its start |
| Engine.Engine.BetweenEvents | colossal/src/pool.cpp:113-139 | what holds between events of any run: the min share timer of a pool runs exactly while the pool is below its min share, and jobs and pools are owed exactly their queued tasks |
| Engine.Engine.SlotsBetweenEvents | colossal/src/vsem.hpp:38-57 | what also holds: no pending finish or check is overdue; no slot is free while a creation event waits; a running task is nowhere else; free slots and running tasks add up to the slots and the finish events that took effect for a task not running, of which there are none, and a running task has exactly one finish event pending, as long as no task is launched again at the instant of its launch before |
| Engine.Engine.ChecksBetweenEvents | colossal/src/pool.cpp:113-127 | in every run the check of every running timer, of either kind, that has not yet run for its timeout is among the pending events, at the time it is due |
| Engine.Engine.SharesBetweenEvents | colossal/src/engine.cpp:285-290 | in every run the pools' fair shares are weighted max-min fair and, if the min shares fit the slots, so do they, to within B times the weights over 2^25 |
| Engine.Engine.LaunchesBetweenEvents | colossal/src/event.cpp:30-80 | in every run the creation event is pending or waits for a slot as long as something is left to launch; it is never later than any task not yet visible needs it, and due while a slot is free and a visible task is left; pools and jobs are charged exactly their running tasks unless a finish event took effect for a task not running |
| Engine.Engine.QueuesBetweenQuietEvents | colossal/src/selector.cpp:171-198 | without preemption every job's queue holds its tasks in the order of their creation, none younger than a task not yet visible |
| Engine.AnyRun | colossal/src/engine.cpp:235-273 | all of this after any number of events of any run from the beginning, with or without preemption, and the clock has not gone back |
| Engine.Engine.BetweenQuietEvents | colossal/src/engine.cpp:76-113 | without preemption free slots and running tasks add up to the slots, every task is in exactly one place, launched at most once, and a running task has exactly one finish event pending |
| Engine.Engine.PopMap | colossal/src/selector.cpp:255-295 | a task is returned exactly when a visible one is left; it is the first of the queue of a job that comes no later, in the sense of CompareIsPrecedence, than any other of its pool with queued tasks, and so does the pool among those listed; both are charged |
| Engine.Engine.MapMinCtime | colossal/src/selector.cpp:137-152 | the time returned is some task's creation time and never later than that of a task still to be launched |
| Engine.Engine.HandleCreate | colossal/src/event.cpp:30-80 | done exactly when a slot is free, and then one more task runs, popped once all tasks created by now are visible and started now, and one slot fewer is free; otherwise the event waits; the clock moves to the event unless it is ahead of it; the invariant holds again, which has the next creation event pending, or waiting for a slot, as long as something is left to launch |
| Engine.Engine.Post | colossal/src/vsem.hpp:48-57 | in every run: with nobody waiting one more slot is free and nothing else changes; a creation event that waits is woken and always gets the slot, so deleting it is right; the clock stays and the invariant holds |
| Engine.Engine.HandleFinish | colossal/src/event.cpp:147-158 | a finish event that is stale, by time or by the preempted flag, changes nothing; any other sets the clock and the task's finish time to its own and frees one slot; free slots and running tasks keep adding up exactly if the task was running |
| Engine.Engine.TakeVictims | colossal/src/engine.cpp:137-159 | at most the number asked for is taken, the youngest tasks first, each while its pool's allocation was above its fair share, and fewer only if no running task's pool is any more; the pools have lost exactly these tasks and their demand for them |
| Engine.Engine.PreemptMaps | colossal/src/engine.cpp:137-170 | takes the youngest tasks of pools whose allocation is above their fair share, at most the number asked for and fewer only if there is none left, and puts them back among those not yet visible; all others keep running; one slot is freed for each, so that free slots and running tasks still add up; the re-entrant wake-ups keep the invariant and the clock |
| Engine.Engine.HandlePreempt | colossal/src/event.cpp:185-203 | with ms the smaller of demand and min share less the allocation, if the min share timer has run for its timeout, and hf the fair share less the allocation, if the other timer has and the pool is below half its share, the greater of the two, each at least zero, is the number of tasks taken, or fewer only if none is left whose pool is above its fair share; if it is zero nothing but the clock changes |
| Engine.Engine.StepPreempt | colossal/src/event.cpp:185-203 | the same of the loop's turn in any run that has such an event |
| Engine.Engine.TransitN2S | colossal/src/pool.cpp:113-127 | starts the timer of a pool below its demand and min share, or below half its fair share, if it is enabled and does not run, and adds exactly one check for each timer started, after its timeout |
| Engine.Engine.UpdateFairshares | colossal/src/engine.cpp:285-290 | the pools get the fair shares of all slots, as ComputeFairshares computes them, each between the smaller of demand and min share, and the demand |
| Engine.Engine.StarvedForMinshare | colossal/src/pool.cpp:58-70 | a pool whose timer has run long enough always needs a positive number of slots, so the branch that warns of a wrong allocation is unreachable |
| EngineState.TransitsRestoreTimer | colossal/src/pool.cpp:113-139 | starting a timer after demand has grown, stopping it after allocation has, or both in turn after anything, makes it run exactly while the pool is starved; both in turn also make the half fair share timer run exactly while the pool is below half its fair share |
| EngineState.StartedTimerRunsExactlyWhen | colossal/src/pool.cpp:113-127 | the timer started for a starved pool counts as running if and only if the clock is not below zero |
| EngineState.VictimIsNotStarved | colossal/src/engine.cpp:144-158 | a pool above a fair share that is at least the smaller of its demand and min share is not starved by losing a task, nor by losing its demand for it |
| EngineState.StarvedIsOwed | colossal/src/event.cpp:185-203 | when slots are taken for a starved pool there is a visible task left to launch on them |
| EngineState.LaunchPlaces | colossal/src/selector.cpp:255-295 | in every run a popped task is not running, and after its launch every task still is not yet visible, queued or running at most once |
| EngineState.UnmixedLaunch | colossal/src/engine.cpp:76-86 | a task not launched again at the instant of its launch before has no other finish event that could be taken for its new one |
| EngineState.UnmixedFinish | colossal/src/event.cpp:147-158 | then a finish event that takes effect finds its task running |
| EngineState.SecondFinishIsStray | colossal/src/event.cpp:147-158 | a task launched, preempted and launched again at one instant has two finish events alike, the second of which takes effect although the task is not running |
| Avl.AvlTree.Add | ulib/opt/tree/tree.c:528-603 | exactly this node is put in, in an ordered tree behind the smaller and before the equal and greater ones; parent links and balances are right afterwards |
| Avl.AvlTree.Map | ulib/opt/tree/tree.c:528-617 | an equal node is returned and the tree kept; otherwise exactly this node is put in, and an ordered tree has one exactly when no key was equal |
| Avl.AvlTree.Delete | ulib/opt/tree/tree.c:619-752 | the in-order sequence becomes the old one without exactly this entry; every balance is the difference of the subtree heights and within one; parent links are right |
| Avl.LeftChildExists | ulib/opt/tree/tree.c:650-668 | where the third case of deletion follows the left child without a check, balance guarantees there is one |
| Avl.GrowthEnds | ulib/opt/tree/tree.c:528-592 | the rotation chosen where the climb stops leaves the whole tree balanced |
| Avl.Restores | ulib/opt/tree/tree.c:670-752 | one turn of the loop of a deletion leaves its subtree balanced, as high as before if it was the last turn and lower by one if not |
| Avl.AvlTree.Search | ulib/opt/tree/tree.c:28-42 | in an ordered tree a node is found exactly when some node has the key |
| Avl.AvlTree.Next | ulib/opt/tree/tree.c:64-79 | the node right behind the given one in order, or null for the last |
| Avl.BalancedIsShallow | ulib/opt/tree/tree.c:528-752 | what balance is for: a balanced tree of height h has at least 2^(h/2) - 1 nodes |
| Splay.SplayTree.Search | ulib/opt/tree/tree.c:297-340 | the nodes and their order are kept, parent links are right, and the node found is the root; in an ordered tree one is found exactly when there is one; a node met at depth i on the way is no deeper than i/2 + 2 afterwards |
| Splay.SplayTree.Map | ulib/opt/tree/tree.c:342-411 | the equal node or the new one becomes the root; the nodes and their order are kept but for the new one; an ordered tree stays ordered and takes the node exactly when no key is equal; a node met at depth i on the way is no deeper than i/2 + 2 afterwards |
| Splay.AssembledInOrder | ulib/opt/tree/tree.c:252-264 | left tree, head and right tree always put together to the original sequence |
| SplayDepth.TwoRight | ulib/opt/tree/tree.c:312-322 | the rotation before the link sets two nodes of the way aside at the cost of one level, so depths stay halved |
| SplayDepth.MapTurnRight | ulib/opt/tree/tree.c:357-380 | each turn of an insertion keeps depths halved, whether it goes on in the same direction, turns round or ends |
| ListSort.ListSort | ulib/src/base/sort_list.c:97-133 | the ring's `next` and `prev` links afterwards make up the sorted list, for all lists of fewer than 2^64 nodes |
| ListSort.ListSortForward | ulib/src/base/sort_list.c:135-174 | the same for a null-terminated list behind a head |
| ListSort.SortSorts | ulib/src/base/sort_list.c:97-133 | the sorted list is an ordered permutation of the list |
| ListSort.SortIsStable | ulib/src/base/sort_list.c:38-133 | the elements of every key keep their order |
| ListSort.MergeSorts | ulib/src/base/sort_list.c:38-58 | merging two sorted runs in this way is sorting the two runs together, equal keys in order |
| ListSort.LevelIsBit | ulib/src/base/sort_list.c:114-126 | the partial list at a level is non-empty exactly when that bit of the number of elements so far is set, and then has that power of two of elements |
| ListSort.LastPart | ulib/src/base/sort_list.c:128-133 | the last partial list, which is not checked for null, never is null |
| Lis.LongestIncreasing | ulib/include/ulib/dp_lis.h:42-101 | the length of a longest strictly increasing subsequence, and in `res` the values of one |
| Lis.NothingLonger | ulib/include/ulib/dp_lis.h:64-85 | no increasing subsequence is longer than there are levels |
| Lis.Level | ulib/include/ulib/dp_lis.h:65-76 | the binary search finds the level whose tail the element equals or replaces |
| ExtendedGcd.GcdIsGreatest | ulib/src/base/math_gcd.c:28-38 | what Euclid computes divides both numbers and is divided by all their common divisors |
| ExtendedGcd.ComputeGcd | ulib/src/base/math_gcd.c:28-38 | the loop ends with that number for all pairs of words, zeros included |
| ExtendedGcd.Egcd | ulib/src/base/math_gcd.c:40-64 | for all 64-bit numbers the coefficients returned are exact, combine the numbers to their greatest common divisor, and are bounded by the other number over it |
| ExtendedGcd.NoCoefficientOverflows | ulib/src/base/math_gcd.c:50-61 | below 2^63 no coefficient of any turn leaves the range of a `long` |
| ExtendedGcd.Invert | ulib/src/base/math_gcd.c:66-75 | for m of at least two a number below m, which is an inverse of b modulo m exactly if the two are coprime |
| Bitmap.FindNext | ulib/src/base/math_bit.h:394-470 | the first set (or clear) bit at or after the offset, or the size if there is none below it |
| Bitmap.FindFirst | ulib/src/base/math_bit.h:472-493 | the first set bit, or the size |
| Bitmap.Weight | ulib/src/base/bitmap.c:264-275 | the number of set bits below the size |
| Bitmap.PosToOrd | ulib/src/base/bitmap.c:600-615 | the number of set bits below a set position, and -1 for every other position |
| Bitmap.OrdToPos | ulib/src/base/bitmap.c:635-650 | the set position with that many set bits below it, or 0 if there is none |
| Bitmap.PositionIs | ulib/src/base/bitmap.c:600-650 | a set bit's ordinal leads back to its position |
| Bitmap.BitRemap | ulib/src/base/bitmap.c:732-741 | a set position of `old` goes to the set position of `new` that has, below it, the number of set bits below the old one modulo the number of set bits of `new`; every other position stays |
| Bitmap.Remap | ulib/src/base/bitmap.c:685-705 | the words of `dst` become exactly the image of `src` under that map; nothing changes if `dst` is `src`, and `src` is copied if `dst` is one of the maps |
| Bitmap.CopyIsNotImage | ulib/src/base/bitmap.c:685-705 | an input for which the copy is not the image |
| Bitmap.OldBitsReturnExactlyWhen | ulib/src/base/bitmap.c:654-684 | mapping to `new` and back returns every bit of `old` to its place if and only if `new` has at least as many bits, or none |
| Bitmap.OtherBitsReturnExactlyWhen | ulib/src/base/bitmap.c:654-684 | with equally many bits, a position outside `old` returns if and only if it is outside `new` |
| Bitmap.RemapsCancel | ulib/src/base/bitmap.c:654-684 | remapping a subset of `old` to `new` and the result back again restores the subset |
| Bitmap.FindNextZeroArea | ulib/src/base/bitmap.c:331-353 | for an area of at least one bit: the least aligned run of that many clear bits from the start on, and a number beyond the size exactly when there is none |
| Bitmap.TrivialAnswerIsSet | ulib/src/base/bitmap.c:331-353 | an input for which the answer for an area of no bits is a set bit |
| Regions.RegionOp | ulib/src/base/bitmap.c:921-971 | tests, sets or clears exactly the bits of an aligned region, whether within one word or of many |
| Regions.FindFreeRegion | ulib/src/base/bitmap.c:987-998 | allocates the first free aligned region, or fails and changes nothing exactly when there is none |
| Regions.AllocateRegion | ulib/src/base/bitmap.c:1027-1033 | allocates a free region, and refuses one that is not without any change |
| Regions.ReleaseRegion | ulib/src/base/bitmap.c:1011-1014 | clears exactly the bits of the region |
| Regions.ReleaseUndoesAllocate | ulib/src/base/bitmap.c:1011-1033 | releasing a region that has been allocated restores the bitmap |
| RpcFraming.Worker.ServeStream | ulib/app/rpclib/rpclib.cpp:1120-1170 | however a stream is cut into reads, the stubs are invoked with the same bodies, once each and in the same order, as when it is decoded at once, and the same responses are sent; if a write fails, the loop ends, and what was invoked and what came out are the beginnings of these |
| RpcFraming.Worker.Execute | ulib/app/rpclib/rpclib.cpp:483-511 | runs the complete calls of a buffer up to the first that fails, and returns the bytes consumed, or -1 for a failure, corrupt data or a failed write, after which what came out is the beginning of what was to |
| RpcFraming.ParseMore | ulib/app/rpclib/rpclib.cpp:251-289 | decoding more bytes continues where decoding the first of them stopped |
| RpcFraming.ParseFrames | ulib/app/rpclib/rpclib.cpp:251-289 | decoding what was encoded gives the calls back and consumes everything |
| RpcFraming.ParsedIsFrames | ulib/app/rpclib/rpclib.cpp:251-289 | the other way round, for all bytes: those consumed are the frames of the calls found, the rest does not start with a whole call, and the data are corrupt exactly if it starts with a size from one to four |
| RpcFraming.FrameLayout | ulib/app/rpclib/rpclib.cpp:519-530 | a frame is its own size in four bytes, least significant first, the id and the body |
| RpcFraming.ServedFrames | ulib/app/rpclib/rpclib.cpp:483-511 | serving an encoded sequence of calls runs exactly those calls |
| RpcFraming.ServedStops | ulib/app/rpclib/rpclib.cpp:1155-1159 | after a failed stub or corrupt data further bytes make no difference |
| RpcFraming.RunInvokes | ulib/app/rpclib/rpclib.cpp:483-511 | the stubs are invoked for exactly the calls that have one, in their order, up to and including the first that fails |
| RpcFraming.RunSends | ulib/app/rpclib/rpclib.cpp:483-511 | what is sent are the responses of the stubs invoked, in that order |
| RpcFraming.RpcProto.Put | ulib/app/rpclib/rpclib.cpp:519-530 | the call's frame is appended if it fits and nothing changes if it does not |
| RpcFraming.RpcResp.Put | ulib/app/rpclib/rpclib.cpp:366-396 | through its 32-byte buffer a response of any size comes out as exactly its frame behind what was pending; after an error what came out is a prefix of that |
| RpcFraming.RpcResp.Flush | ulib/app/rpclib/rpclib.cpp:398-419 | short and interrupted writes together write everything pending, once and in order |

## Findings

| member | what it shows |
|---|---|
| RwTicketLock.SafeExactlyUpTo256Threads | the reader/writer ticket lock is unsafe from 257 threads on: the 257th writer finds its 8-bit ticket equal to `write` |
| OpenHash.SearchesEndExactlyWhen | the C macro takes any size that passes the load test, but only in tables of a power of two buckets does the search for an empty one always end; the condition is the test that the C++ table makes (Probing.PowerOfTwoTest, OpenHash.Table.ResizeTo).  Nine buckets with three elements are a counterexample (OpenHash.NineBucketsAreTwo) |
| FairSelect.ChangeIsSafeExactlyWhen | fsched.hpp allows the demand of a competing user to change from outside.  Raising one that was met, or lowering one to what the user has, while the user is below its min share, can leave the heap out of order.  After such a raise the selector may serve a user that is not least (FairSelect.RaisedUserIsPassedOver); after lowering the next pick still is least (FairSelect.LoweringKeepsNextPick) |
| FairShare.DoublingEndsExactlyWhenReachable | with weights of zero the doubling may not end (FairShare.WeightlessUserNeverEnough); positive weights suffice (FairShare.PositiveWeightsSuffice) |
| Engine.Engine.HandleFinish | with preemption, free slots and running tasks stop adding up exactly when a finish event takes effect for a task that is not running, which never happens as long as no task is launched again at the instant of its launch before (Engine.Engine.SlotsBetweenEvents); a task launched, preempted and launched again at one instant is a counterexample (EngineState.SecondFinishIsStray) |
| EngineState.StartedTimerRunsExactlyWhen | a clock that starts below zero loses the timers, because a negative time marks a timer that is not running |
| ExtendedGcd.Egcd | the result is exact even where intermediate coefficients wrap around |
| Bitmap.Remap | remapping into one of the two maps copies the source, which need not be its image (Bitmap.CopyIsNotImage); the documentation mentions only `dst` being `src` |
| Bitmap.FindNextZeroArea | an area of no bits is answered with the first clear bit, aligned, which may be a set bit (Bitmap.TrivialAnswerIsSet) |
| Bitmap.OldBitsReturnExactlyWhen | mapping there and back is the identity on `old` if and only if `new` has at least as many bits or none; with equally many, a position outside `old` returns if and only if it is outside `new` |

## Left out

- OpenHash.Table.Resize: requires a power of two unless the load test refuses the size; the C macro takes any size, but its search for an empty bucket is sure to end only for these (OpenHash.SearchesEndExactlyWhen), which the C++ table ensures (OpenHash.Table.ResizeTo).
- Engine.Engine.constructor: requires that the clock does not start below zero, where timers would not run (EngineState.StartedTimerRunsExactlyWhen).
- ListSort.ListSort: bounded by 2^64 nodes, as the 65 partial lists are.
- ExtendedGcd.Invert: promises nothing for moduli 0 and 1.
- FairShare.ComputeFairshares: requires the condition under which the doubling ends.
- FairShare.SharesAreMaxMin: is about real numbers, as is everything about fair shares; rounding of floating point is not modelled.
- FairSelect.Selector.Allocate: requires that nobody has more than it asks for, which the header demands of its callers, and that users owed something compete.
- Engine.Engine.Process: is about runs without preemption; with it repeated preemption has no evident bound. The invariant of Engine.Engine.Step holds in all runs.
- Engine.Engine.BetweenEvents: says nothing of whether a pool is still below half its fair share while that timer runs, which other pools' events outdate; when a task of the pool itself has finished the timer is right (EngineState.TransitsRestoreTimer).
- Engine.Engine.QueuesBetweenQuietEvents: is about runs without preemption; a preempted task queues behind younger ones when it becomes visible again.
- Bitmap.FindNextZeroArea: the alignment mask is one less than a power of two, as documented; positions are unbounded, so a search ending near 2^64 that would wrap around is not modelled.
- Regions.RegionOp: the region is aligned and within the bitmap, as callers must ensure; the overflow of `1 << order` is not modelled.
- Bitmap.Weight: counting the bits of one word is a definition; the straight-line arithmetic of the word weights is not modelled.
- RpcFraming.Worker.ServeStream: sockets, `select`, timeouts and failing reads are not modelled; a stream is any sequence of non-empty reads.
- RpcFraming.RpcResp.Put: which bytes a write accepts, and when it fails, is decided by an arbitrary sequence of outcomes; the flush that the destructor makes after a failed one is not modelled.
- RpcFraming.Worker.Execute: a stub is taken to fail when it cannot put a response, as those of the library's programs do.
- Lis.LongestIncreasing: indices are unbounded integers and the arrays are always allocated.
- Avl.AvlTree.Search: keys are integers, compared by difference in the source's callers; any total order would do.
- McsLock.Machine.Advance: steps are sequentially consistent; weaker memory orders, the exchange-only release, the K42 variant and the MCS trylock are not modelled.
- RwTicketLock.Machine.Advance: likewise sequentially consistent; each access to the 32-bit word is one step.
- Heap.Adjust: indices are unbounded; the event heap and the heap of tasks not yet visible appear in the engine as multisets from which some least element is taken.
- OpenHash.Table.Set: the load factor of 0.7 is the exact fraction 7/10, flags are an array of three-valued entries and not packed words, and memory is never exhausted.
- Engine.Engine.TakeVictims: running tasks with the same start time come in any order, where the source has that of its tree.
- FairSelect.Selector.Select: users are named by their position instead of by pointers.
- Reduce tasks, which mirror map tasks, and pools scheduled first-come first-served, whose order compares floating point times to within an epsilon.
- Locks for more than 256 threads (the LARGE_CPUSET widths) and the plain ticket lock.
- `tree_del`, `tree_max`, `tree_predecessor` and the splay variants without parent pointers.
- Bitmap printing, parsing, shifting, `bitmap_onto` and `bitmap_fold`.
- The client side of the RPC library, and everything that opens connections or starts threads.
- The stochastic job generator, metrics, logging, configuration and the applications.
- Ciphers, digests, hash mixing functions, benchmarks and the remaining containers of ulib.
