# Verified models of an operating-systems course repository

This project models the algorithmic core of a repository of solutions to operating-systems
exercises, and proves what those programs are for. Twelve components are covered:

| files | component |
|---|---|
| `Paging.dfy`, `PagingPolicies.dfy`, `PagingTheorems.dfy` | the page-replacement simulator (`22/paging-policy.py`): the simulation loop with FIFO, LRU, MRU, RAND, CLOCK, OPT and UNOPT; OPT is optimal, LRU has the stack property |
| `BTree.dfy`, `BTreeSearch.dfy`, `BTreeLabels.dfy`, `BTreeHeap.dfy` | the B-tree (`29/btree.c`): first as a value, then on mutable nodes with entry arrays, proved to compute the same |
| `MutexNoStarve.dfy`, `Barrier.dfy`, `RwLockNoStarve.dfy`, `Barbershop.dfy`, `BarbershopTheorems.dfy`, `BarbershopRuns.dfy`, `BarbershopOrder.dfy` (`Counting.dfy` counts threads) | four semaphore protocols of `31/`, each as a transition system over any number of threads and any schedule; a step is one statement, `Sem_wait` and `Sem_post` are atomic |
| `Lottery.dfy`, `ProcTable.dfy`, `ProcTableTheorems.dfy`, `KillTheorems.dfy`, `ProcLifeCycle.dfy`, `ProcOps.dfy` (`ProcTypes.dfy` has the table entries) | the xv6 lottery scheduler and the process table (`projects/scheduling-xv6-lottery/src/proc.c`) |
| `Pzip.dfy` | the parallel run-length compressor (`projects/concurrency-pzip/pzip.c`) |
| `Iappend.dfy` (`Disk.dfy` has blocks and words) | the file append of the repair tool (`projects/filesystems-check/xcheck_contest_3.c`) |
| `Xcheck.dfy` | the address phase of the file-system checker (`projects/filesystems-check/xcheck.c`) |
| `Crc.dfy`, `CrcLoops.dfy`, `CrcRemainder.dfy` | the CRC-16 dividers (`45/crc_orig.c`, `45/crc.c`), with the generator of section 2 of ITU-T Recommendation V.41 |

`dafny verify dfyconfig.toml` checks everything.

## How the code is modelled

- Where the source updates variables, arrays or tables step by step there is a method or a class
  with the same loops, proved against a function of the old values; the theorems are about those
  functions. `Simulator`, `Generator`, `Ptable`, `Image`, `Registers`, `Node` and `Tree` are such classes.
- Threads are transition systems. A run is any sequence of thread names (or, for the process
  table, of operations); scheduling something that is blocked changes nothing. Every theorem
  about runs holds for every such sequence.
- Random numbers are a parameter (`rand`), an arbitrary sequence of reals in [0, 1).
- Integers are unbounded except where the width matters: the generator wraps at 32 bits and keeps
  31, `data_start` is computed modulo 2^32, on-disk words are four bytes in little-endian order.

## Results about the code that its comments do not say

- The comment on `put` (`29/btree.c:289-293`) says that an existing key is overwritten. The code
  inserts a second pair: the tree holds one pair per key if and only if no key was put twice
  (`BTreeSearch.OnePairPerKeyIff`), and after a second put `search` can still find the first value
  (`BTreeSearch.NotOverwritten`). It finds the new value for certain exactly if the key was not there, or its
  leaf is full and the split cuts right in front of the new pair (`BTreeSearch.LatestFoundIff`).
- The relabelling of the root in `put` (`29/btree.c:308-309`) never changes anything: the label is already there
  (`BTreeLabels.RootAlreadyLabelled`). An inner node that absorbs the split of a leaf forgets `mod_parent`, so the
  slot-0 labels above it lag; `BTreeLabels.ModParentIff` and `BTreeLabels.FrontLabel` say exactly when.
- The leaf keys of the B-tree are sorted if and only if the empty key `""` is never put, or is the very
  first key put (`BTree.SortedIff`); the special case at `29/btree.c:387` is the reason.
- `pzip` fills all the slots it reserves exactly when no file size is a multiple of the page
  size (`Pzip.CutFiles`); otherwise the merge reads a slot that was never filled (`Pzip.CompressFiles`).
- A process that nobody killed can be born killed, because `killed` belongs to the slot and only `wait`
  clears it. It happens exactly if, since the slot was last reaped, a kill hit it while it was free, or hit an
  unfinished fork in it that was given up (`KillTheorems.BornKilledIff`); `KillTheorems.BornKilled` and
  `KillTheorems.BornKilledAfterGiveUp` are runs of the two kinds.
- The checker scans block 0 in place of a missing indirect block, so an image with two inodes
  without indirect block is accepted exactly if block 0 is blank and the addresses that do belong to
  its inodes are clean (`Xcheck.BlockZeroIff`); `Xcheck.CleanButRejected` is a clean image that is rejected.
- In the barbershop a barber can go on to the next customer before the last one has picked up the
  receipt. Customers that hold a chair or wait for a receipt fit the chairs in every run exactly if no more
  customers than chairs can be inside, or nobody can be served at all (`BarbershopRuns.ChairsSufficeIff`).
- The queues of the barbershop are FIFO, but an usher posts the semaphore after releasing the mutex, so
  customers are called in that order in every run only with one usher or one customer at a time, and to the
  chairs only with one barber, one seat on the sofa or one customer at a time
  (`BarbershopOrder.SofaCallOrderIff`, `BarbershopOrder.ChairCallOrderIff`).
- Appending to a file whose last, partly used block has no address keeps the old bytes exactly if the
  part of block 0 that stood in for it is blank (`Iappend.ReadBack`); `Iappend.HoleLosesByte` is a file that
  loses its byte.

## Model

| member | source | states |
|---|---|---|
| Paging.Simulate | 22/paging-policy.py:142-262 | the main loop computes `Replay` of the whole trace: for every policy, cache size, clock bits and random sequence the hit and miss counts and the memory list are those of the specification, hits and misses add up to the trace length, and the list holds distinct pages, at most as many as the cache |
| Paging.Simulator.Reference | 22/paging-policy.py:142-266 | one turn of the loop changes the script's variables exactly as `Access` says and keeps them consistent: `count` is the list length and at most the cache size, pages are distinct, resident pages have a reference count |
| Paging.Simulator.Hit | 22/paging-policy.py:145-150 | a hit counts once, and moves the page to the end for LRU and MRU only |
| Paging.Simulator.Miss | 22/paging-policy.py:151-254 | a miss counts once, evicts the policy's victim if the cache is full, and appends the page |
| Paging.OptVictim | 22/paging-policy.py:201-224 | the slot chosen holds a page whose next reference is farthest, the last such slot on a tie |
| Paging.UnoptVictim | 22/paging-policy.py:226-247 | the slot chosen holds a page whose next reference is nearest, the first such slot on a tie |
| Paging.ClockVictim | 22/paging-policy.py:175-194 | the random scan ends whatever the generator delivers, within one draw more than there are second chances left |
| Paging.WhenReferenced | 22/paging-policy.py:210-216 | the inner loop finds the first later reference, or the trace length |
| Paging.FarthestIsFarthest | 22/paging-policy.py:207-222 | no resident page is referenced later than the one OPT chooses |
| Paging.NearestIsNearest | 22/paging-policy.py:230-246 | no resident page is referenced sooner than the one UNOPT chooses |
| PagingPolicies.FifoWindow | 22/paging-policy.py:145-162 | after every prefix of every trace FIFO holds the last pages of the sequence of pages that missed, in order of loading, and that sequence is as long as the miss count |
| PagingPolicies.RecencyOrder | 22/paging-policy.py:148-164 | after every prefix the lists of LRU and MRU are in the order of last reference |
| PagingPolicies.LruEvictsOldest | 22/paging-policy.py:161-162 | LRU throws out the page whose last reference is oldest |
| PagingPolicies.MruEvictsLatest | 22/paging-policy.py:163-164 | MRU throws out the page referenced last before the miss |
| PagingPolicies.OptEvictsFarthest | 22/paging-policy.py:201-224 | no resident page is referenced later than the one OPT throws out |
| PagingPolicies.UnoptEvictsNearest | 22/paging-policy.py:226-247 | no resident page is referenced sooner than the one UNOPT throws out |
| PagingPolicies.RandEvicts | 22/paging-policy.py:165-166 | RAND uses one draw per eviction and throws out the page in slot k exactly if the draw times the cache size lies in [k, k + 1) |
| PagingPolicies.ClockTakesChances | 22/paging-policy.py:175-189 | every draw of a CLOCK scan but the last takes one second chance from the page it falls on, and the last falls on the victim, which has none left |
| PagingPolicies.ClockCountsResident | 22/paging-policy.py:194-266 | under CLOCK exactly the resident pages have a reference count |
| PagingPolicies.RefCounts | 22/paging-policy.py:260-266 | under the other policies a page's count is its number of references so far, capped by the clock bits |
| PagingTheorems.OptIsOptimal | 22/paging-policy.py:142-254 | on every trace and at every point of it, OPT has missed at most as often as any run whatsoever that loads the page referenced and keeps any part of the rest |
| PagingTheorems.OptBeatsEveryPolicy | 22/paging-policy.py:159-247 | in particular at most as often as every policy of the script with any random draws |
| PagingTheorems.HorizonKept | 22/paging-policy.py:201-224 | the invariant behind it: for every horizon t, OPT's misses plus its shortage of pages needed by t never exceed the rival's misses |
| PagingTheorems.PolicyIsDemandRun | 22/paging-policy.py:142-254 | every policy of the script is such a run |
| PagingTheorems.PolicyMisses | 22/paging-policy.py:145-153 | the miss counter of a run is the number of references to absent pages |
| PagingTheorems.LruInclusion | 22/paging-policy.py:145-162 | after every prefix of every trace the list of a smaller LRU cache is a suffix of that of a larger one |
| PagingTheorems.LruNoAnomaly | 22/paging-policy.py:145-162 | every LRU hit is also a hit in a larger cache, so the hit count never falls as the cache grows |
| BTree.InsertContent | 29/btree.c:363-470 | an insertion at any depth, with any splits, adds exactly its pair at the position `Pos` and keeps all others in order |
| BTree.InsertWellInserted | 29/btree.c:363-484 | it keeps all leaves at the same depth, node sizes from M/2 to M-1, and every label from slot 1 on equal to the first key below it |
| BTreeLabels.ModParentIff | 29/btree.c:384-468 | `mod_parent` is reported if and only if the key becomes the first of the subtree and the node is the leaf itself or the leaf is not split |
| BTreeLabels.BecomesFirstIff | 29/btree.c:384-405 | in a sorted tree a key becomes first if and only if it is not empty and below the first key |
| BTreeLabels.FrontLabel | 29/btree.c:418-420 | the slot-0 label of an inner node becomes the key if and only if the key becomes first and its child is the leaf or that leaf is not split; otherwise it stays |
| BTreeLabels.RootLabelAfterPut | 29/btree.c:294-361 | the root's slot-0 label after a put, root split included |
| BTreeLabels.RootLabelFromLeaf | 29/btree.c:294-361 | a tree that was one leaf has its first key in slot 0 of the root after a put, split or not |
| BTreeLabels.RootAlreadyLabelled | 29/btree.c:308-310 | the relabelling of the root in `put` changes nothing |
| BTreeLabels.FirstSplit | 29/btree.c:335-359 | the root is split for the first time by the fourth put |
| BTree.PosSeparates | 29/btree.c:384-405 | in a sorted tree the position found separates the keys not above the new one from those above it |
| BTree.PutAdds | 29/btree.c:294-361 | one put keeps the tree valid, also when the root splits, and adds exactly the new pair |
| BTree.PutsHold | 29/btree.c:294-361 | after any sequence of puts the leaf pairs are, as a multiset, the pairs put, `n` is their number, and balance, sizes and labels hold |
| BTree.SortedIff | 29/btree.c:384-394 | after any sequence of puts the leaf keys are sorted if and only if no empty key was put, or the first key put was empty |
| BTreeSearch.SearchFinds | 29/btree.c:196-223 | in a sorted tree `search` finds a key if and only if the tree holds it, and returns a value held under it |
| BTreeSearch.SearchAfterPuts | 29/btree.c:196-361 | after any puts that leave the leaves sorted, `search` finds a key if and only if it was put, with a value put under it; if no key was put twice, with its only value |
| BTreeSearch.OnePairPerKeyIff | 29/btree.c:289-361 | the tree holds one pair per key if and only if no key was put twice |
| BTreeSearch.NotOverwritten | 29/btree.c:289-361 | two puts of one key after which `search` finds the first value |
| BTreeSearch.SearchReturns | 29/btree.c:196-223 | in a sorted tree with repeated keys `search` returns the value of the first pair with the key in the last leaf that holds it |
| BTreeSearch.InsertLeaves | 29/btree.c:363-484 | an insertion replaces the leaf the key is routed to by one or two leaves and leaves every other leaf as it was |
| BTreeSearch.LatestFoundIff | 29/btree.c:289-361 | after any puts that leave the leaves sorted, a further put is found by `search`, whatever its value, if and only if the key was not put before, or its leaf is full and the split cuts right in front of the new pair |
| BTreeHeap.Node.InsertEntry | 29/btree.c:457-461 | the shifting loop inserts the entry at slot j of the array |
| BTreeHeap.ScanKeys | 29/btree.c:391-405 | the scan stops at the first slot whose key is above the given one |
| BTreeHeap.SplitInner | 29/btree.c:473-484 | `split` moves the upper half of the entries into a new node; afterwards the two nodes share no object |
| BTreeHeap.SplitLeaf | 29/btree.c:473-484 | the same for a leaf |
| BTreeHeap.Insert | 29/btree.c:363-470 | the recursive insertion on mutable nodes returns and leaves behind exactly what the value model computes, touches only nodes of the subtree, and keeps all nodes separate |
| BTreeHeap.Tree.Put | 29/btree.c:294-361 | `put` turns the tree into `BTree.Put` of the old tree, with a null key doing nothing |
| BTreeHeap.Tree.constructor | 29/btree.c:161-170 | a new tree is empty and valid |
| BTreeHeap.Search | 29/btree.c:196-223 | `search` on mutable nodes returns what the value model finds |
| MutexNoStarve.Reachable | 31/mutex-nostarve.c:24-59 | in every run the rooms are counted exactly and one baton is conserved: t1 + t2 + threads that move it = 1 |
| MutexNoStarve.MutualExclusion | 31/mutex-nostarve.c:32-59 | in every run at most one thread is in the critical section |
| MutexNoStarve.Progress | 31/mutex-nostarve.c:32-59 | in every run, if a thread is inside the code, one that is inside can step |
| MutexNoStarve.BoundedBypass | 31/mutex-nostarve.c:32-59 | between a thread's `room1++` and its entry every other thread enters at most twice |
| MutexNoStarve.NoStarvation | 31/mutex-nostarve.c:32-59 | in every schedule, fair or not, at most 41 steps per thread are taken between a thread's `room1++` and its entry |
| MutexNoStarve.CanEnter | 31/mutex-nostarve.c:32-59 | every run can be continued so that a given thread is in the critical section |
| Barrier.Reachable | 31/barrier.c:28-109 | in every run the open turnstile holds one token for each thread still behind, and `num_arrived` counts up to n and down to 0 in turn |
| Barrier.AllArrivedFirst | 31/barrier.c:55-83 | no thread passes the critical point of a round before all have arrived in that round |
| Barrier.AtMostOneRoundAhead | 31/barrier.c:85-109 | no thread leaves a round before all have passed its critical point; nobody is more than one round ahead |
| Barrier.Progress | 31/barrier.c:42-109 | some thread can always step |
| Barrier.NoStarvation | 31/barrier.c:42-109 | in every schedule, fair or not, the threads together take at most 3 n (n + 6) steps while one of them does not get through its next turnstile |
| Barrier.CanPass | 31/barrier.c:42-109 | every run can be continued so that a given thread gets through its next turnstile |
| RwLockNoStarve.Reachable | 31/reader-writer-nostarve.c:21-62 | in every run `writelock` is free, held by one writer, or held by the readers as a group, and `readers` counts exactly |
| RwLockNoStarve.WriterExcludesAll | 31/reader-writer-nostarve.c:28-62 | a writer in the critical section excludes every other reader and writer |
| RwLockNoStarve.Progress | 31/reader-writer-nostarve.c:28-62 | no deadlock while a thread is inside the lock's code |
| RwLockNoStarve.WriterOvertakenAtMostOnce | 31/reader-writer-nostarve.c:33-57 | while a writer holds `readlock` and waits, no other writer enters and a reader enters at most once, and only if it was past the gate |
| RwLockNoStarve.WriterNotStarved | 31/reader-writer-nostarve.c:33-57 | in every schedule, fair or not, at most 10 steps per thread are taken while a writer holds `readlock` and waits |
| RwLockNoStarve.AllReadersCanEnter | 31/reader-writer-nostarve.c:28-48 | every run can be continued so that all readers are in the critical section together |
| RwLockNoStarve.WriterCanEnter | 31/reader-writer-nostarve.c:50-62 | every run can be continued so that a given writer is in the critical section |
| BarbershopTheorems.Capacity | 31/Hilzers_barbershop.c:149-188 | in every run `customer_num` is the number of customers admitted and not yet left, at most `max_capacity` |
| BarbershopTheorems.SeatsSuffice | 31/Hilzers_barbershop.c:101-205 | sofa occupants never exceed the ushers, chair occupants never exceed the barbers; customers in a chair or waiting for a receipt are exactly the barbers at work plus the receipts posted |
| BarbershopRuns.ChairsExceeded | 31/Hilzers_barbershop.c:101-189 | in every shop with more customers and capacity than chairs there is a run with one customer more in the chairs or waiting for a receipt than chairs |
| BarbershopRuns.ChairsSufficeIff | 31/Hilzers_barbershop.c:101-205 | customers in a chair or waiting for a receipt never exceed the chairs if and only if customers or capacity do not exceed the chairs, or there is no barber or no usher |
| BarbershopTheorems.NeverPoppedEmpty | 31/Hilzers_barbershop.c:105-199 | no usher or barber takes from an empty queue |
| BarbershopTheorems.ServedInOrder | 31/Hilzers_barbershop.c:159-205 | both queues are emptied in the order of arrival and lose nobody |
| BarbershopRuns.JoinsOnce | 31/Hilzers_barbershop.c:159-175 | every customer joins each queue once: it is in the queue's history exactly if it is past the insertion |
| BarbershopOrder.SofaCallOrderIff | 31/Hilzers_barbershop.c:195-200 | customers are called to the sofa in the order of service in every run if and only if there is at most one usher, one customer or a capacity of one |
| BarbershopOrder.ChairCallOrderIff | 31/Hilzers_barbershop.c:105-110 | customers are called to the chairs in the order of service in every run if and only if there is at most one barber, one sofa seat, one customer or a capacity of one |
| BarbershopTheorems.Progress | 31/Hilzers_barbershop.c:101-205 | with at least one barber and one usher, some thread can step as long as a customer is unfinished |
| BarbershopRuns.EveryRunEnds | 31/Hilzers_barbershop.c:101-205 | in every schedule at most 35 statements per customer are executed, however many barbers and ushers there are |
| BarbershopRuns.AllFinished | 31/Hilzers_barbershop.c:101-205 | when no thread can step any more, every customer has been served or turned away |
| BarbershopRuns.CanFinish | 31/Hilzers_barbershop.c:101-205 | every run can be continued until every customer has been served or turned away |
| BarbershopRuns.NobodyTurnedAway | 31/Hilzers_barbershop.c:149-157 | in a shop with room for all its customers nobody is ever turned away |
| BarbershopRuns.TurnsAwayIff | 31/Hilzers_barbershop.c:149-157 | some run turns a customer away if and only if there are more customers than `max_capacity` |
| BarbershopRuns.AllServed | 31/Hilzers_barbershop.c:101-205 | with a barber, an usher and room for all, every customer has been served when no thread can step any more |
| BarbershopTheorems.Reachable | 31/Hilzers_barbershop.c:101-205 | every step keeps the conservation laws: each waiting customer is in its queue once, held by one usher or barber, or already called; every seat and payment has one usher or barber behind it |
| Lottery.FullPeriod | projects/scheduling-xv6-lottery/src/proc.c:319-330 | the generator returns to its state after n draws if and only if 2^31 divides n |
| Lottery.DrawsDiffer | projects/scheduling-xv6-lottery/src/proc.c:324-330 | no value is repeated within 2^31 draws |
| Lottery.FirstDraws | projects/scheduling-xv6-lottery/src/proc.c:319-330 | the first two values drawn from the initial state |
| Lottery.FewRejections | projects/scheduling-xv6-lottery/src/proc.c:336-353 | from every state at most `defect` draws in a row are rejected |
| Lottery.Generator.Random | projects/scheduling-xv6-lottery/src/proc.c:324-330 | product and sum wrapped at 32 bits and masked to 31 give the recurrence modulo 2^31 that the comment promises |
| Lottery.Generator.GetWinner | projects/scheduling-xv6-lottery/src/proc.c:336-355 | the do-while loop ends within defect + 1 draws, on the first accepted value, and the winner lies in [0, totaltickets] |
| Lottery.WinsOnItsTickets | projects/scheduling-xv6-lottery/src/proc.c:389-395 | a process is dispatched first exactly for the winners between the tickets before it and its own last one |
| Lottery.ProportionalShare | projects/scheduling-xv6-lottery/src/proc.c:379-404 | exactly tickets(p) * bin_size raw values dispatch p first |
| Lottery.NobodysShare | projects/scheduling-xv6-lottery/src/proc.c:379-404 | exactly bin_size accepted raw values dispatch nobody |
| Lottery.EveryValueOnce | projects/scheduling-xv6-lottery/src/proc.c:319-330 | 2^31 consecutive draws deliver every value once |
| Lottery.ShareOfAPeriod | projects/scheduling-xv6-lottery/src/proc.c:324-404 | among any 2^31 consecutive draws exactly tickets(p) * bin_size dispatch p first |
| Lottery.Schedule | projects/scheduling-xv6-lottery/src/proc.c:379-404 | the two scans of a pass dispatch the process whose raw values contain the value drawn |
| ProcTableTheorems.Reachable | projects/scheduling-xv6-lottery/src/proc.c:75-317 | every interleaving of the operations, fork being split into its unlocked parts, keeps the invariant on pids, parents, unfinished forks and sleepers |
| ProcTableTheorems.DistinctPids | projects/scheduling-xv6-lottery/src/proc.c:82-92 | in every run slots in use have distinct pids |
| ProcTableTheorems.NoOrphans | projects/scheduling-xv6-lottery/src/proc.c:183-273 | in every run a parent is never unused, an embryo or a zombie; every forked process but initproc has one; initproc stays alive |
| ProcTableTheorems.OneTree | projects/scheduling-xv6-lottery/src/proc.c:183-273 | in every run every forked process descends from initproc |
| ProcTableTheorems.NoLostWakeup | projects/scheduling-xv6-lottery/src/proc.c:255-317 | in every run a process asleep in `wait` has a child, no zombie child, and was not killed |
| ProcTableTheorems.ExitKept | projects/scheduling-xv6-lottery/src/proc.c:255-271 | exit keeps the invariant: it wakes its parent, and initproc if initproc inherits a zombie |
| ProcTableTheorems.KillHits | projects/scheduling-xv6-lottery/src/proc.c:543-560 | in every run kill with the pid of a slot in use marks that process alone and wakes it if it sleeps |
| ProcLifeCycle.WaitAnswers | projects/scheduling-xv6-lottery/src/proc.c:284-316 | in every run `wait` returns the pid of a dead child, frees exactly that slot, returns -1 if and only if there is no dead child and no child at all or the caller was killed, and otherwise sleeps on itself |
| ProcLifeCycle.StateStep | projects/scheduling-xv6-lottery/src/proc.c:75-560 | for every operation and every slot, exactly what the slot's state becomes |
| ProcLifeCycle.FieldStep | projects/scheduling-xv6-lottery/src/proc.c:75-560 | for every operation and every slot, exactly what parent, pid and channel become |
| ProcLifeCycle.TicketStep | projects/scheduling-xv6-lottery/src/proc.c:90-206 | tickets change only by allocation, by inheritance in fork, and by the process's own settickets |
| ProcLifeCycle.ForkMakesChild | projects/scheduling-xv6-lottery/src/proc.c:183-227 | the steps of a fork without interference make one new process with a fresh pid, the caller as parent and the caller's tickets |
| KillTheorems.FlagStep | projects/scheduling-xv6-lottery/src/proc.c:75-560 | an operation leaves a slot marked if and only if it is a kill that hits it, or the slot was marked and the operation does not reap it |
| KillTheorems.KillMarksFree | projects/scheduling-xv6-lottery/src/proc.c:547-556 | kill hits a free slot if and only if a free slot carries the pid |
| KillTheorems.FreeAndMarkedStep | projects/scheduling-xv6-lottery/src/proc.c:75-560 | after an operation a slot is free and marked if and only if it was and is not allocated, a kill hit it while free, or it held a killed fork that is given up |
| KillTheorems.KilledIff | projects/scheduling-xv6-lottery/src/proc.c:75-560 | in every run a slot is marked if and only if a kill hit it since it was last reaped |
| KillTheorems.KilledExactlyIf | projects/scheduling-xv6-lottery/src/proc.c:75-560 | in every run a process is killed if and only if, since its slot was last reaped, a kill hit the slot while free, an unfinished fork in it that was given up, or the process itself |
| KillTheorems.BornKilledIff | projects/scheduling-xv6-lottery/src/proc.c:75-560 | a process that no kill hit is marked if and only if its slot was hit while free, or in a fork that was given up |
| KillTheorems.BornKilled | projects/scheduling-xv6-lottery/src/proc.c:543-556 | a run in which initproc kills pid 0 and its next child is born killed |
| KillTheorems.BornKilledAfterGiveUp | projects/scheduling-xv6-lottery/src/proc.c:183-227 | a run in which a fork is killed, runs out of memory, and the next child is born killed |
| ProcTableTheorems.SetTicketsHits | projects/scheduling-xv6-lottery/src/proc.c:601-616 | in every run settickets changes the calling process alone |
| ProcTableTheorems.TicketsNotNegative | projects/scheduling-xv6-lottery/src/proc.c:92-206 | in every run no slot has negative tickets, which the lottery requires |
| ProcOps.Ptable.AllocProc | projects/scheduling-xv6-lottery/src/proc.c:80-94 | the first unused slot becomes an embryo with the next pid and one ticket; with none free nothing changes |
| ProcOps.Ptable.Fork | projects/scheduling-xv6-lottery/src/proc.c:183-227 | a fork without interference: the child's slot, pid, parent and inherited tickets, and what a failed allocation leaves behind |
| ProcOps.Ptable.Wakeup1 | projects/scheduling-xv6-lottery/src/proc.c:521-528 | exactly the processes asleep on the channel become runnable |
| ProcOps.Ptable.Exit | projects/scheduling-xv6-lottery/src/proc.c:239-270 | the loops of exit compute `Exited`; initproc panics and changes nothing |
| ProcOps.Ptable.Abandon | projects/scheduling-xv6-lottery/src/proc.c:261-267 | all children pass to initproc, which is woken if and only if one of them is a zombie |
| ProcOps.Ptable.ScanKids | projects/scheduling-xv6-lottery/src/proc.c:287-306 | the scan finds the first zombie child, or else whether there is a child at all |
| ProcOps.Ptable.WaitRound | projects/scheduling-xv6-lottery/src/proc.c:284-316 | one round of wait reaps the first zombie child, gives up, or goes to sleep on itself |
| ProcOps.Ptable.Kill | projects/scheduling-xv6-lottery/src/proc.c:543-560 | the scan marks the first slot with the pid, returns 0 if there is one and -1 otherwise |
| ProcOps.Ptable.SetTickets | projects/scheduling-xv6-lottery/src/proc.c:601-616 | the scan sets the tickets of the first slot with the caller's pid |
| Pzip.EncodingUnique | projects/concurrency-pzip/pzip.c:94-136 | a text has only one run-length encoding with maximal runs |
| Pzip.Compress | projects/concurrency-pzip/pzip.c:94-136 | the results of a non-empty chunk are its run-length encoding, NUL bytes included |
| Pzip.MergeChunk | projects/concurrency-pzip/pzip.c:317-385 | one chunk's results are joined to what was written and held back, fusing the runs that meet |
| Pzip.Merge | projects/concurrency-pzip/pzip.c:306-388 | the output is the run-length encoding of all chunks together, however runs span chunks |
| Pzip.CutFile | projects/concurrency-pzip/pzip.c:232-252 | the job loop cuts a file into non-empty pages that together are the file |
| Pzip.CutFiles | projects/concurrency-pzip/pzip.c:196-252 | the filled slots number at most the reserved ones, and as many if and only if no file size is a multiple of the page size |
| Pzip.CompressFiles | projects/concurrency-pzip/pzip.c:196-388 | the program writes the encoding of the concatenated files, except that its merge reads a slot that was never filled if and only if some file size is a multiple of the page size |
| Iappend.ReadBack | projects/filesystems-check/xcheck_contest_3.c:177-222 | the file read back through its addresses is the old file followed by the new bytes if and only if nothing is written, or the partly used last block has an address, or the bytes of block 0 read in its place are zero |
| Iappend.HoleLosesByte | projects/filesystems-check/xcheck_contest_3.c:177-222 | a file within all assumptions whose only byte is lost by an append |
| Iappend.AppendOk | projects/filesystems-check/xcheck_contest_3.c:189-219 | all addresses stay distinct, set ones stay as they were, and the allocation cursor moves by exactly the number of blocks that were missing |
| Iappend.OthersUntouched | projects/filesystems-check/xcheck_contest_3.c:189-219 | every block neither owned before nor handed out keeps its contents |
| Iappend.RoundReads | projects/filesystems-check/xcheck_contest_3.c:190-218 | one round writes its chunk at the offset and changes no earlier byte, except that a partly used block without an address becomes blank |
| Iappend.ApartIffNextUnowned | projects/filesystems-check/xcheck_contest_3.c:192-206 | wherever the cursor points, handing out its block as data block keeps the file's addresses distinct if and only if the file does not own that block |
| Iappend.ApartIffNextUnownedIndirect | projects/filesystems-check/xcheck_contest_3.c:198-200 | the same for a block without entries that is handed out as indirect block |
| Iappend.SetWordReads | projects/filesystems-check/xcheck_contest_3.c:201-207 | writing one word of the indirect block changes that entry alone |
| Iappend.XintIsIdentity | projects/filesystems-check/xcheck_contest_3.c:148-158 | `xint` is the identity on a little-endian machine |
| Iappend.Image.LocateBlock | projects/filesystems-check/xcheck_contest_3.c:190-208 | the branches give data block fbn an address, allocating it and the indirect block as needed |
| Iappend.IndirectFirst | projects/filesystems-check/xcheck_contest_3.c:198-206 | if both are missing, the indirect block gets the next block and the data block the one after |
| Iappend.LowByteFirst | projects/filesystems-check/xcheck_contest_3.c:148-158 | the first byte of a word counts least |
| Iappend.Image.WriteAt | projects/filesystems-check/xcheck_contest_3.c:210-215 | read, copy and write back change the given range of one block |
| Iappend.Image.AppendTo | projects/filesystems-check/xcheck_contest_3.c:177-222 | the loop computes `Append` on the image, the inode and the cursor, and changes no other inode; the assertion on MAXFILE holds in every round |
| Xcheck.PassedIff | projects/filesystems-check/xcheck.c:69-119 | the checks pass if and only if all kinds are legal and all addresses but 0 are in range, set in the bitmap, new and pairwise different; then exactly the visited ones are marked |
| Xcheck.ExitExplained | projects/filesystems-check/xcheck.c:69-119 | every exit is explained by the first failing check: each of the six errors by its own condition on the kind or address |
| Xcheck.OwnedOnce | projects/filesystems-check/xcheck.c:174-212 | on an accepted image every address of every inode in use lies in the data region, is set in the bitmap and marked, and differs from every other address of this and all other inodes |
| Xcheck.AcceptsIff | projects/filesystems-check/xcheck.c:174-212 | the image is accepted if and only if all kinds are legal and all addresses of inodes in use that are not 0 are in range, set in the bitmap and pairwise different; then exactly those are marked |
| Xcheck.BlockZeroIff | projects/filesystems-check/xcheck.c:193-209 | with two inodes in use that have no indirect block, the image is accepted if and only if block 0 is blank and the addresses that belong to its inodes are clean |
| Xcheck.CleanButRejected | projects/filesystems-check/xcheck.c:193-209 | an image with two empty files and nothing wrong with their addresses that is rejected |
| Xcheck.CheckAddress | projects/filesystems-check/xcheck.c:76-119 | the bit operations report the right error or mark exactly the address |
| Xcheck.CheckInode | projects/filesystems-check/xcheck.c:179-212 | the checks of one inode: kind, direct addresses, indirect pointer, indirect block |
| Xcheck.CheckImage | projects/filesystems-check/xcheck.c:153-212 | the loop passes if and only if all kinds are 0 to 3 and every nonzero address of an inode in use is one of the last nblocks of the 1000 blocks, set in the bitmap, and occurs once; the mark bitmap then holds exactly the addresses visited |
| Crc.GoodLinear | 45/crc_orig.c:73-114 | the good update is linear in register and message |
| Crc.FormsAgree | 45/crc_orig.c:73-170 | for every register c and message m, augmenting good(c, m) is bad(augment(c), m) |
| Crc.BurstDetected | 45/crc.c:57-93 | messages that differ only within a window of at most 16 bits have different CRCs |
| Crc.OddErrorDetected | 45/crc.c:57-93 | messages that differ in an odd number of bits have different CRCs |
| Crc.WideIsGood | 45/crc.c:16-26 | the build with the 17-bit polynomial holds the same register value after every message |
| CrcRemainder.CrcIsRemainder | 45/crc_orig.c:45-56 | the CRC is the one remainder of sixteen ones, the message and sixteen zeros divided by x^16 + x^12 + x^5 + 1 |
| CrcRemainder.MessageBitsAreLowByte | 45/crc_orig.c:77-94 | the message bits of a character are the binary digits of its low byte |
| CrcLoops.Registers.UpdateGood | 45/crc_orig.c:73-114 | the loop over a character's bits is the good update by those bits |
| CrcLoops.Registers.AugmentGood | 45/crc_orig.c:116-137 | sixteen zero bits |
| CrcLoops.Registers.UpdateBad | 45/crc_orig.c:139-170 | the loop over a character's bits is the bad update by those bits |
| CrcLoops.Go | 45/crc_orig.c:45-56 | both registers of a text, and the good one as a bad one from another start |
| CrcLoops.WideCrc | 45/crc.c:32-93 | the 17-bit build returns the 16-bit CRC with sixteen zero bits above it |

## Left out

- Printing, argument parsing, plotting, benchmarks and all input and output around the components.
- The simulator's address generation and the sentinel -1: pages are any integers, the cache size is at least 1, and the victim is a slot, so a page numbered -1 needs no special case.
- Memory exhaustion, `free` and the lock of the B-tree; values are strings, and the null key is an absent one. M is 4, as in the source.
- BTreeHeap.Search: compares keys as values; the source compares pointers at `29/btree.c:204`.
- Lottery.Schedule: stops at the first dispatch; the source goes on scanning after the dispatched process comes back, over a table that may have changed.
- Lottery.ProportionalShare: tickets are not negative and their total is below 2^31; `settickets` and fork keep the first (`ProcTableTheorems.TicketsNotNegative`), nothing in the source keeps the second.
- ProcTableTheorems.Reachable: `nextpid` is unbounded; the source's `int` overflows after 2^31 - 1 forks. Page tables, trap frames, files and the user-space exit of killed processes are not modelled.
- ProcOps.Ptable.Fork: nobody else runs in between; the interleaved fork is the sequence of steps Alloc, GetStack, Copy, Release of `ProcTable.Step`.
- Pzip.CompressFiles: runs are a list of counts and characters, not their decimal text; counts are unbounded, and the worker threads and their semaphores are not modelled: every filled chunk is compressed before the merge.
- Iappend.ReadBack: assumes, like every append theorem here, that the allocation cursor is past every block the file owns, that fresh blocks are zero, and that there is room in the image and below MAXFILE blocks. In the tool the cursor is the address that was visited last (`projects/filesystems-check/xcheck_contest_3.c:122`), not one past it, so its own caller hands out a block that some inode owns; `Iappend.ApartIffNextUnowned` says when that goes wrong for the file itself.
- Iappend.AppendOk: the same assumptions.
- Iappend.OthersUntouched: the same assumptions; with the tool's own cursor the first block handed out is one that some inode owns, this file or another.
- Iappend.RoundReads: the same assumptions.
- Iappend.Image.LocateBlock: the same assumptions.
- Iappend.Image.AppendTo: the same assumptions, and the inode table is kept apart from the image blocks, as it is for every inode whose addresses lie outside the inode region.
- Xcheck.CheckImage: the directory checks that share the inode loop, and the comparison of the two bitmaps after it, are not modelled.
- CRC registers are bit sequences with the top bit first rather than machine words; a message is the bits of its characters.
- Semaphores are natural numbers and start at the values passed at initialisation; `Sem_open` retries, thread creation and cancellation are not modelled.
- The barbershop's use of an entry after its owner may have freed it (`31/Hilzers_barbershop.c:111`, `31/Hilzers_barbershop.c:201`) is not modelled; the `DEBUG_POST` branch of the barrier is not modelled.
- Fairness: no schedule is assumed fair; for a reader that waits at the gate of the reader/writer lock only progress is proved, not a bound.
- `29/concurrent_queue.c`, `29/approximate_counter.c`, the other programs of `31/`, the web server and the utilities: they would only add simpler cases.
