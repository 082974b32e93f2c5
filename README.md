# Sequential model of the CSE305 concurrency exercises

The repository is a set of C++ concurrency exercises:

- thread-safe sorted linked-list sets: a lazy list with marks, a multiset list with multiplicity counters, an insert-only lock-free list and an atomic (reference, mark) cell;
- a capacity-bounded set and a transform over the lazy list;
- a sorted vector, a blocking queue and a wait-until-even step;
- bank accounts with ordered locking, and a capped occurrence count;
- a parallel count of the minimum;
- parallel maximum and prefix-maximum passes over arrays.

This project models what each operation does when one thread runs it: the state it changes, the value it returns and the cases in which it would wait. The threads of each parallel routine run one after the other, block by block. Each retry loop of the list sets runs once, because validation after a traversal and the compare-and-swap always succeed when no other thread writes.

Module layout:

| module | file | models |
|---|---|---|
| `Sequences` | `sequences.dfy` | helpers only: insert and delete at a position |
| `Keys` | `keys.dfy` | sentinel keys, the hash as a parameter, and facts about increasing key sequences |
| `SetLists` | `set_list.dfy` | the lazy `SetList` (td8) |
| `MultiSetLists` | `multi_set_list.dfy` | `MultiSetList` (td8) |
| `LockFreeSets` | `lock_free_set.dfy` | `MonotonicLockFreeSet` (td8) |
| `MarkableReferences` | `markable_reference.dfy` | `AtomicMarkableReference` (td8) |
| `BoundedSets` | `bounded_set.dfy` | `BoundedSetList` (td7) |
| `SetListTransforms` | `set_list_trans.dfy` | `SetListTrans::transform` (td7) |
| `Containers` | `containers.dfy` | `OrderedVec`, `DivideOnceEven`, `SafeUnboundedQueue` (td6) |
| `MachineInts`, `Blocks` | `machine_ints.dfy`, `blocks.dfy` | 32-bit wrap-around, the block partition used by the parallel loops, and occurrence counts |
| `Occurrences`, `Accounts` | `occurrences.dfy`, `accounts.dfy` | `FindThread`/`FindParallel` and `Account` (td3) |
| `CountMins` | `count_mins.dfy` | `FindCountMins`/`CountMinsParallel` (td1) |
| `Maxima` | `maxima.dfy` | `MaxParallel`, `PartialMaxSeq`, `MaxOffset`, `PrefixMaximums` (td2) |

How the lists are modelled:

- Each list is a class over heap nodes. Ghost sequences of its nodes, keys (and multiplicities) are tied to the `next` links by `Valid()`.
- The contents are the keys strictly between the head sentinel (key 0) and the tail sentinel (key `ULONG_MAX`).
- `std::hash<std::string>` is a parameter `Hasher` of each list: any function whose values lie strictly between the two sentinel keys. Items with equal hashes count as the same element, as in the source.

How the other types are modelled:

- `unsigned int` balances, ids and counters wrap modulo 2^32 explicitly.
- `int` values of td1 are the newtype `i32`.
- The `double` values of td2 are integers, with `DBL_MAX` the largest finite double.

The base `SetList` that td7 extends lives in a `SetList.cpp` that is not part of this model. Its role is taken by the td8 lazy list. Its `search` is given the contract td7.cpp:73-75 relies on: it returns `pred` and `curr == pred.next` with `pred.key < hash(val) <= curr.key`.

## Model

| member | source | states |
|---|---|---|
| `Keys.Locate` | CSE305-td8-1-handin/td8.cpp:62-69 | where the traversal stops (`keys[i] < k <= keys[i+1]`), k is an element exactly when it is the key of curr, and then curr is not a sentinel |
| `Keys.InsertBracketed` | CSE305-td8-1-handin/td8.cpp:72 | linking a key strictly between pred's and curr's keys keeps the sequence head sentinel, strictly increasing keys, tail sentinel |
| `Keys.InsertElements` | CSE305-td8-1-handin/td8.cpp:72 | linking a new key after position i adds exactly that key to the elements |
| `Keys.DeleteBracketed` | CSE305-td8-1-handin/td8.cpp:92 | unlinking a non-sentinel cell keeps the sentinels and strict order |
| `Keys.DeleteElements` | CSE305-td8-1-handin/td8.cpp:92 | unlinking position i removes exactly its key from the elements |
| `Keys.DeleteDrops` | CSE305-td8-1-handin/td8.cpp:92 | after unlinking position i, every element was present before and differs from the removed key |
| `Keys.DeleteKeeps` | CSE305-td8-1-handin/td8.cpp:92 | every other element survives the unlink |
| `Keys.ElementsSize` | CSE305-td7-1-handin/td7.cpp:66 | a list with n cells holds n - 2 distinct elements, so counting cells counts elements |
| `SetLists.Node.constructor` | CSE305-td8-1-handin/td8.cpp:19-24 | a new node holds s under key hash(s), with the given successor, unmarked |
| `SetLists.Node.Sentinel` | CSE305-td8-1-handin/td8.cpp:25-30 | a sentinel has the empty item, the given key, no successor and no mark |
| `SetLists.ItemsOf` | CSE305-td7-1-handin/td7.cpp:34-35 | the items of a list are the items of its cells between the sentinels, in list order |
| `SetLists.ItemsOfDeleteFirst` | CSE305-td7-1-handin/td7.cpp:35-39 | unlinking the first cell after the head takes its item off the front of the item sequence |
| `SetLists.SetList.constructor` | CSE305-td8-1-handin/td8.cpp:40-43 | a new list is head (key 0) linked to tail (key `ULONG_MAX`) and holds nothing |
| `SetLists.SetList.ValidateIffAdjacent` | CSE305-td8-1-handin/td8.cpp:53-55 | `validate(pred, curr)` (neither cell marked and `pred.next == curr`) holds for two cells of a valid list exactly when curr is pred's successor, since no linked cell is marked |
| `SetLists.SetList.Search` | CSE305-td8-1-handin/td8.cpp:60-68 | the traversal returns adjacent cells with `pred.key < key <= curr.key`, `validate(pred, curr)` holds, and key is present iff it is curr's key |
| `SetLists.SetList.Add` | CSE305-td8-1-handin/td8.cpp:57-76 | true iff hash(val) was absent; the contents gain hash(val); on false nothing changes; on true exactly one new cell is linked at one position |
| `SetLists.SetList.AddCell` | CSE305-td8-1-handin/td8.cpp:72 | a new cell holding val goes between pred and curr and adds hash(val) to the contents |
| `SetLists.SetList.LinkAfter` | CSE305-td8-1-handin/td8.cpp:72 | `pred.next := node` inserts node and its key at position i + 1 of the ghost sequences and keeps the list valid |
| `SetLists.SetList.Remove` | CSE305-td8-1-handin/td8.cpp:78-98 | true iff hash(val) was present; the contents lose hash(val); on false nothing changes; on true exactly one cell is unlinked |
| `SetLists.SetList.Unlink` | CSE305-td8-1-handin/td8.cpp:92 | `pred.next := curr.next` deletes position i + 1 from the ghost sequences and keeps the list valid |
| `SetLists.SetList.Retire` | CSE305-td8-1-handin/td8.cpp:91 | marking a cell that is no longer linked sets its mark and keeps the list valid |
| `SetLists.SetList.Contains` | CSE305-td8-1-handin/td8.cpp:100-106 | true iff hash(val) is in the contents (an unmarked cell with that key is reached) |
| `SetLists.AddContainsRemove` | CSE305-td8-1-handin/td8.cpp:57-106 | on a new list: add succeeds, contains then holds, remove succeeds, contains then fails, and a second remove fails |
| `MultiSetLists.MultiNode.constructor` | CSE305-td8-1-handin/td8.cpp:118-123 | a new node holds one copy of s under key hash(s) |
| `MultiSetLists.MultiNode.Sentinel` | CSE305-td8-1-handin/td8.cpp:124-129 | a sentinel has the given key, no successor and multiplicity 1 |
| `MultiSetLists.AllSnoc` | CSE305-td8-1-handin/td8.cpp:116 | one more cell at the end adds its multiplicity's copies of its key to the multiset |
| `MultiSetLists.AllInsert` | CSE305-td8-1-handin/td8.cpp:176 | a cell inserted at any position adds its copies to the multiset |
| `MultiSetLists.AllDelete` | CSE305-td8-1-handin/td8.cpp:203 | a cell unlinked from any position takes its copies out of the multiset |
| `MultiSetLists.AllUpdate` | CSE305-td8-1-handin/td8.cpp:173 | changing one cell's multiplicity changes only the copies of that cell's key |
| `MultiSetLists.AllAbsent` | CSE305-td8-1-handin/td8.cpp:219-222 | a key no cell has occurs 0 times |
| `MultiSetLists.AllAt` | CSE305-td8-1-handin/td8.cpp:219-220 | with strictly increasing keys, the key at position p occurs exactly `mults[p]` times |
| `MultiSetLists.CountedSentinels` | CSE305-td8-1-handin/td8.cpp:140-143 | a new list (two sentinels) holds the empty multiset |
| `MultiSetLists.WithoutSentinels` | CSE305-td8-1-handin/td8.cpp:140-143 | adding or removing a copy of an element key commutes with discarding the sentinel keys |
| `MultiSetLists.AllBump` | CSE305-td8-1-handin/td8.cpp:173 | `++multiplicity` on one cell adds one copy of its key |
| `MultiSetLists.AllDrop` | CSE305-td8-1-handin/td8.cpp:200 | `--multiplicity` on a positive counter takes one copy of its key away |
| `MultiSetLists.CountedBump` | CSE305-td8-1-handin/td8.cpp:173 | the same for the multiset the list stands for |
| `MultiSetLists.CountedDrop` | CSE305-td8-1-handin/td8.cpp:200 | the same for the multiset the list stands for |
| `MultiSetLists.CountedInsert` | CSE305-td8-1-handin/td8.cpp:176 | linking a new cell with multiplicity 1 adds one copy of its key |
| `MultiSetLists.CountedDelete` | CSE305-td8-1-handin/td8.cpp:203 | unlinking a cell with multiplicity 1 takes its one copy away |
| `MultiSetLists.MultiSetList.constructor` | CSE305-td8-1-handin/td8.cpp:140-143 | a new list is head linked to tail and holds the empty multiset |
| `MultiSetLists.MultiSetList.ValidateIffAdjacent` | CSE305-td8-1-handin/td8.cpp:152-154 | `validate(pred, curr)` (both multiplicities positive and `pred.next == curr`) holds for two cells of a valid list exactly when curr is pred's successor, since every linked cell has a positive count |
| `MultiSetLists.MultiSetList.Search` | CSE305-td8-1-handin/td8.cpp:163-171 | the traversal returns adjacent cells with `pred.key < key <= curr.key`, and `validate` (both counters positive, adjacent) holds |
| `MultiSetLists.MultiSetList.Add` | CSE305-td8-1-handin/td8.cpp:160-180 | the multiset gains one copy of hash(val); a present key keeps the cells (its counter goes up); an absent key gets one new cell |
| `MultiSetLists.MultiSetList.CountUp` | CSE305-td8-1-handin/td8.cpp:172-174 | the present-key branch of add: same cells, one more copy of curr's key |
| `MultiSetLists.MultiSetList.AddCell` | CSE305-td8-1-handin/td8.cpp:176 | the absent-key branch of add: one new cell at position i + 1, one more copy of hash(val) |
| `MultiSetLists.MultiSetList.Remove` | CSE305-td8-1-handin/td8.cpp:186-210 | true iff hash(val) is present; the multiset loses one copy; with several copies the cells stay, with one copy its cell is unlinked; false changes nothing |
| `MultiSetLists.MultiSetList.CountDown` | CSE305-td8-1-handin/td8.cpp:199-201 | multiplicity above 1: same cells, one copy fewer |
| `MultiSetLists.MultiSetList.RemoveCell` | CSE305-td8-1-handin/td8.cpp:202-204 | multiplicity 1: the cell is unlinked and its one copy goes |
| `MultiSetLists.MultiSetList.Contains` | CSE305-td8-1-handin/td8.cpp:214-223 | the multiplicity of hash(val) in the multiset, 0 when absent |
| `MultiSetLists.MultiSetList.Holds` | CSE305-td8-1-handin/td8.cpp:217-222 | where the traversal stops, the count of key is curr's multiplicity if key is curr's key and 0 otherwise |
| `MultiSetLists.MultiSetList.Count` | CSE305-td8-1-handin/td8.cpp:173 | `++` (or `--` at line 200) on one counter changes that entry of the ghost multiplicities and nothing else |
| `MultiSetLists.MultiSetList.LinkAfter` | CSE305-td8-1-handin/td8.cpp:176 | `pred.next := node` inserts node, its key and multiplicity 1 at position i + 1 and keeps the list valid |
| `MultiSetLists.MultiSetList.Unlink` | CSE305-td8-1-handin/td8.cpp:203 | `pred.next := curr.next` deletes position i + 1 from all ghost sequences and keeps the list valid |
| `MultiSetLists.AddsThenRemoves` | CSE305-td8-1-handin/td8.cpp:160-223 | after n adds and m <= n removes of v on a new list, contains(v) is n - m |
| `LockFreeSets.AtomicNode.constructor` | CSE305-td8-1-handin/td8.cpp:233-237 | a new node holds s under hash(s), with no successor yet |
| `LockFreeSets.AtomicNode.Sentinel` | CSE305-td8-1-handin/td8.cpp:238-242 | a sentinel has the given key and no successor |
| `LockFreeSets.AtomicNode.CompareExchangeNext` | CSE305-td8-1-handin/td8.cpp:284 | stores desired exactly when next equals expected, and reports whether it did |
| `LockFreeSets.MonotonicLockFreeSet.constructor` | CSE305-td8-1-handin/td8.cpp:252-255 | a new set is head linked to tail and holds nothing |
| `LockFreeSets.MonotonicLockFreeSet.Add` | CSE305-td8-1-handin/td8.cpp:264-288 | false iff hash(val) was present, with nothing changed; otherwise one new cell is spliced in at its ordered position; the contents gain hash(val) |
| `LockFreeSets.MonotonicLockFreeSet.Splice` | CSE305-td8-1-handin/td8.cpp:282-286 | the compare-and-swap from curr to node succeeds and inserts node at position i + 1, keeping the list valid |
| `LockFreeSets.MonotonicLockFreeSet.Contains` | CSE305-td8-1-handin/td8.cpp:290-297 | true iff hash(val) is in the set |
| `LockFreeSets.AddAll` | CSE305-td8-1-handin/td8.cpp:264-288 | nothing is ever removed: after adding vals in turn, the set is exactly the hashes of vals |
| `MarkableReferences.AtomicMarkableReference.constructor` | CSE305-td8-1-handin/td8.cpp:351 | the cell holds the given pair |
| `MarkableReferences.AtomicMarkableReference.CompareAndSet` | CSE305-td8-1-handin/td8.cpp:353-358 | the pair is replaced exactly when it equals the expected pair, and the result says whether; the expected arguments are inputs only |
| `MarkableReferences.AtomicMarkableReference.AttemptMark` | CSE305-td8-1-handin/td8.cpp:360-365 | succeeds iff the reference matches and the mark is false; the reference never changes; the mark becomes newMark on success |
| `MarkableReferences.AtomicMarkableReference.Get` | CSE305-td8-1-handin/td8.cpp:367-371 | returns the stored reference and mark and changes nothing |
| `MarkableReferences.MarkThenSwap` | CSE305-td8-1-handin/td8.cpp:353-371 | marking once succeeds, marking again fails, a swap expecting the old mark fails, one expecting the new mark succeeds, and get reports the swapped-in pair |
| `BoundedSets.BoundedSetList.constructor` | CSE305-td7-1-handin/td7.cpp:60-63 | the given capacity, count 0, empty list |
| `BoundedSets.BoundedSetList.Add` | CSE305-td7-1-handin/td7.cpp:72-89 | a present key gives false and changes nothing; an absent key with count < capacity links one fresh cell holding val at one position between pred and curr and bumps count; an absent key when full changes nothing and blocks; count never exceeds capacity |
| `BoundedSets.BoundedSetList.ResumeAdd` | CSE305-td7-1-handin/td7.cpp:90-95 | once room is freed, add restarts; as written, the result is true iff the key was already present, while the key is in the set afterwards in both cases |
| `BoundedSets.BoundedSetList.ResumeAddCorrected` | CSE305-td7-1-handin/td7.cpp:90-95 | the corrected retry: true iff the key was absent and got inserted, with count + 1 exactly then |
| `BoundedSets.BoundedSetList.Remove` | CSE305-td7-1-handin/td7.cpp:98-108 | the base remove's result; on true one cell, the one with key hash(val), is marked and unlinked and count drops by 1; on false nothing changes |
| `BoundedSets.BoundedSetList.GetCount` | CSE305-td7-1-handin/td7.cpp:66 | the count, which equals the number of elements and is at most the capacity |
| `BoundedSets.BoundedSetList.GetCapacity` | CSE305-td7-1-handin/td7.cpp:65 | the capacity |
| `BoundedSets.BlockedAddAsWritten` | CSE305-td7-1-handin/td7.cpp:72-108 | capacity 1: add(a) succeeds, add(b) blocks, remove(a) succeeds, the resumed add(b) inserts b but returns false |
| `BoundedSets.BlockedAddCorrected` | CSE305-td7-1-handin/td7.cpp:72-108 | the same run with the corrected retry returns true |
| `SetListTransforms.Drain` | CSE305-td7-1-handin/td7.cpp:26-43 | the first loop collects every item in list (ascending key) order and leaves head linked directly to tail, with the set empty |
| `SetListTransforms.PrefixImageStep` | CSE305-td7-1-handin/td7.cpp:44-46 | adding f of one more value adds its key to the image built so far |
| `SetListTransforms.PrefixImageAll` | CSE305-td7-1-handin/td7.cpp:44-46 | the image of all values is the image of the whole collected sequence |
| `SetListTransforms.AddEach` | CSE305-td7-1-handin/td7.cpp:44-46 | the second loop adds the keys of f(v) for each collected value v to the contents |
| `SetListTransforms.Transform` | CSE305-td7-1-handin/td7.cpp:24-47 | afterwards the set is exactly the keys of f(v) for the items v it held before |
| `Containers.UpperBoundOf` | CSE305-td6-1-handin/td6.cpp:25 | the insertion point is the length of the prefix of elements at most val, followed by an element above val |
| `Containers.UpperBound` | CSE305-td6-1-handin/td6.cpp:25 | binary search: everything before p is at most val, everything from p on is above it |
| `Containers.LowerBound` | CSE305-td6-1-handin/td6.cpp:31 | binary search: everything before p is below val, everything from p on is at least val |
| `Containers.InsertSortedSorted` | CSE305-td6-1-handin/td6.cpp:22-26 | inserting at the upper bound keeps the vector sorted ascending |
| `Containers.InsertSortedAddsOne` | CSE305-td6-1-handin/td6.cpp:25 | the new vector is the old multiset plus exactly one copy of val |
| `Containers.InsertSortedPlace` | CSE305-td6-1-handin/td6.cpp:25 | the new copy goes after every element at most val (after its equals) and before every greater one |
| `Containers.LowerBoundFinds` | CSE305-td6-1-handin/td6.cpp:31-32 | in a sorted vector, val occurs iff the lower-bound position is in range and holds val |
| `Containers.OrderedVec.constructor` | CSE305-td6-1-handin/td6.cpp:20-21 | empty, with no searcher |
| `Containers.OrderedVec.Insert` | CSE305-td6-1-handin/td6.cpp:23-26 | the vector stays sorted and becomes the old one with val inserted at its upper bound |
| `Containers.OrderedVec.Search` | CSE305-td6-1-handin/td6.cpp:28-35 | true iff val occurs; the data and the searcher count are left as they were |
| `Containers.InsertThenSearch` | CSE305-td6-1-handin/td6.cpp:23-35 | inserting 2, 1, 2 gives [1, 2, 2]; 2 is found and 3 is not |
| `Containers.DivideOnceEven` | CSE305-td6-1-handin/td6.cpp:44-52 | blocks iff n is odd; otherwise n is halved exactly |
| `Containers.SafeUnboundedQueue.constructor` | CSE305-td6-1-handin/td6.cpp:62 | the queue starts empty |
| `Containers.SafeUnboundedQueue.Push` | CSE305-td6-1-handin/td6.cpp:72-79 | the element goes at the back |
| `Containers.SafeUnboundedQueue.Pop` | CSE305-td6-1-handin/td6.cpp:83-93 | a non-empty queue gives its front element and loses it; an empty one blocks unchanged |
| `Containers.SafeUnboundedQueue.IsEmpty` | CSE305-td6-1-handin/td6.cpp:67 | true iff no element is queued |
| `Containers.PushAllPopAll` | CSE305-td6-1-handin/td6.cpp:72-93 | FIFO: popping after pushing xs yields xs in order and leaves the queue empty |
| `MachineInts.ToU32` | CSE305-td3-1-handin/td3.cpp:49 | conversion to `unsigned int` keeps values below 2^32 and otherwise reduces modulo 2^32 |
| `Blocks.ScaledBlocks` | CSE305-td3-1-handin/td3.cpp:44-50 | k blocks of N / T elements, for k <= T, fit in the array |
| `Blocks.BlockInRange` | CSE305-td3-1-handin/td3.cpp:44-52 | each block lies within [0, N); a block other than the last ends where the next starts, N / T further on |
| `Blocks.BlocksDisjoint` | CSE305-td3-1-handin/td3.cpp:47-52 | an earlier block ends no later than a later one starts |
| `Blocks.BlockOf` | CSE305-td3-1-handin/td3.cpp:47-52 | every index of [0, N) lies in some block: the blocks, the last taking the remainder, cover the array |
| `Blocks.Count` | CSE305-td3-1-handin/td3.cpp:16-24 | a range has at most as many matches as elements |
| `Blocks.CountSplit` | CSE305-td3-1-handin/td3.cpp:48-52 | matches in adjacent ranges add up |
| `Blocks.CountIsMultiplicity` | CSE305-td3-1-handin/td3.cpp:58 | the number of matches in a range is the multiplicity of target in that slice |
| `Occurrences.FindThread` | CSE305-td3-1-handin/td3.cpp:13-25 | a counter already at count is left alone; otherwise it ends at min(initial + matches in the block, count) |
| `Occurrences.FindBlocks` | CSE305-td3-1-handin/td3.cpp:44-56 | scanning the blocks in turn from 0 leaves the counter at min(matches in the array, count) |
| `Occurrences.FindParallel` | CSE305-td3-1-handin/td3.cpp:37-59 | empty array: count == 0; count below 2^32: true iff target occurs at least count times; count from 2^32 on: false |
| `Accounts.IdCounter.constructor` | CSE305-td3-1-handin/td3.cpp:134 | the id counter starts at 0 |
| `Accounts.IdCounter.FetchAdd` | CSE305-td3-1-handin/td3.cpp:76 | returns the old value and adds 1 modulo 2^32 |
| `Accounts.Account.constructor` | CSE305-td3-1-handin/td3.cpp:74-77 | balance 0 and the next id from the counter |
| `Accounts.Account.WithMoney` | CSE305-td3-1-handin/td3.cpp:79-82 | the given balance and the next id from the counter |
| `Accounts.Account.Withdraw` | CSE305-td3-1-handin/td3.cpp:98-105 | true iff money >= deduction; the deduction is taken exactly then, and otherwise the balance is unchanged |
| `Accounts.Account.Add` | CSE305-td3-1-handin/td3.cpp:108-111 | balance + toAdd modulo 2^32, which is the exact sum when it does not overflow |
| `Accounts.FirstLocked` | CSE305-td3-1-handin/td3.cpp:118-124 | the account locked first is one of the two and has the smaller id |
| `Accounts.SameLockFirst` | CSE305-td3-1-handin/td3.cpp:116-124 | two transfers between the same accounts, whichever their direction, lock the same account first (so no lock-order cycle) |
| `Accounts.Transfer` | CSE305-td3-1-handin/td3.cpp:115-131 | locks the smaller id first; succeeds iff amount <= from's balance; on success from loses and to gains amount and the total is conserved; on failure both balances are unchanged |
| `Accounts.OpenAccounts` | CSE305-td3-1-handin/td3.cpp:74-82 | accounts made in turn from a fresh counter get ids 0, 1, 2, …, distinct and increasing |
| `Accounts.TwoTransfers` | CSE305-td3-1-handin/td3.cpp:115-131 | concrete balances after a successful, a refused and another successful transfer |
| `CountMins.MinFromIsMin` | CSE305-td1-1-handin/td1.cpp:102-115 | the running minimum is at most the seed and every element, and is the seed or one of them |
| `CountMins.MinFromSplit` | CSE305-td1-1-handin/td1.cpp:137-147 | the minimum over a range is the minimum of the second part seeded with the first part's minimum |
| `CountMins.SmallestElement` | CSE305-td1-1-handin/td1.cpp:102-115 | seeded with `INT_MAX`, the minimum of a non-empty range is one of its elements |
| `CountMins.CountBelowMin` | CSE305-td1-1-handin/td1.cpp:139-147 | a value below a range's minimum does not occur in it |
| `CountMins.MinSeed` | CSE305-td1-1-handin/td1.cpp:104 | a smaller seed gives the minimum of the old result and the seed |
| `CountMins.FindCountMins` | CSE305-td1-1-handin/td1.cpp:102-115 | min is the smallest element (`INT_MAX` for an empty range) and cnt the number of elements equal to it (0 for an empty range) |
| `CountMins.MergeStep` | CSE305-td1-1-handin/td1.cpp:139-147 | merging the (min, cnt) of a prefix with that of the next block gives the (min, cnt) of the longer prefix, by the merge loop's branch rule |
| `CountMins.ReduceBlocks` | CSE305-td1-1-handin/td1.cpp:123-136 | block i of the partition reports its own (min, cnt) pair |
| `CountMins.MergeBlocks` | CSE305-td1-1-handin/td1.cpp:137-148 | the merge loop over the pairs, empty blocks included, yields the count of the global minimum |
| `CountMins.CountMinsParallel` | CSE305-td1-1-handin/td1.cpp:118-149 | 0 on an empty range; otherwise the number of occurrences of the range's minimum |
| `CountMins.ThreeMins` | CSE305-td1-1-handin/td1.cpp:118-149 | [3, 1, 2, 1, 1] on two threads gives 3 |
| `Maxima.MaxFromIsMax` | CSE305-td2-1-handin/td2.cpp:38-42 | the running maximum is at least the seed and every element, and is the seed or one of them |
| `Maxima.LargestElement` | CSE305-td2-1-handin/td2.cpp:25-50 | with a seed below every element of a non-empty range, the maximum is one of its elements and at least each |
| `Maxima.MaxFromMonotone` | CSE305-td2-1-handin/td2.cpp:66-72 | the maximum of a longer prefix is at least that of a shorter one |
| `Maxima.MaxFromSeed` | CSE305-td2-1-handin/td2.cpp:113-131 | MaxOffset(o2) after PartialMaxSeq(a, o1) equals PartialMaxSeq(a, max(o1, o2)) |
| `Maxima.MaxFromJoin` | CSE305-td2-1-handin/td2.cpp:46-50 | the maximum over a range is the larger of the maxima of its two parts |
| `Maxima.MaxFromSplit` | CSE305-td2-1-handin/td2.cpp:113-123 | the maximum over a range is the second part's maximum seeded with the first part's |
| `Maxima.BlockMax` | CSE305-td2-1-handin/td2.cpp:30-43 | a worker leaves `max_values[i]` at the maximum of its old value and its block, and touches no other entry |
| `Maxima.MaxElement` | CSE305-td2-1-handin/td2.cpp:50 | the largest of the block maxima is the maximum of the array seeded with -`DBL_MAX` |
| `Maxima.MergeStep` | CSE305-td2-1-handin/td2.cpp:50 | one more block maximum extends the prefix maximum to the end of that block |
| `Maxima.MaxParallel` | CSE305-td2-1-handin/td2.cpp:18-51 | 0 for an empty array; otherwise the maximum element (seeded with -`DBL_MAX`, so any finite element wins) |
| `Maxima.PartialMaxSeq` | CSE305-td2-1-handin/td2.cpp:59-74 | with n >= 1, `res[lo+k]` is max(offset, start[lo..lo+k]) for every k < n, and nothing else is written |
| `Maxima.PartialMaxSorted` | CSE305-td2-1-handin/td2.cpp:66-72 | the result of PartialMaxSeq is non-decreasing |
| `Maxima.MaxOffset` | CSE305-td2-1-handin/td2.cpp:77-83 | each element x in range becomes max(x, offset), and nothing else changes |
| `Maxima.RunningFrame` | CSE305-td2-1-handin/td2.cpp:126-131 | a pass that writes one chunk keeps the prefix maxima already computed in other chunks |
| `Maxima.Globalize` | CSE305-td2-1-handin/td2.cpp:124-129 | applying to a chunk's local prefix maxima the maximum of everything before it gives the global prefix maxima |
| `Maxima.ChunkIndex` | CSE305-td2-1-handin/td2.cpp:96-106 | every index below T chunks of length len lies in exactly one chunk c < T |
| `Maxima.ChunkLength` | CSE305-td2-1-handin/td2.cpp:96 | with N >= T + 1, chunks are non-empty and the T chunks plus the remainder fit in N |
| `Maxima.LocalChunkPass` | CSE305-td2-1-handin/td2.cpp:102 | PartialMaxSeq on chunk i computes its local prefix maxima and keeps those of chunks before it |
| `Maxima.LocalPass` | CSE305-td2-1-handin/td2.cpp:100-111 | after the first pass every chunk holds its local prefix maxima |
| `Maxima.ChunkOffsets` | CSE305-td2-1-handin/td2.cpp:113-123 | `offsets[i]` is the maximum of the whole prefix up to the end of chunk i |
| `Maxima.GlobalChunkPass` | CSE305-td2-1-handin/td2.cpp:127 | MaxOffset on chunk i + 1 with `offsets[i]` turns its local maxima into global ones and leaves the other chunks as they were |
| `Maxima.OffsetPass` | CSE305-td2-1-handin/td2.cpp:124-134 | after the offset pass every chunk holds global prefix maxima |
| `Maxima.PrefixMaximumsFrom` | CSE305-td2-1-handin/td2.cpp:95-135 | the whole composition with chunk seed `seed`: `res[k]` is max(seed, start[0..k]) for every k |
| `Maxima.PrefixMaximums` | CSE305-td2-1-handin/td2.cpp:95-135 | as written (seed 0): `res[k]` is max(0, start[0..k]); it is the prefix maximum when every element is >= 0 |
| `Maxima.PrefixMaximumsCorrected` | CSE305-td2-1-handin/td2.cpp:95-135 | seeded with -`DBL_MAX`: `res[k]` is the prefix maximum of start[0..k] for finite inputs |
| `Maxima.PrefixMaxOfSeed` | CSE305-td2-1-handin/td2.cpp:92-93 | when every element is at least the seed, the seeded running maximum is the prefix maximum, attained and an upper bound |
| `Maxima.NegativePrefixAsWritten` | CSE305-td2-1-handin/td2.cpp:102-106 | as written, [-1, -1] on one thread gives [0, 0] |
| `Maxima.NegativePrefixCorrected` | CSE305-td2-1-handin/td2.cpp:102-106 | corrected, the same input gives [-1, -1] |
| `Maxima.MaxOfNegatives` | CSE305-td2-1-handin/td2.cpp:18-51 | [-3, -1, -2] on two threads gives -1: the -`DBL_MAX` seed handles negative inputs |

## Left out

Concurrency:

- Threads, `join`, mutexes, lock guards, atomics and memory orders. Each routine is the sequential composition of its threads, so linearizability and deadlock freedom are not modelled. `Accounts.Transfer` records which account it would lock first, and `Accounts.SameLockFirst` proves the ordering agrees in both directions.
- Condition-variable waits. A wait that one thread cannot see end becomes an outcome:
  - `Blocked` in `Containers.DivideOnceEven` and `Containers.SafeUnboundedQueue.Pop`;
  - `MustWait` in `BoundedSets.BoundedSetList.Add`, resumed by `ResumeAdd` under the precondition `count < capacity`.
  - The `notify` calls have no sequential effect.
- The `while (true)` retry loops of the lists run once, because `validate` and the compare-and-swap cannot fail in a sequential run. The spurious failure of `compare_exchange_weak` is not modelled.

Lists and hashing:

- `std::hash<std::string>` is a parameter, assumed to give values strictly between 0 and `ULONG_MAX`. The source never checks this: a hash of `ULONG_MAX` would let remove unlink the tail, and a hash of 0 would let contains match the head.
- `SetLists.SetList.Remove` marks the cell after unlinking it rather than before (lines 91-92). With one thread the order cannot be observed.
- `BoundedSets.BoundedSetList.Add` does not model the lock handling of the blocking path. td7.cpp:84-85 unlock `pred` and `curr` before the wait, and lines 93-94 unlock them a second time, which is undefined behaviour. The retried `add` at line 90 runs while `count_lock` is still held; if it finds the set full again it locks `count_lock` a second time (line 86), while `remove` needs that lock to free room (line 101), so it deadlocks. The model resumes only once `count < capacity` holds.
- `BoundedSets.BoundedSetList.Add` links the new cell with its `next` already set. td7.cpp:79-80 sets `pred->next` first and `new_node->next` afterwards, and the intermediate state is not modelled.
- `MultiSetLists.MultiSetList`: multiplicities are unbounded naturals. Wrap-around of `unsigned int` after 2^32 adds of one key is not modelled.
- Memory management is not modelled: `shared_ptr`, `new`/`delete` and the `~MonotonicLockFreeSet` destructor.
- The unfinished `AtomicMarkable` stub (td8.cpp:322-338) is not modelled. `MarkableReferences` compares pairs as values, so padding bytes inside the atomic pair are not modelled.

td7 base classes:

- `BoundedSets` and `SetListTransforms` reuse the td8 lazy list. `SetList.cpp` and `CoarseSetList.cpp`, which td7 includes, are not part of this model, and neither is `benchmarking_sets.cpp` (a timing harness).

Numeric types:

- `CountMins.CountMinsParallel`: cnt is a natural number. Overflow of the `int` count beyond 2^31 - 1 copies is not modelled.
- td2 `double` values are integers: there is no NaN, no infinity and no rounding. Only the comparisons `<`, `>` and `<=` are applied to them, and `DBL_MAX` is the exact value of the largest finite double.
- `Occurrences.FindParallel` requires the array length to fit in `size_t`. A count of 2^32 or more is truncated to `unsigned int` before the threads see it; the model states this and proves the answer is then always false.

Preconditions the source leaves implicit:

- The parallel routines require `num_threads >= 1` on a non-empty input; the source divides by it.
- `Maxima.PrefixMaximums` requires `N >= num_threads + 1` and separate `start` and `res` arrays. With fewer elements, `chunk_length` is 0 and the source reads `res_start[-1]`. Aliasing of the two arrays is not modelled.
- `Accounts.Transfer` requires two different accounts; with `from == to` the source locks one mutex twice.
- `Accounts.OpenAccounts` stays below 2^32 + 1 accounts, after which ids would repeat.

Not modelled:

- Field reads that are only used for testing (`get_amount`, `get_id`, `get_data`).
- In td1: the `long double` routines `SumMapThread`, `SumParallel`, `MeanParallel` and `VarianceParallel` (floating point), `FindParallel` (a race on `found` and stack-captured iterators), and the `RunWithTimeout` stub. `td1_demo.cpp` is a timing driver.

## Findings

| source | as written | input that shows it | evidently intended | confidence | as-written member | corrected member |
|---|---|---|---|---|---|---|
| CSE305-td7-1-handin/td7.cpp:90-95 | after the wait, `exists = this->add(val)` stores the retried add's success flag, and `return !exists` then negates it | capacity 1: add(a), then add(b) blocks, then remove(a); the resumed add(b) inserts b and returns false | return the retried add's result: true when b was inserted | not executed | `BoundedSets.BoundedSetList.ResumeAdd`, `BoundedSets.BlockedAddAsWritten` | `BoundedSets.BoundedSetList.ResumeAddCorrected`, `BoundedSets.BlockedAddCorrected` |
| CSE305-td2-1-handin/td2.cpp:102-106 | every chunk's `PartialMaxSeq` is seeded with offset `0.`, so each prefix maximum is at least 0 | one thread, start = [-1, -1]: res = [0, 0] | seed with -`DBL_MAX` (as `MaxParallel` does at line 25), giving res = [-1, -1] | not executed | `Maxima.PrefixMaximums`, `Maxima.NegativePrefixAsWritten` | `Maxima.PrefixMaximumsCorrected`, `Maxima.NegativePrefixCorrected` |
