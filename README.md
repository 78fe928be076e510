# Linked-list integer sets, sequentially verified

The benchmark package `cp.benchmark.intset` implements a set of `int` values
seven times, as a sorted singly linked list between two sentinel nodes
(`Integer.MIN_VALUE` at the head, `Integer.MAX_VALUE` at the tail). All seven
offer `add`, `remove`, `contains` and a `validate` that walks the list and
checks its shape.

- **Synchronized**, **GlobalLock** and **GlobalRWLock** guard a plain list
  with one monitor or lock. They keep two global counters, `totalAdds` and
  `totalRemoves`. `validate` checks that the values strictly increase, with
  no duplicates, and that `2 + totalAdds - totalRemoves` equals the number of
  nodes.
- **PerNodeLock** (hand-over-hand locking) and **OptimisticPerNodeLock**
  (an unlocked traversal, then lock and re-validate) keep those counters on
  the nodes. A successful add counts one `add` on the predecessor. A
  successful remove counts one `remove` on the predecessor and folds the
  unlinked node's counters into it. `validate` sums the counters of every
  node.
- **LazyPerNodeLock** also marks a node before unlinking it. Its `contains`
  takes no lock, and its `validate` skips marked nodes.
- **LockFree** keeps an (reference, mark) pair in each node.
  - `find` unlinks marked nodes with compare-and-set as it walks.
  - `remove` first marks the node's own field, then tries to unlink it.
  - Two counters, `adds` and `rems`, count the successful operations.

The model catches each list in one state between operations, with one thread.

- Each variant is a Dafny class with its own fields.
- Its ghost `spine` lists the reachable nodes, head to tail.
- Each class has an invariant `Valid()`: the nodes form a chain, the values
  strictly increase, and the counters agree with the number of nodes.
- The three per-node-lock classes also keep ghost `adds` and `removes`: the
  nodes' `add` and `remove` counters in list order, which `Valid()` ties to
  the nodes. Their add and remove state the new counters node by node
  (`Counters.Linked` and `Counters.Folded`), not only their sums.
- `Contents()` is the set, kept as the sorted sequence of interior values.
  For the lock-free list it is the values of the nodes whose own field is
  unmarked.
- Every operation is proved against the functional `Insert` and `Delete` of
  `IntSetSpec`.
- Each `validate` is proved to pass exactly when the invariant, or the
  weaker property that variant's walk actually checks, holds.

Files and modules:

| file | module | contents |
|---|---|---|
| intset_spec.dfy | IntSetSpec | the int range, `Insert`/`Delete` on sorted sequences, the traversal window, the refinement lemmas |
| counters.dfy | Counters | sums of per-node counters |
| filters.dfy | Filters | filtering a sequence by marks, for the walks that skip marked nodes |
| plain_list.dfy | PlainList | the node, traversal, link and unlink of the global-lock lists, and the `validate` walk |
| synchronized.dfy, globallock.dfy, globalrwlock.dfy | SynchronizedList, GlobalLockList, GlobalRWLockList | the three globally locked classes |
| counting_list.dfy | CountingList | the node with `add`/`remove` counters, and the updates and walk of the per-node-lock lists |
| pernodelock.dfy, optimistic.dfy | PerNodeLockList, OptimisticPerNodeLockList | the hand-over-hand and optimistic classes |
| lazy_list.dfy, lazy_walk.dfy, lazy.dfy | LazyList, LazyWalk, LazyPerNodeLockList | the marked node and its updates, the walks of `contains` and `validate`, and the lazy class |
| lockfree_nodes.dfy, lockfree_updates.dfy, lockfree_walk.dfy, lockfree.dfy | LockFreeNodes, LockFreeUpdates, LockFreeWalk, LockFreeList | the markable successor and its compare-and-set, `find`, the linking and unlinking steps, the walks of `contains` and `validate`, and the lock-free class |

Locks are acquired and released around every critical section in the source;
with one thread they change nothing, so the model has no lock state. In the
optimistic and lazy lists the validation after locking always succeeds. The
proof shows this (`TryAdd`/`TryRemove` reach the retry branch only under a
contradiction), so their retry loops run once.

## Model

| member | source | states |
|---|---|---|
| IntSetSpec.InsertSpec | cp-2017-18-g55-hw2/src/cp/benchmark/intset/IntSetLinkedListSynchronized.java:49-66 | Insert keeps a strictly increasing sequence strictly increasing, adds exactly `v`, and grows by one exactly when `v` was absent |
| IntSetSpec.DeleteSpec | cp-2017-18-g55-hw2/src/cp/benchmark/intset/IntSetLinkedListSynchronized.java:68-85 | Delete keeps the order, takes out exactly `v`, and shrinks by one exactly when `v` was present |
| IntSetSpec.InsertPresent | cp-2017-18-g55-hw2/src/cp/benchmark/intset/IntSetLinkedListSynchronized.java:59-60 | adding a value that is already a member leaves the set as it is |
| IntSetSpec.DeleteAbsent | cp-2017-18-g55-hw2/src/cp/benchmark/intset/IntSetLinkedListSynchronized.java:78-79 | removing a value that is not a member leaves the set as it is |
| IntSetSpec.InsertAt | cp-2017-18-g55-hw2/src/cp/benchmark/intset/IntSetLinkedListSynchronized.java:61 | in a sorted sequence, Insert puts `v` exactly between the smaller and the larger values |
| IntSetSpec.DeleteAt | cp-2017-18-g55-hw2/src/cp/benchmark/intset/IntSetLinkedListSynchronized.java:80 | in a sorted sequence, deleting the value at position `i` cuts out exactly position `i` |
| IntSetSpec.WindowBounds | cp-2017-18-g55-hw2/src/cp/benchmark/intset/IntSetLinkedListSynchronized.java:52-58 | every value the traversal passes is below `v`, and it stops at the first value not below `v`, or at the last node |
| IntSetSpec.WindowFindsMember | cp-2017-18-g55-hw2/src/cp/benchmark/intset/IntSetLinkedListSynchronized.java:55-59 | on a legal argument, the node the traversal stops at holds `v` exactly when `v` is a member |
| IntSetSpec.AddRefinesInsert | cp-2017-18-g55-hw2/src/cp/benchmark/intset/IntSetLinkedListSynchronized.java:52-63 | add as written (link `v` in before the window's node unless that node holds `v`) keeps the sentinels and the order and is the abstract Insert |
| IntSetSpec.RemoveRefinesDelete | cp-2017-18-g55-hw2/src/cp/benchmark/intset/IntSetLinkedListSynchronized.java:71-82 | remove as written (unlink the window's node if it holds `v`) keeps the sentinels and the order and is the abstract Delete |
| IntSetSpec.SpliceRefines | cp-2017-18-g55-hw2/src/cp/benchmark/intset/IntSetLinkedListSynchronized.java:59-61 | linking `v` in after the window's predecessor, when the window's node does not hold `v`, is Insert and keeps the list well formed |
| IntSetSpec.CutRefines | cp-2017-18-g55-hw2/src/cp/benchmark/intset/IntSetLinkedListSynchronized.java:78-80 | unlinking the window's node, when it holds `v`, is Delete and keeps the list well formed |
| IntSetSpec.SpliceAt | cp-2017-18-g55-hw2/src/cp/benchmark/intset/IntSetLinkedListSynchronized.java:61 | linking a value in between two neighbours that bracket it is Insert and keeps the sentinels and the order |
| IntSetSpec.CutAt | cp-2017-18-g55-hw2/src/cp/benchmark/intset/IntSetLinkedListSynchronized.java:80 | unlinking an interior node is Delete of its value and keeps the sentinels and the order |
| IntSetSpec.AddMinBreaksOrder | cp-2017-18-g55-hw2/src/cp/benchmark/intset/IntSetLinkedListSynchronized.java:55-63 | add(MIN_VALUE) links a second MIN_VALUE right after the head, so the list is no longer strictly increasing; this is why the argument must exclude the sentinels |
| IntSetSpec.RemoveMaxUnlinksTail | cp-2017-18-g55-hw2/src/cp/benchmark/intset/IntSetLinkedListSynchronized.java:74-81 | remove(MAX_VALUE) stops at the tail, finds MAX_VALUE there and unlinks the tail itself |
| IntSetSpec.IncreasingExtend | cp-2017-18-g55-hw2/src/cp/benchmark/intset/IntSetLinkedListSynchronized.java:110-113 | a value above the last one checked extends the checked increasing prefix by one |
| PlainList.Node.constructor | cp-2017-18-g55-hw2/src/cp/benchmark/intset/IntSetLinkedListSynchronized.java:14-17 | a node holds the given value and successor |
| PlainList.Locate | cp-2017-18-g55-hw2/src/cp/benchmark/intset/IntSetLinkedListSynchronized.java:52-58 | the traversal ends with `previous.next == next`, `previous.value < v <= next.value` (or `previous` the head), at the first node not below `v` |
| PlainList.Link | cp-2017-18-g55-hw2/src/cp/benchmark/intset/IntSetLinkedListSynchronized.java:61 | a new node holding `value` and pointing to `next` becomes `previous`'s successor; the reachable nodes are the old ones with the new node in between |
| PlainList.Unlink | cp-2017-18-g55-hw2/src/cp/benchmark/intset/IntSetLinkedListSynchronized.java:80 | `previous` points past `next`; the reachable nodes are the old ones without `next` |
| PlainList.SpliceSound | cp-2017-18-g55-hw2/src/cp/benchmark/intset/IntSetLinkedListSynchronized.java:59-61 | on the nodes: linking a node holding `v` in at the window is Insert and keeps the list well formed |
| PlainList.CutSound | cp-2017-18-g55-hw2/src/cp/benchmark/intset/IntSetLinkedListSynchronized.java:78-80 | on the nodes: unlinking the window's node holding `v` is Delete and keeps the list well formed |
| PlainList.CheckOrder | cp-2017-18-g55-hw2/src/cp/benchmark/intset/IntSetLinkedListSynchronized.java:102-117 | the walk of validate() reports order exactly when the values are strictly increasing (the set of values seen rules out duplicates), and then counts every node |
| SynchronizedList.IntSetLinkedListSynchronized.constructor | cp-2017-18-g55-hw2/src/cp/benchmark/intset/IntSetLinkedListSynchronized.java:40-47 | head -> tail, both counters 0: the invariant holds and the set is empty |
| SynchronizedList.IntSetLinkedListSynchronized.Add | cp-2017-18-g55-hw2/src/cp/benchmark/intset/IntSetLinkedListSynchronized.java:49-66 | the result is true exactly when `value` was absent; the set becomes S + {value}; totalAdds grows by one on true; nothing changes on false; the invariant (order, sentinels, 2 + totalAdds - totalRemoves nodes) is kept |
| SynchronizedList.IntSetLinkedListSynchronized.LinkAfter | cp-2017-18-g55-hw2/src/cp/benchmark/intset/IntSetLinkedListSynchronized.java:60-63 | a successful add: one new node between `previous` and `next`, totalAdds + 1, invariant kept |
| SynchronizedList.IntSetLinkedListSynchronized.Remove | cp-2017-18-g55-hw2/src/cp/benchmark/intset/IntSetLinkedListSynchronized.java:68-85 | the result is true exactly when `value` was present; the set becomes S - {value}; totalRemoves grows by one on true; nothing changes on false; invariant kept |
| SynchronizedList.IntSetLinkedListSynchronized.UnlinkAfter | cp-2017-18-g55-hw2/src/cp/benchmark/intset/IntSetLinkedListSynchronized.java:79-82 | a successful remove: exactly the node holding `value` is unlinked, totalRemoves + 1, invariant kept |
| SynchronizedList.IntSetLinkedListSynchronized.Contains | cp-2017-18-g55-hw2/src/cp/benchmark/intset/IntSetLinkedListSynchronized.java:87-100 | the result is membership, and nothing changes |
| SynchronizedList.IntSetLinkedListSynchronized.Validate | cp-2017-18-g55-hw2/src/cp/benchmark/intset/IntSetLinkedListSynchronized.java:102-119 | validate() passes exactly when the values are strictly increasing and 2 + totalAdds - totalRemoves is the number of nodes, i.e. exactly when the invariant holds |
| GlobalLockList.IntSetLinkedListGlobalLock.constructor | cp-2017-18-g55-hw2/src/cp/benchmark/intset/IntSetLinkedListGlobalLock.java:44-52 | head -> tail, both counters 0: the empty set |
| GlobalLockList.IntSetLinkedListGlobalLock.Add | cp-2017-18-g55-hw2/src/cp/benchmark/intset/IntSetLinkedListGlobalLock.java:54-76 | false and no change when the window holds `value`; otherwise one node linked in and totalAdds + 1; the set becomes S + {value}; invariant kept |
| GlobalLockList.IntSetLinkedListGlobalLock.LinkAfter | cp-2017-18-g55-hw2/src/cp/benchmark/intset/IntSetLinkedListGlobalLock.java:69-71 | a successful add: one new node, totalAdds + 1, invariant kept |
| GlobalLockList.IntSetLinkedListGlobalLock.Remove | cp-2017-18-g55-hw2/src/cp/benchmark/intset/IntSetLinkedListGlobalLock.java:78-99 | true exactly when `value` was present, with the node unlinked and totalRemoves + 1; otherwise false and no change; invariant kept |
| GlobalLockList.IntSetLinkedListGlobalLock.UnlinkAfter | cp-2017-18-g55-hw2/src/cp/benchmark/intset/IntSetLinkedListGlobalLock.java:92-94 | a successful remove: exactly the node holding `value` is unlinked, totalRemoves + 1 |
| GlobalLockList.IntSetLinkedListGlobalLock.Contains | cp-2017-18-g55-hw2/src/cp/benchmark/intset/IntSetLinkedListGlobalLock.java:101-119 | the result is membership, and nothing changes |
| GlobalLockList.IntSetLinkedListGlobalLock.Validate | cp-2017-18-g55-hw2/src/cp/benchmark/intset/IntSetLinkedListGlobalLock.java:121-138 | validate() passes exactly when order, no duplicates and 2 + totalAdds - totalRemoves == size hold |
| GlobalLockList.ExampleRun | cp-2017-18-g55-hw2/src/cp/benchmark/intset/IntSetLinkedListGlobalLock.java:54-119 | from empty, add(5), add(3), add(5), contains(3), remove(3), contains(3), remove(3) answer true, true, false, true, true, false, false and leave {5} with totalAdds 2 and totalRemoves 1 |
| GlobalRWLockList.IntSetLinkedListGlobalRWLock.constructor | cp-2017-18-g55-hw2/src/cp/benchmark/intset/IntSetLinkedListGlobalRWLock.java:47-55 | head -> tail, both counters 0: the empty set |
| GlobalRWLockList.IntSetLinkedListGlobalRWLock.Add | cp-2017-18-g55-hw2/src/cp/benchmark/intset/IntSetLinkedListGlobalRWLock.java:57-79 | `result = v != value`; inserts and counts only on true; the set becomes S + {value}; invariant kept |
| GlobalRWLockList.IntSetLinkedListGlobalRWLock.LinkAfter | cp-2017-18-g55-hw2/src/cp/benchmark/intset/IntSetLinkedListGlobalRWLock.java:70-73 | a successful add: one new node, totalAdds + 1 |
| GlobalRWLockList.IntSetLinkedListGlobalRWLock.Remove | cp-2017-18-g55-hw2/src/cp/benchmark/intset/IntSetLinkedListGlobalRWLock.java:81-102 | `result = v == value`; unlinks and counts only on true; the set becomes S - {value}; invariant kept |
| GlobalRWLockList.IntSetLinkedListGlobalRWLock.UnlinkAfter | cp-2017-18-g55-hw2/src/cp/benchmark/intset/IntSetLinkedListGlobalRWLock.java:95-98 | a successful remove: the node holding `value` is unlinked, totalRemoves + 1 |
| GlobalRWLockList.IntSetLinkedListGlobalRWLock.Contains | cp-2017-18-g55-hw2/src/cp/benchmark/intset/IntSetLinkedListGlobalRWLock.java:104-119 | under the read lock: the result is membership, and the list and counters are unchanged |
| GlobalRWLockList.IntSetLinkedListGlobalRWLock.Validate | cp-2017-18-g55-hw2/src/cp/benchmark/intset/IntSetLinkedListGlobalRWLock.java:123-140 | validate() passes exactly when order, no duplicates and 2 + totalAdds - totalRemoves == size hold |
| Counters.SumLinked | cp-2017-18-g55-hw2/src/cp/benchmark/intset/IntSetLinkedListPerNodeLock.java:106-107 | the counters after a link (`Linked`) sum to the old sum plus the predecessor's increment: the new node counts 0 |
| Counters.Linked | cp-2017-18-g55-hw2/src/cp/benchmark/intset/IntSetLinkedListPerNodeLock.java:106-107 | the counters after linking a node in after position `i`: the one at `i` grows by `d`, the new one at `i + 1` is 0, those before keep their places and values, those after keep their values one place further on |
| Counters.SumFolded | cp-2017-18-g55-hw2/src/cp/benchmark/intset/IntSetLinkedListPerNodeLock.java:136-139 | the counters after an unlink that folds the unlinked node's counter into its predecessor's (`Folded`) sum to the old sum plus the extra increment: the unlinked node's counts are not lost |
| Counters.Folded | cp-2017-18-g55-hw2/src/cp/benchmark/intset/IntSetLinkedListPerNodeLock.java:136-139 | the counters after unlinking the node at `i + 1`: the one at `i` becomes its own plus the unlinked node's plus `d`, those before keep their places and values, those after keep their values one place earlier |
| CountingList.Node.constructor | cp-2017-18-g55-hw2/src/cp/benchmark/intset/IntSetLinkedListPerNodeLock.java:19-25 | a new node holds the given value and successor, with add == remove == 0 |
| CountingList.Node.IncAdd | cp-2017-18-g55-hw2/src/cp/benchmark/intset/IntSetLinkedListPerNodeLock.java:31-33 | the add counter grows by one |
| CountingList.Node.IncAmountAdd | cp-2017-18-g55-hw2/src/cp/benchmark/intset/IntSetLinkedListPerNodeLock.java:35-37 | the add counter grows by `amount` |
| CountingList.Node.IncAmountRemove | cp-2017-18-g55-hw2/src/cp/benchmark/intset/IntSetLinkedListPerNodeLock.java:39-41 | the remove counter grows by `amount` |
| CountingList.Node.IncRemove | cp-2017-18-g55-hw2/src/cp/benchmark/intset/IntSetLinkedListPerNodeLock.java:43-45 | the remove counter grows by one |
| CountingList.NewList | cp-2017-18-g55-hw2/src/cp/benchmark/intset/IntSetLinkedListPerNodeLock.java:79-84 | head -> tail, every counter 0: ordered, balanced, and the empty set |
| CountingList.Locate | cp-2017-18-g55-hw2/src/cp/benchmark/intset/IntSetLinkedListPerNodeLock.java:91-101 | the hand-over-hand traversal (locks aside) ends at the same window as the plain one: `previous.next == next` and `previous.value < v <= next.value` |
| CountingList.SpliceSound | cp-2017-18-g55-hw2/src/cp/benchmark/intset/IntSetLinkedListPerNodeLock.java:103-109 | linking a node holding `v` in at the window is Insert and keeps the list well formed |
| CountingList.CutSound | cp-2017-18-g55-hw2/src/cp/benchmark/intset/IntSetLinkedListPerNodeLock.java:135-140 | unlinking the window's node holding `v` is Delete and keeps the list well formed |
| CountingList.TotalsAfterLink | cp-2017-18-g55-hw2/src/cp/benchmark/intset/IntSetLinkedListPerNodeLock.java:106-107 | after a link counted in the predecessor, the sum of the adds grows by one and the sum of the removes is unchanged |
| CountingList.TotalsAfterCut | cp-2017-18-g55-hw2/src/cp/benchmark/intset/IntSetLinkedListPerNodeLock.java:136-139 | after an unlink whose counters are folded into the predecessor and counted, the sum of the adds is unchanged and the sum of the removes grows by one |
| CountingList.Link | cp-2017-18-g55-hw2/src/cp/benchmark/intset/IntSetLinkedListPerNodeLock.java:106-107 | link a new node after `previous` and increment `previous.add`: chain and order kept, one more node, the set gains `value`; the add counters become `Linked(adds, i, 1)` and the remove counters `Linked(removes, i, 0)` (only `previous.add` changes, by one; the new node counts 0); sum of adds + 1 |
| CountingList.UnlinkThenFold | cp-2017-18-g55-hw2/src/cp/benchmark/intset/IntSetLinkedListPerNodeLock.java:136-139 | unlink `next`, increment `previous.remove`, add `next`'s counters into `previous`: chain kept, the set loses `value`; the add counters become `Folded(adds, i, 0)` and the remove counters `Folded(removes, i, 1)` (`previous` absorbs `next`'s counters and one more remove, every other node keeps its own); sum of adds unchanged, sum of removes + 1 |
| CountingList.FoldThenUnlink | cp-2017-18-g55-hw2/src/cp/benchmark/intset/IntSetLinkedListOptimisticPerNodeLock.java:133-136 | the same update in the order optimistic remove uses (fold, unlink, then count): the same per-node counters `Folded(adds, i, 0)` and `Folded(removes, i, 1)` and the same sums |
| CountingList.CheckCounts | cp-2017-18-g55-hw2/src/cp/benchmark/intset/IntSetLinkedListPerNodeLock.java:178-201 | the walk of validate() reports order exactly when the values strictly increase, and then counts every node and sums every node's counters, head and tail included |
| PerNodeLockList.IntSetLinkedListPerNodeLock.constructor | cp-2017-18-g55-hw2/src/cp/benchmark/intset/IntSetLinkedListPerNodeLock.java:79-84 | head -> tail, all counters 0: the empty set, balanced |
| PerNodeLockList.IntSetLinkedListPerNodeLock.Add | cp-2017-18-g55-hw2/src/cp/benchmark/intset/IntSetLinkedListPerNodeLock.java:86-116 | true exactly when `value` was absent; the set becomes S + {value}; on true the per-node add counters become `Linked(old adds, w, 1)` (the new node's predecessor, at `w`, counts one more add, the new node 0) and the remove counters `Linked(old removes, w, 0)`, sum of adds + 1; false changes nothing; order and 2 + sum(add) - sum(remove) == size kept |
| PerNodeLockList.IntSetLinkedListPerNodeLock.AddAt | cp-2017-18-g55-hw2/src/cp/benchmark/intset/IntSetLinkedListPerNodeLock.java:103-109 | at the window `(spine[i], spine[i + 1])`: false with no change exactly when `value` is present; otherwise link, with the counters `Linked(adds, i, 1)`, `Linked(removes, i, 0)`; the set becomes S + {value} |
| PerNodeLockList.IntSetLinkedListPerNodeLock.LinkAfter | cp-2017-18-g55-hw2/src/cp/benchmark/intset/IntSetLinkedListPerNodeLock.java:106-107 | a successful add: the ghost counter lists become `Linked(adds, i, 1)` and `Linked(removes, i, 0)`, the set gains `value`, sum of adds + 1, invariant kept |
| PerNodeLockList.IntSetLinkedListPerNodeLock.Remove | cp-2017-18-g55-hw2/src/cp/benchmark/intset/IntSetLinkedListPerNodeLock.java:118-148 | true exactly when `value` was present; the set becomes S - {value}; on true the counters become `Folded(old adds, w, 0)` and `Folded(old removes, w, 1)` (the predecessor at `w` absorbs the unlinked node's counters and counts the remove); sum of removes + 1; false changes nothing; invariant kept |
| PerNodeLockList.IntSetLinkedListPerNodeLock.RemoveAt | cp-2017-18-g55-hw2/src/cp/benchmark/intset/IntSetLinkedListPerNodeLock.java:135-141 | at the window: true exactly when `value` is present, with the counters `Folded(adds, i, 0)`, `Folded(removes, i, 1)`; false with no change otherwise; the set becomes S - {value} |
| PerNodeLockList.IntSetLinkedListPerNodeLock.UnlinkAfter | cp-2017-18-g55-hw2/src/cp/benchmark/intset/IntSetLinkedListPerNodeLock.java:135-140 | a successful remove: the counter lists become `Folded(adds, i, 0)` and `Folded(removes, i, 1)`; the set loses `value`; sum of removes + 1; invariant kept |
| PerNodeLockList.IntSetLinkedListPerNodeLock.Contains | cp-2017-18-g55-hw2/src/cp/benchmark/intset/IntSetLinkedListPerNodeLock.java:150-176 | the result is membership, and nothing changes |
| PerNodeLockList.IntSetLinkedListPerNodeLock.Validate | cp-2017-18-g55-hw2/src/cp/benchmark/intset/IntSetLinkedListPerNodeLock.java:178-202 | validate() passes exactly when the invariant holds: strictly increasing and 2 + sum(add) - sum(remove) == number of nodes |
| OptimisticPerNodeLockList.IntSetLinkedListOptimisticPerNodeLock.constructor | cp-2017-18-g55-hw2/src/cp/benchmark/intset/IntSetLinkedListOptimisticPerNodeLock.java:78-83 | head -> tail, all counters 0: the empty set, balanced |
| OptimisticPerNodeLockList.IntSetLinkedListOptimisticPerNodeLock.ValidateLogic | cp-2017-18-g55-hw2/src/cp/benchmark/intset/IntSetLinkedListOptimisticPerNodeLock.java:199-209 | the walk answers true exactly when `previous` is reachable and `previous.next == next` |
| OptimisticPerNodeLockList.IntSetLinkedListOptimisticPerNodeLock.Add | cp-2017-18-g55-hw2/src/cp/benchmark/intset/IntSetLinkedListOptimisticPerNodeLock.java:85-114 | the retry loop finishes; true exactly when `value` was absent; the set becomes S + {value}; on true the counters become `Linked(old adds, w, 1)` and `Linked(old removes, w, 0)`; false changes nothing; invariant kept |
| OptimisticPerNodeLockList.IntSetLinkedListOptimisticPerNodeLock.TryAdd | cp-2017-18-g55-hw2/src/cp/benchmark/intset/IntSetLinkedListOptimisticPerNodeLock.java:86-108 | one round: the unlocked traversal's window always passes validateLogic, so the round completes the add, with the same result, set and counters as Add |
| OptimisticPerNodeLockList.IntSetLinkedListOptimisticPerNodeLock.AddAt | cp-2017-18-g55-hw2/src/cp/benchmark/intset/IntSetLinkedListOptimisticPerNodeLock.java:101-107 | at a validated window: false with no change exactly when `value` is present; otherwise link, with counters `Linked(adds, i, 1)` and `Linked(removes, i, 0)`; the set becomes S + {value} |
| OptimisticPerNodeLockList.IntSetLinkedListOptimisticPerNodeLock.LinkAfter | cp-2017-18-g55-hw2/src/cp/benchmark/intset/IntSetLinkedListOptimisticPerNodeLock.java:104-105 | a successful add: counters `Linked(adds, i, 1)` and `Linked(removes, i, 0)`, the set gains `value`, invariant kept |
| OptimisticPerNodeLockList.IntSetLinkedListOptimisticPerNodeLock.Remove | cp-2017-18-g55-hw2/src/cp/benchmark/intset/IntSetLinkedListOptimisticPerNodeLock.java:116-145 | the retry loop finishes; true exactly when `value` was present; the set becomes S - {value}; on true the counters become `Folded(old adds, w, 0)` and `Folded(old removes, w, 1)`; invariant kept |
| OptimisticPerNodeLockList.IntSetLinkedListOptimisticPerNodeLock.TryRemove | cp-2017-18-g55-hw2/src/cp/benchmark/intset/IntSetLinkedListOptimisticPerNodeLock.java:117-139 | one round: validateLogic always passes, so the round completes the remove, with the same result, set and counters as Remove |
| OptimisticPerNodeLockList.IntSetLinkedListOptimisticPerNodeLock.RemoveAt | cp-2017-18-g55-hw2/src/cp/benchmark/intset/IntSetLinkedListOptimisticPerNodeLock.java:132-138 | at a validated window: true exactly when `value` is present, with counters `Folded(adds, i, 0)` and `Folded(removes, i, 1)`; false with no change otherwise |
| OptimisticPerNodeLockList.IntSetLinkedListOptimisticPerNodeLock.UnlinkAfter | cp-2017-18-g55-hw2/src/cp/benchmark/intset/IntSetLinkedListOptimisticPerNodeLock.java:133-136 | a successful remove: counters folded into `previous`, `next` unlinked, `previous.remove` + 1: the counter lists become `Folded(adds, i, 0)` and `Folded(removes, i, 1)`; sum of removes + 1 |
| OptimisticPerNodeLockList.IntSetLinkedListOptimisticPerNodeLock.Contains | cp-2017-18-g55-hw2/src/cp/benchmark/intset/IntSetLinkedListOptimisticPerNodeLock.java:147-172 | the retry loop finishes and the result is membership |
| OptimisticPerNodeLockList.IntSetLinkedListOptimisticPerNodeLock.Validate | cp-2017-18-g55-hw2/src/cp/benchmark/intset/IntSetLinkedListOptimisticPerNodeLock.java:174-197 | validate() passes exactly when the invariant holds: strictly increasing and 2 + sum(add) - sum(remove) == number of nodes |
| LazyList.Node.constructor | cp-2017-18-g55-hw2/src/cp/benchmark/intset/IntSetLinkedListLazyPerNodeLock.java:20-27 | a new node is unmarked, with zero counters |
| LazyList.Node.IncAdd | cp-2017-18-g55-hw2/src/cp/benchmark/intset/IntSetLinkedListLazyPerNodeLock.java:45-47 | the add counter grows by one |
| LazyList.Node.IncAmountAdd | cp-2017-18-g55-hw2/src/cp/benchmark/intset/IntSetLinkedListLazyPerNodeLock.java:49-51 | the add counter grows by `amount` |
| LazyList.Node.IncAmountRemove | cp-2017-18-g55-hw2/src/cp/benchmark/intset/IntSetLinkedListLazyPerNodeLock.java:53-55 | the remove counter grows by `amount` |
| LazyList.Node.IncRemove | cp-2017-18-g55-hw2/src/cp/benchmark/intset/IntSetLinkedListLazyPerNodeLock.java:57-59 | the remove counter grows by one |
| LazyList.Node.MarkNode | cp-2017-18-g55-hw2/src/cp/benchmark/intset/IntSetLinkedListLazyPerNodeLock.java:69-71 | the node becomes marked |
| LazyList.NewList | cp-2017-18-g55-hw2/src/cp/benchmark/intset/IntSetLinkedListLazyPerNodeLock.java:88-93 | head -> tail, unmarked, all counters 0: the empty set |
| LazyList.Locate | cp-2017-18-g55-hw2/src/cp/benchmark/intset/IntSetLinkedListLazyPerNodeLock.java:97-104 | the unlocked traversal ends at the window `previous.next == next`, `previous.value < v <= next.value` |
| LazyList.Link | cp-2017-18-g55-hw2/src/cp/benchmark/intset/IntSetLinkedListLazyPerNodeLock.java:114-115 | link an unmarked node after `previous` and count it: nothing marked, tail counts nothing, the set gains `value`; per-node counters `Linked(adds, i, 1)` and `Linked(removes, i, 0)`; sum of adds + 1 |
| LazyList.MarksAfterLink | cp-2017-18-g55-hw2/src/cp/benchmark/intset/IntSetLinkedListLazyPerNodeLock.java:114 | linking an unmarked node into an unmarked list leaves every reachable node unmarked |
| LazyList.MarkThenUnlink | cp-2017-18-g55-hw2/src/cp/benchmark/intset/IntSetLinkedListLazyPerNodeLock.java:145-149 | mark `next`, fold its counters into `previous`, unlink it, count the remove: `next` is marked and unreachable, every reachable node unmarked, the set loses `value`; per-node counters `Folded(adds, i, 0)` and `Folded(removes, i, 1)`; sum of removes + 1 |
| LazyList.FoldThenUnlink | cp-2017-18-g55-hw2/src/cp/benchmark/intset/IntSetLinkedListLazyPerNodeLock.java:146-149 | the fold, unlink and count after the mark: chain kept, every reachable node unmarked, the tail counts nothing; per-node counters `Folded(adds, i, 0)` and `Folded(removes, i, 1)` |
| LazyList.MarksAfterCut | cp-2017-18-g55-hw2/src/cp/benchmark/intset/IntSetLinkedListLazyPerNodeLock.java:148 | unlinking the one marked node leaves every reachable node unmarked |
| LazyList.TotalsAfterLink | cp-2017-18-g55-hw2/src/cp/benchmark/intset/IntSetLinkedListLazyPerNodeLock.java:114-115 | after a link counted in the predecessor, sum of adds + 1 and sum of removes unchanged |
| LazyList.TotalsAfterCut | cp-2017-18-g55-hw2/src/cp/benchmark/intset/IntSetLinkedListLazyPerNodeLock.java:146-149 | after the fold, unlink and count, sum of adds unchanged and sum of removes + 1 |
| LazyWalk.Scan | cp-2017-18-g55-hw2/src/cp/benchmark/intset/IntSetLinkedListLazyPerNodeLock.java:163-166 | the unlocked traversal of contains() stops at the first node whose value is not below `v` |
| LazyWalk.SkipMarked | cp-2017-18-g55-hw2/src/cp/benchmark/intset/IntSetLinkedListLazyPerNodeLock.java:180-181 | the inner loop of validate() stops at the first unmarked node, having passed only marked ones |
| LazyWalk.VisibleStep | cp-2017-18-g55-hw2/src/cp/benchmark/intset/IntSetLinkedListLazyPerNodeLock.java:184-197 | one round of validate()'s loop either fails, when the list it sees is out of order, or moves to the next unmarked node keeping the walk's state |
| LazyWalk.StartVisit | cp-2017-18-g55-hw2/src/cp/benchmark/intset/IntSetLinkedListLazyPerNodeLock.java:176-183 | the walk starts with the head's counters at the first unmarked node after the head |
| LazyWalk.VisitEnds | cp-2017-18-g55-hw2/src/cp/benchmark/intset/IntSetLinkedListLazyPerNodeLock.java:184-199 | at the tail, the walk has checked the order of every unmarked node and summed exactly the head's and the unmarked interior nodes' counters |
| LazyWalk.CheckVisible | cp-2017-18-g55-hw2/src/cp/benchmark/intset/IntSetLinkedListLazyPerNodeLock.java:171-199 | the walk reports order exactly when the unmarked nodes with the sentinels are strictly increasing, and then counts them and sums their counters |
| LazyWalk.WalkFails | cp-2017-18-g55-hw2/src/cp/benchmark/intset/IntSetLinkedListLazyPerNodeLock.java:187-188 | a value not above the previous one means the unmarked nodes are out of order |
| LazyWalk.WalkEnds | cp-2017-18-g55-hw2/src/cp/benchmark/intset/IntSetLinkedListLazyPerNodeLock.java:184-199 | at the tail, what the walk checked and summed is exactly the visible nodes and their counters |
| LazyWalk.VisibleAll | cp-2017-18-g55-hw2/src/cp/benchmark/intset/IntSetLinkedListLazyPerNodeLock.java:176-199 | with nothing marked and a tail that counts nothing, validate() sees and sums the whole list |
| LazyPerNodeLockList.IntSetLinkedListLazyPerNodeLock.constructor | cp-2017-18-g55-hw2/src/cp/benchmark/intset/IntSetLinkedListLazyPerNodeLock.java:88-93 | head -> tail, unmarked, all counters 0: the empty set |
| LazyPerNodeLockList.IntSetLinkedListLazyPerNodeLock.ValidateLogicMeansAdjacent | cp-2017-18-g55-hw2/src/cp/benchmark/intset/IntSetLinkedListLazyPerNodeLock.java:202-204 | between operations, validateLogic on two reachable nodes holds exactly when the second follows the first |
| LazyPerNodeLockList.IntSetLinkedListLazyPerNodeLock.Add | cp-2017-18-g55-hw2/src/cp/benchmark/intset/IntSetLinkedListLazyPerNodeLock.java:95-126 | the retry loop finishes; true exactly when `value` was absent; the set becomes S + {value}; on true the counters become `Linked(old adds, w, 1)` and `Linked(old removes, w, 0)`; no node marked and the counters balanced afterwards |
| LazyPerNodeLockList.IntSetLinkedListLazyPerNodeLock.TryAdd | cp-2017-18-g55-hw2/src/cp/benchmark/intset/IntSetLinkedListLazyPerNodeLock.java:96-118 | one round: validateLogic always passes, so the round completes the add, with the same result, set and counters as Add |
| LazyPerNodeLockList.IntSetLinkedListLazyPerNodeLock.AddAt | cp-2017-18-g55-hw2/src/cp/benchmark/intset/IntSetLinkedListLazyPerNodeLock.java:111-117 | at a validated window: false with no change exactly when `value` is present; otherwise link an unmarked node, with counters `Linked(adds, i, 1)` and `Linked(removes, i, 0)` |
| LazyPerNodeLockList.IntSetLinkedListLazyPerNodeLock.LinkAfter | cp-2017-18-g55-hw2/src/cp/benchmark/intset/IntSetLinkedListLazyPerNodeLock.java:114-115 | a successful add: an unmarked node linked in; counters `Linked(adds, i, 1)` and `Linked(removes, i, 0)` |
| LazyPerNodeLockList.IntSetLinkedListLazyPerNodeLock.Remove | cp-2017-18-g55-hw2/src/cp/benchmark/intset/IntSetLinkedListLazyPerNodeLock.java:128-160 | the retry loop finishes; true exactly when `value` was present; the set becomes S - {value}; on true the counters become `Folded(old adds, w, 0)` and `Folded(old removes, w, 1)`; every reachable node stays unmarked |
| LazyPerNodeLockList.IntSetLinkedListLazyPerNodeLock.TryRemove | cp-2017-18-g55-hw2/src/cp/benchmark/intset/IntSetLinkedListLazyPerNodeLock.java:129-152 | one round: validateLogic always passes, so the round completes the remove, with the same result, set and counters as Remove |
| LazyPerNodeLockList.IntSetLinkedListLazyPerNodeLock.RemoveAt | cp-2017-18-g55-hw2/src/cp/benchmark/intset/IntSetLinkedListLazyPerNodeLock.java:144-151 | at a validated window: true exactly when `value` is present, with `next` marked and unlinked and counters `Folded(adds, i, 0)` and `Folded(removes, i, 1)`; false with no change otherwise |
| LazyPerNodeLockList.IntSetLinkedListLazyPerNodeLock.UnlinkAfter | cp-2017-18-g55-hw2/src/cp/benchmark/intset/IntSetLinkedListLazyPerNodeLock.java:145-149 | a successful remove: `next` is marked, folded into `previous`, unlinked, and counted: counters `Folded(adds, i, 0)` and `Folded(removes, i, 1)`; invariant kept |
| LazyPerNodeLockList.IntSetLinkedListLazyPerNodeLock.Contains | cp-2017-18-g55-hw2/src/cp/benchmark/intset/IntSetLinkedListLazyPerNodeLock.java:162-169 | true exactly when the first node not below `value` holds it and is unmarked; between operations that is membership |
| LazyPerNodeLockList.IntSetLinkedListLazyPerNodeLock.Validate | cp-2017-18-g55-hw2/src/cp/benchmark/intset/IntSetLinkedListLazyPerNodeLock.java:171-200 | passes exactly when the unmarked nodes are ordered and 2 + their counters' sums == their number; between operations this is the invariant, so it passes |
| LockFreeNodes.Node.constructor | cp-2017-18-g55-hw2/src/cp/benchmark/intset/IntSetLinkedListLockFree.java:17-20 | a node holds the given value and (reference, mark) pair |
| LockFreeNodes.Node.CompareAndSet | cp-2017-18-g55-hw2/src/cp/benchmark/intset/IntSetLinkedListLockFree.java:84 | sequential compareAndSet: installs the new pair and returns true exactly when the field held the expected pair; otherwise changes nothing |
| LockFreeNodes.Node.AttemptMark | cp-2017-18-g55-hw2/src/cp/benchmark/intset/IntSetLinkedListLockFree.java:102 | sequential attemptMark: sets the mark and returns true exactly when the field holds the expected reference; otherwise changes nothing |
| LockFreeNodes.LastNodeIsTail | cp-2017-18-g55-hw2/src/cp/benchmark/intset/IntSetLinkedListLockFree.java:199-201 | in a well-formed list, isLastNode holds exactly of the tail |
| LockFreeNodes.Unlink | cp-2017-18-g55-hw2/src/cp/benchmark/intset/IntSetLinkedListLockFree.java:175 | the snip's CAS from (curr, unmarked) to (succ, unmarked) succeeds and removes exactly `curr` from the reachable nodes |
| LockFreeNodes.Snip | cp-2017-18-g55-hw2/src/cp/benchmark/intset/IntSetLinkedListLockFree.java:174-177 | one snip of a marked node keeps the live values and shortens the list |
| LockFreeNodes.SnipOne | cp-2017-18-g55-hw2/src/cp/benchmark/intset/IntSetLinkedListLockFree.java:174-187 | one round of the snip loop: unlink the marked node and either stop at the tail or read the next pair |
| LockFreeNodes.SnipMarked | cp-2017-18-g55-hw2/src/cp/benchmark/intset/IntSetLinkedListLockFree.java:174-188 | the snip loop unlinks every consecutive marked node; it ends at an unmarked field or, when the tail follows, returns the last snipped node with the tail |
| LockFreeNodes.FindStep | cp-2017-18-g55-hw2/src/cp/benchmark/intset/IntSetLinkedListLockFree.java:169-194 | one round of find()'s inner loop: stop at the tail or at an unmarked node not below `v`, or advance |
| LockFreeNodes.Walk | cp-2017-18-g55-hw2/src/cp/benchmark/intset/IntSetLinkedListLockFree.java:161-195 | find()'s walk ends at a window, after unlinking only marked nodes |
| LockFreeNodes.FindWindow | cp-2017-18-g55-hw2/src/cp/benchmark/intset/IntSetLinkedListLockFree.java:190-191 | when find stops at an unmarked node, its predecessor is unmarked and points to it unmarked |
| LockFreeNodes.FindDone | cp-2017-18-g55-hw2/src/cp/benchmark/intset/IntSetLinkedListLockFree.java:169-191 | when find stops, it has unlinked only marked nodes, so the live values are unchanged, and it stands at the window of `v` |
| LockFreeNodes.Find | cp-2017-18-g55-hw2/src/cp/benchmark/intset/IntSetLinkedListLockFree.java:153-197 | find returns a window: `previous.value < v <= next.value` (or `next` the tail), nothing before it marked; every marked node passed is unlinked and the live values are unchanged; with nothing marked it unlinks nothing; when a snip leaves the tail as successor it returns (that snipped node, tail) |
| LockFreeUpdates.WindowFindsLive | cp-2017-18-g55-hw2/src/cp/benchmark/intset/IntSetLinkedListLockFree.java:79-80 | at find's window, `v` is live exactly when the window's node holds it, so adding a present value and removing an absent one change nothing |
| LockFreeUpdates.WindowLive | cp-2017-18-g55-hw2/src/cp/benchmark/intset/IntSetLinkedListLockFree.java:79-80 | the same, on the nodes |
| LockFreeUpdates.LinkLive | cp-2017-18-g55-hw2/src/cp/benchmark/intset/IntSetLinkedListLockFree.java:82-84 | linking a new unmarked node in at the window adds exactly `v` to the live values |
| LockFreeUpdates.CutLive | cp-2017-18-g55-hw2/src/cp/benchmark/intset/IntSetLinkedListLockFree.java:108 | unlinking the window's node (marked by the remove) takes exactly `v` out of the live values |
| LockFreeUpdates.LinkNode | cp-2017-18-g55-hw2/src/cp/benchmark/intset/IntSetLinkedListLockFree.java:82-84 | the new node points (next, unmarked); the CAS succeeds exactly when `previous`'s field is unmarked, and then links the node in; otherwise nothing changes |
| LockFreeUpdates.LinkNew | cp-2017-18-g55-hw2/src/cp/benchmark/intset/IntSetLinkedListLockFree.java:79-88 | add's update: the CAS fails exactly when find returned a snipped node (marked field) and the tail, changing nothing; on success the live values gain `value` |
| LockFreeUpdates.MarkNode | cp-2017-18-g55-hw2/src/cp/benchmark/intset/IntSetLinkedListLockFree.java:101-102 | remove's attemptMark always succeeds: the node's own field becomes (succ, marked), nothing else changes |
| LockFreeUpdates.UnlinkMarked | cp-2017-18-g55-hw2/src/cp/benchmark/intset/IntSetLinkedListLockFree.java:108 | remove's unlink CAS succeeds: the marked node leaves the list, and the live values lose `value` |
| LockFreeWalk.Shifted | cp-2017-18-g55-hw2/src/cp/benchmark/intset/IntSetLinkedListLockFree.java:116-120 | a walk that reads the mark out of the field it follows holds, at each node, the mark of the node before; at the head, none |
| LockFreeWalk.Scan | cp-2017-18-g55-hw2/src/cp/benchmark/intset/IntSetLinkedListLockFree.java:116-120 | contains()'s walk stops at the first node not below `v`, holding the mark of the field it came through (the predecessor's) |
| LockFreeWalk.SkipFlagged | cp-2017-18-g55-hw2/src/cp/benchmark/intset/IntSetLinkedListLockFree.java:133-134 | validate()'s inner loop stops at the first node reached through an unmarked field |
| LockFreeWalk.SeenStep | cp-2017-18-g55-hw2/src/cp/benchmark/intset/IntSetLinkedListLockFree.java:137-148 | one round of validate()'s loop: fail when the values seen are out of order, otherwise count and move on |
| LockFreeWalk.CheckSeen | cp-2017-18-g55-hw2/src/cp/benchmark/intset/IntSetLinkedListLockFree.java:125-149 | the walk reports order exactly when the head's value and the values reached through unmarked fields strictly increase, and then counts those values |
| LockFreeWalk.ShownBreaks | cp-2017-18-g55-hw2/src/cp/benchmark/intset/IntSetLinkedListLockFree.java:139-140 | a value not above the last one seen means the values seen are out of order |
| LockFreeWalk.SeenUnmarked | cp-2017-18-g55-hw2/src/cp/benchmark/intset/IntSetLinkedListLockFree.java:125-150 | with nothing marked, validate() counts exactly the live values |
| LockFreeWalk.ContainsUnmarked | cp-2017-18-g55-hw2/src/cp/benchmark/intset/IntSetLinkedListLockFree.java:115-123 | with nothing marked, contains(v) is membership |
| LockFreeWalk.MarkedReadFromPredecessor | cp-2017-18-g55-hw2/src/cp/benchmark/intset/IntSetLinkedListLockFree.java:115-123 | with the node holding 1 marked in MIN, 1, 2, MAX, the live values are {2} but contains(1) is true, contains(2) is false and validate() counts 1: contains and validate read the predecessor's mark |
| IntSetSpec.InsertMembers | cp-2017-18-g55-hw2/src/cp/benchmark/intset/IntSetLinkedListSynchronized.java:59-61 | the members after Insert are exactly the old members and `v` |
| IntSetSpec.InsertBetween | cp-2017-18-g55-hw2/src/cp/benchmark/intset/IntSetLinkedListSynchronized.java:61 | inserting `v` between a part below it and a part above it puts it exactly there |
| IntSetSpec.InsertFound | cp-2017-18-g55-hw2/src/cp/benchmark/intset/IntSetLinkedListSynchronized.java:59-60 | inserting a value already present after a part below it changes nothing |
| IntSetSpec.DeleteFound | cp-2017-18-g55-hw2/src/cp/benchmark/intset/IntSetLinkedListSynchronized.java:80 | deleting a value that follows a part without it cuts out exactly that occurrence |
| CountingList.CountersAfterLink | cp-2017-18-g55-hw2/src/cp/benchmark/intset/IntSetLinkedListPerNodeLock.java:106-107 | after a link, each node's add and remove counters are the old ones, with the predecessor's add one higher and the new node's both 0 |
| CountingList.CountersAfterCut | cp-2017-18-g55-hw2/src/cp/benchmark/intset/IntSetLinkedListPerNodeLock.java:136-139 | after the unlink and fold, each remaining node keeps its counters except the predecessor, which absorbs the unlinked node's counters plus one remove |
| LazyList.SpliceSound | cp-2017-18-g55-hw2/src/cp/benchmark/intset/IntSetLinkedListLazyPerNodeLock.java:110-115 | linking a node holding `v` in at the window is Insert and keeps the list well formed |
| LazyList.CutSound | cp-2017-18-g55-hw2/src/cp/benchmark/intset/IntSetLinkedListLazyPerNodeLock.java:143-149 | unlinking the window's node holding `v` is Delete and keeps the list well formed |
| LazyList.CountersAfterLink | cp-2017-18-g55-hw2/src/cp/benchmark/intset/IntSetLinkedListLazyPerNodeLock.java:114-115 | after a link, the counters are the old ones with the predecessor's add one higher and the new node's 0 |
| LazyList.CountersAfterCut | cp-2017-18-g55-hw2/src/cp/benchmark/intset/IntSetLinkedListLazyPerNodeLock.java:146-149 | after the fold and unlink, the predecessor absorbs the unlinked node's counters plus one remove; the others keep theirs |
| LazyWalk.KeptValues | cp-2017-18-g55-hw2/src/cp/benchmark/intset/IntSetLinkedListLazyPerNodeLock.java:184-198 | the values of the unmarked nodes are the unmarked values |
| LazyWalk.KeptCounters | cp-2017-18-g55-hw2/src/cp/benchmark/intset/IntSetLinkedListLazyPerNodeLock.java:189-190 | the counters summed over the unmarked nodes are the sums of the unmarked counters |
| LazyWalk.VisibleValues | cp-2017-18-g55-hw2/src/cp/benchmark/intset/IntSetLinkedListLazyPerNodeLock.java:176-199 | the values validate() sees are the head's, the unmarked interior ones, and the tail's |
| LazyWalk.CountedSums | cp-2017-18-g55-hw2/src/cp/benchmark/intset/IntSetLinkedListLazyPerNodeLock.java:176-199 | the sums validate() computes are the head's counters plus those of the unmarked interior nodes |
| LazyWalk.OrderBreaks | cp-2017-18-g55-hw2/src/cp/benchmark/intset/IntSetLinkedListLazyPerNodeLock.java:187-188 | an unmarked value not above the last one seen leaves the visible values out of order |
| LazyWalk.WalkStep | cp-2017-18-g55-hw2/src/cp/benchmark/intset/IntSetLinkedListLazyPerNodeLock.java:189-197 | moving over one unmarked node and the marked nodes after it extends what has been checked and summed by exactly that node |
| LockFreeNodes.LiveIncreasing | cp-2017-18-g55-hw2/src/cp/benchmark/intset/IntSetLinkedListLockFree.java:125-151 | the live values of a strictly increasing list are strictly increasing |
| LockFreeNodes.LiveUnmarked | cp-2017-18-g55-hw2/src/cp/benchmark/intset/IntSetLinkedListLockFree.java:76-88 | with nothing marked, the live values are all the interior values |
| LockFreeNodes.SnipsKeepLive | cp-2017-18-g55-hw2/src/cp/benchmark/intset/IntSetLinkedListLockFree.java:174-188 | taking out any marked nodes after the head leaves the live values as they were |
| LockFreeNodes.FindKeepsLive | cp-2017-18-g55-hw2/src/cp/benchmark/intset/IntSetLinkedListLockFree.java:153-197 | the list find leaves behind (the marked nodes before its stop unlinked) has the same live values |
| LockFreeList.NewList | cp-2017-18-g55-hw2/src/cp/benchmark/intset/IntSetLinkedListLockFree.java:61-68 | head -> (tail, unmarked): nothing marked, no live values |
| LockFreeList.AddRound | cp-2017-18-g55-hw2/src/cp/benchmark/intset/IntSetLinkedListLockFree.java:71-88 | one round of add: it either ends (false exactly when `value` was live; the live values become S + {value}) or fails its CAS after find shortened the list, changing no live value; with nothing marked it always ends and leaves nothing marked |
| LockFreeList.RemoveRound | cp-2017-18-g55-hw2/src/cp/benchmark/intset/IntSetLinkedListLockFree.java:95-111 | one round of remove: true exactly when `value` was live; the live values become S - {value}; with nothing marked before, nothing is marked after |
| LockFreeList.DeleteNode | cp-2017-18-g55-hw2/src/cp/benchmark/intset/IntSetLinkedListLockFree.java:100-110 | mark the window's node, then unlink it: the live values lose `value` and the list is one node shorter |
| LockFreeList.SpliceUnmarked | cp-2017-18-g55-hw2/src/cp/benchmark/intset/IntSetLinkedListLockFree.java:83 | splicing an unmarked field into all-false marks keeps them all false |
| LockFreeList.CutUnmarked | cp-2017-18-g55-hw2/src/cp/benchmark/intset/IntSetLinkedListLockFree.java:108 | cutting a field out of all-false marks keeps them all false |
| LockFreeList.IntSetLinkedListLockFree.constructor | cp-2017-18-g55-hw2/src/cp/benchmark/intset/IntSetLinkedListLockFree.java:61-68 | head -> (tail, unmarked), adds == rems == 0: the empty set with nothing marked |
| LockFreeList.IntSetLinkedListLockFree.Add | cp-2017-18-g55-hw2/src/cp/benchmark/intset/IntSetLinkedListLockFree.java:70-90 | the loop finishes; true exactly when `value` was live; the set becomes S + {value}; adds + 1 exactly on true; adds - rems stays the number of live values; nothing marked stays nothing marked |
| LockFreeList.IntSetLinkedListLockFree.TryAdd | cp-2017-18-g55-hw2/src/cp/benchmark/intset/IntSetLinkedListLockFree.java:71-88 | one round: ends with the add done, or, after a failed CAS, with the same set on a shorter list |
| LockFreeList.IntSetLinkedListLockFree.Remove | cp-2017-18-g55-hw2/src/cp/benchmark/intset/IntSetLinkedListLockFree.java:92-113 | the loop finishes; true exactly when `value` was live; the set becomes S - {value}; rems + 1 exactly on true; adds - rems stays the number of live values |
| LockFreeList.IntSetLinkedListLockFree.TryRemove | cp-2017-18-g55-hw2/src/cp/benchmark/intset/IntSetLinkedListLockFree.java:95-111 | one round: it always completes the remove (the mark never fails) |
| LockFreeList.IntSetLinkedListLockFree.Contains | cp-2017-18-g55-hw2/src/cp/benchmark/intset/IntSetLinkedListLockFree.java:115-123 | the result is "the first node not below `value` holds it and the field leading to it is unmarked"; with nothing marked that is membership |
| LockFreeList.IntSetLinkedListLockFree.Validate | cp-2017-18-g55-hw2/src/cp/benchmark/intset/IntSetLinkedListLockFree.java:125-151 | passes exactly when the values reached through unmarked fields strictly increase and adds - rems is their number; with nothing marked it always passes |

## Left out

- Concurrency is out of scope: interleavings, linearizability, deadlock freedom, lock-freedom and the memory model. With one thread, every lock acquire and release is a no-op and is not modelled.
- `AtomicInteger` and `AtomicMarkableReference` are plain fields. `compareAndSet` and `attemptMark` are a sequential compare-then-write (`LockFreeNodes.Node.CompareAndSet`, `LockFreeNodes.Node.AttemptMark`).
- The retry branches that only another thread can trigger are not reached:
  - the failed `validateLogic` in optimistic and lazy add and remove (an `assert false` branch in `TryAdd`/`TryRemove`);
  - the `continue retry` of `find` after a failed snip;
  - the `continue` of lock-free remove after a failed `attemptMark`;
  - the failed unlink CAS of lock-free remove.

  Lock-free add's failed CAS is modelled, because `Valid()` admits marked nodes. It is reachable within one call only when another thread's remove has marked a node before the tail and not yet unlinked it: `find` then snips that node and returns it with the tail. With one thread no marked node stays linked: from a list with nothing marked, `AddRound` always ends, and `Quiescent()` is preserved.
- Integer width: values are mathematical integers bounded by `MIN_VALUE`/`MAX_VALUE`. The counters (`int` and `AtomicInteger` in the source) are unbounded, so their 32-bit wrap-around after 2^31 operations is not modelled.
- The `Set<Integer>` that each `validate` fills to detect duplicates is a Dafny `set<int>`. Java's `assert` in `validate` becomes the returned `ok` flag. The source's `validate` returns nothing and, with assertions disabled, checks nothing.
- Getters and setters (`getValue`, `getNext`, `setNext`, `getAdd` and so on) are field reads and writes. The `Window` class of the lock-free list is the pair that `LockFreeNodes.Find` returns.
- Not part of this model: commented-out code in the lock-free list, garbage collection of unlinked nodes, the benchmark driver and the `IntSet` interface.
- SynchronizedList.IntSetLinkedListSynchronized.Add: requires the argument strictly between the sentinels; the source also accepts a sentinel value, and `add(MIN_VALUE)` then breaks the order (`IntSetSpec.AddMinBreaksOrder`).
- SynchronizedList.IntSetLinkedListSynchronized.Remove: requires the argument strictly between the sentinels; the source also accepts a sentinel value, and `remove(MAX_VALUE)` then unlinks the tail (`IntSetSpec.RemoveMaxUnlinksTail`).
- SynchronizedList.IntSetLinkedListSynchronized.Contains: requires the argument strictly between the sentinels; for a sentinel value the source answers false (`MIN_VALUE`) or true (`MAX_VALUE`), which the model does not state.
- GlobalLockList.IntSetLinkedListGlobalLock.Add: requires the argument strictly between the sentinels; the source also accepts a sentinel value, and `add(MIN_VALUE)` then breaks the order (`IntSetSpec.AddMinBreaksOrder`).
- GlobalLockList.IntSetLinkedListGlobalLock.Remove: requires the argument strictly between the sentinels; the source also accepts a sentinel value, and `remove(MAX_VALUE)` then unlinks the tail (`IntSetSpec.RemoveMaxUnlinksTail`).
- GlobalLockList.IntSetLinkedListGlobalLock.Contains: requires the argument strictly between the sentinels; for a sentinel value the source answers false (`MIN_VALUE`) or true (`MAX_VALUE`), which the model does not state.
- GlobalRWLockList.IntSetLinkedListGlobalRWLock.Add: requires the argument strictly between the sentinels; the source also accepts a sentinel value, and `add(MIN_VALUE)` then breaks the order (`IntSetSpec.AddMinBreaksOrder`).
- GlobalRWLockList.IntSetLinkedListGlobalRWLock.Remove: requires the argument strictly between the sentinels; the source also accepts a sentinel value, and `remove(MAX_VALUE)` then unlinks the tail (`IntSetSpec.RemoveMaxUnlinksTail`).
- GlobalRWLockList.IntSetLinkedListGlobalRWLock.Contains: requires the argument strictly between the sentinels; for a sentinel value the source answers false (`MIN_VALUE`) or true (`MAX_VALUE`), which the model does not state.
- PerNodeLockList.IntSetLinkedListPerNodeLock.Add: requires the argument strictly between the sentinels; the source also accepts a sentinel value, and `add(MIN_VALUE)` then breaks the order (`IntSetSpec.AddMinBreaksOrder`).
- PerNodeLockList.IntSetLinkedListPerNodeLock.Remove: requires the argument strictly between the sentinels; the source also accepts a sentinel value, and `remove(MAX_VALUE)` then unlinks the tail (`IntSetSpec.RemoveMaxUnlinksTail`).
- PerNodeLockList.IntSetLinkedListPerNodeLock.Contains: requires the argument strictly between the sentinels; for a sentinel value the source answers false (`MIN_VALUE`) or true (`MAX_VALUE`), which the model does not state.
- OptimisticPerNodeLockList.IntSetLinkedListOptimisticPerNodeLock.Add: requires the argument strictly between the sentinels; the source also accepts a sentinel value, and `add(MIN_VALUE)` then breaks the order (`IntSetSpec.AddMinBreaksOrder`).
- OptimisticPerNodeLockList.IntSetLinkedListOptimisticPerNodeLock.Remove: requires the argument strictly between the sentinels; the source also accepts a sentinel value, and `remove(MAX_VALUE)` then unlinks the tail (`IntSetSpec.RemoveMaxUnlinksTail`).
- OptimisticPerNodeLockList.IntSetLinkedListOptimisticPerNodeLock.Contains: requires the argument strictly between the sentinels; for a sentinel value the source answers false (`MIN_VALUE`) or true (`MAX_VALUE`), which the model does not state.
- LazyPerNodeLockList.IntSetLinkedListLazyPerNodeLock.Add: requires the argument strictly between the sentinels; the source also accepts a sentinel value, and `add(MIN_VALUE)` then breaks the order (`IntSetSpec.AddMinBreaksOrder`).
- LazyPerNodeLockList.IntSetLinkedListLazyPerNodeLock.Remove: requires the argument strictly between the sentinels; the source also accepts a sentinel value, and `remove(MAX_VALUE)` then marks and unlinks the tail, leaving its predecessor's successor null (`IntSetSpec.RemoveMaxUnlinksTail`).
- LockFreeList.IntSetLinkedListLockFree.Add: requires the argument strictly between the sentinels; the source also accepts a sentinel value, and `add(MIN_VALUE)` then breaks the order (`IntSetSpec.AddMinBreaksOrder`).
- LockFreeList.IntSetLinkedListLockFree.Remove: requires the argument strictly between the sentinels; the source also accepts a sentinel value, and `remove(MAX_VALUE)` then throws a `NullPointerException`: `find` returns the tail (lines 169-170), the tail's `m_next` is null (lines 22-24 and 63), and line 101 calls `getReference()` on it.
- LazyPerNodeLockList.IntSetLinkedListLazyPerNodeLock.Validate: requires the tail unmarked, which the source's inner skip loop needs so as not to dereference the tail's null successor.
- LockFreeList.IntSetLinkedListLockFree.Validate: requires the field leading to the tail unmarked, for the same reason.
- LockFreeList.IntSetLinkedListLockFree.TryRemove: counts `rems` after the unlink CAS instead of between the mark and the CAS; with one thread, the order is not observable.
- OptimisticPerNodeLockList.IntSetLinkedListOptimisticPerNodeLock.ValidateLogic: requires `previous.value < MAX_VALUE`, which every caller meets; called with the tail, the source walk would run off the list.
- The lock-free tail's field is the pair (null, unmarked); the model never marks it.
