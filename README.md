# CircleNode in Dafny

A model of `CircleNode<T>` from the `utils` module of the grandsages
repository. It is a circular doubly-linked list. A `head` node starts it,
and the last node links back to head. Each node is a `DataNode` with an
element and `next`/`prev` links. Appends, insertions after a position,
removal from the end or at a position, lookup by position, and four
fail-fast traversals are its operations. A sparse index speeds up the
lookup: every `INDEX_INTERVAL`-th node is recorded in a growable array,
and a lookup starts its walk from the nearest recorded node.

Modules, one per concern:

- `JavaInt` (`java_int.dfy`): Java's truncating `int` division, and the
  facts about Dafny's Euclidean `/` and `%` that the proofs use.
- `Traversal` (`traversal.dfy`): the order in which a clockwise or
  counter-clockwise walk meets the elements. Also `Delivered`, which says
  what a fail-fast traversal hands to its visitor before it raises.
- `CircleNodes` (`circle_node.dfy`): the classes `DataNode` and
  `CircleNode`, with the source's fields (`head`, `size`, `index`,
  `nextIndex`, `modifyCount`, and `INDEX_INTERVAL` as the constant
  `interval`). Two ghost fields describe the ring:
  - `Nodes` lists the live nodes in `next` order from head.
  - `Known` holds every node that ever had both links set. A stale index
    slot may still point at one of these.
  
  `Valid()` ties the links to `Nodes`. `IndexSound()` says the index is
  as appends leave it. `IndexConsistent()` says every filled slot holds
  the node at its position. Every operation is a method proved against
  these.
- `StaleHead` (`stale_head.dfy`): `removeLast` and the static `add`
  exactly as written, on values, for the first finding below.
- `Scenarios` (`scenarios.dfy`): client runs. These include the unit
  test's lookups around a removal, the odd-interval lookup as written
  and as corrected, the empty list, and an emptied list appended to again.

In these places the code behaves differently from what a circular list
would be expected to do, and the model follows the code:

- Appending to an empty list leaves the new node's links null; they are
  not linked to the node itself. The model calls this state `Unlinked()`.
- `removeLast` on an empty list does not bump the modification count.
- After `removeLast`, the index upkeep clears slots from
  `(newSize - 1) / interval` on. This includes a still-live slot when
  `(oldSize - 1) % interval == 0`. After that, the index is consistent
  but no longer as appends leave it. The one exception is interval 1 with
  a single element: the start slot `-1 / 1` is negative, nothing is
  cleared, and slot 0 keeps the removed node.
- For an odd interval the lookup steps back one node too few from the
  following index slot (see Findings). `Overreaches(p)` says when that
  happens, and `Reached(p)` is the position the lookup then actually
  reaches: `p + 1` where it overreaches, `p` otherwise. Lookups, addAfter
  and removeAt are stated in terms of `Reached(p)`; `LocatedCorrected` is
  the lookup as evidently intended, proved right for every interval.

There is one exception, listed under Findings, where the class model
follows the evident intent and a separate member models the code as
written: the code leaves `head` on the removed node when `removeLast`
empties the list. The class model clears `head` there, and so do
`DetachTail`, `DropTail` and `RemoveAt`, which reach that path.

## Model

| member | source | states |
|---|---|---|
| JavaInt.JavaDiv | utils/src/main/java/com/grandsages/utils/CircleNode.java:188 | Java's `position / INDEX_INTERVAL`: the Euclidean quotient for a non-negative dividend, zero for a small negative one |
| JavaInt.JavaDivTowardZero | utils/src/main/java/com/grandsages/utils/CircleNode.java:188 | the Java quotient rounds toward zero: it lies within one divisor of the dividend, on zero's side |
| Traversal.Pos | utils/src/main/java/com/grandsages/utils/CircleNode.java:105-125 | the position a walk from head reaches at each step always lies in the ring |
| Traversal.Order | utils/src/main/java/com/grandsages/utils/CircleNode.java:105-145 | a walk of `time` steps meets exactly `time` elements |
| Traversal.PosStep | utils/src/main/java/com/grandsages/utils/CircleNode.java:105-125 | each step goes to the next position clockwise or the previous one counter-clockwise, wrapping at the ends |
| Traversal.OrderClockwiseRound | utils/src/main/java/com/grandsages/utils/CircleNode.java:105-114 | one clockwise round meets the elements in list order |
| Traversal.OrderCounterClockwiseRound | utils/src/main/java/com/grandsages/utils/CircleNode.java:116-125 | one counter-clockwise round meets head, then the others from the last back to the second |
| Traversal.OrderRepeats | utils/src/main/java/com/grandsages/utils/CircleNode.java:127-145 | a walk longer than the list goes round again: step i + n meets what step i met |
| Traversal.DeliveredFrom | utils/src/main/java/com/grandsages/utils/CircleNode.java:105-114 | one loop iteration: the visitor gets the element, then the traversal raises if the visit changed the list and goes on otherwise |
| Traversal.DeliveredAll | utils/src/main/java/com/grandsages/utils/CircleNode.java:105-114 | a visitor that never changes the list gets every element in order, and nothing raises |
| Traversal.DeliveredUntil | utils/src/main/java/com/grandsages/utils/CircleNode.java:105-114 | if the first visit to change the list is at step m, the visitor gets steps 0..m and the traversal raises |
| Traversal.DeliveredPrefix | utils/src/main/java/com/grandsages/utils/CircleNode.java:105-114 | what is delivered is always a prefix of the walk, and the traversal raises exactly when some visit changes the list |
| CircleNodes.DataNode.constructor | utils/src/main/java/com/grandsages/utils/CircleNode.java:281-282 | a new node holds its element and has no links yet |
| CircleNodes.ValuesInsert | utils/src/main/java/com/grandsages/utils/CircleNode.java:62-69 | splicing a node into the ring inserts its element at that position of the element sequence |
| CircleNodes.ValuesRemove | utils/src/main/java/com/grandsages/utils/CircleNode.java:96-99 | unlinking a node deletes its element from that position of the element sequence |
| CircleNodes.FirstEmpty | utils/src/main/java/com/grandsages/utils/CircleNode.java:190-192 | the index upkeep stops at the first empty slot: every slot before it is filled |
| CircleNodes.FirstEmptyAt | utils/src/main/java/com/grandsages/utils/CircleNode.java:190-192 | the upkeep's stop is exactly the first null slot, or the end of the array |
| CircleNodes.GrownLength | utils/src/main/java/com/grandsages/utils/CircleNode.java:220-225 | the index array grows by half its length, and by at least one slot |
| CircleNodes.ConsistentAfterTruncate | utils/src/main/java/com/grandsages/utils/CircleNode.java:183-201 | removeLast's upkeep of an index left by appends leaves every filled slot on the node at its position, except for interval 1 with a single element, where nothing is cleared |
| CircleNodes.ConsistentAfterRemoval | utils/src/main/java/com/grandsages/utils/CircleNode.java:183-201 | moving each slot from the removed position on to its successor keeps an index left by appends consistent |
| CircleNodes.SoundAfterAppend | utils/src/main/java/com/grandsages/utils/CircleNode.java:209-218 | checkIndex after an append keeps the index as appends leave it: one slot per full interval |
| CircleNodes.SoundAfterRegister | utils/src/main/java/com/grandsages/utils/CircleNode.java:214-218 | registering the node that completes an interval fills exactly the next slot |
| CircleNodes.SoundAfterSkip | utils/src/main/java/com/grandsages/utils/CircleNode.java:209-212 | an append that completes no interval needs no slot |
| CircleNodes.CircleNode.constructor | utils/src/main/java/com/grandsages/utils/CircleNode.java:22 | the default list is empty and valid, with interval 1000 and count zero |
| CircleNodes.CircleNode.WithInterval | utils/src/main/java/com/grandsages/utils/CircleNode.java:24-26 | a list with the given interval is empty and valid |
| CircleNodes.CircleNode.GetSize | utils/src/main/java/com/grandsages/utils/CircleNode.java:151-153 | the size counter equals the number of elements |
| CircleNodes.CircleNode.GetLastPosition | utils/src/main/java/com/grandsages/utils/CircleNode.java:179-181 | the last position is the number of elements minus one, negative exactly when the list is empty |
| CircleNodes.CircleNode.GetTailNode | utils/src/main/java/com/grandsages/utils/CircleNode.java:310-312 | head's `prev` is the last node, or null while the single node is unlinked |
| CircleNodes.CircleNode.NeighboursAt | utils/src/main/java/com/grandsages/utils/CircleNode.java:326-335 | in a linked ring each node's `next` is the following position and `prev` the preceding, wrapping around |
| CircleNodes.CircleNode.TailLink | utils/src/main/java/com/grandsages/utils/CircleNode.java:310-312 | head's `prev` is the node at the last position |
| CircleNodes.CircleNode.FindIndex | utils/src/main/java/com/grandsages/utils/CircleNode.java:203-207 | a slot beyond the array is null; a filled slot k of an index left by appends holds the node at position (k + 1) * interval - 1 |
| CircleNodes.CircleNode.GrowIndexSize | utils/src/main/java/com/grandsages/utils/CircleNode.java:220-225 | the new array keeps every old slot and adds empty ones |
| CircleNodes.CircleNode.AddIndex | utils/src/main/java/com/grandsages/utils/CircleNode.java:214-218 | the node goes into slot nextIndex, growing the array when it is full; nothing else changes |
| CircleNodes.CircleNode.CheckIndex | utils/src/main/java/com/grandsages/utils/CircleNode.java:209-212 | a node that brings the size to a multiple of the interval is registered, and no other node is |
| CircleNodes.CircleNode.Attach | utils/src/main/java/com/grandsages/utils/CircleNode.java:276-303 | the new node becomes the last of the ring; head is kept, or set to the new node on an empty list |
| CircleNodes.CircleNode.LinkPair | utils/src/main/java/com/grandsages/utils/CircleNode.java:288-303 | the second element links the unlinked head and the new node into a ring of two |
| CircleNodes.CircleNode.Add | utils/src/main/java/com/grandsages/utils/CircleNode.java:276-308 | appending adds the element at the end and keeps head (setting it on an empty list); the size and the count grow by one; the index stays as appends leave it |
| CircleNodes.CircleNode.AddAll | utils/src/main/java/com/grandsages/utils/CircleNode.java:45-49 | appending a sequence leaves the old elements followed by the new ones, one count per element |
| CircleNodes.CircleNode.CreateByValues | utils/src/main/java/com/grandsages/utils/CircleNode.java:38-43 | a new list holds exactly the given values, with an index as appends leave it |
| CircleNodes.CircleNode.ForwardAt | utils/src/main/java/com/grandsages/utils/CircleNode.java:262-267 | d `next` steps from position i reach position (i + d) mod n |
| CircleNodes.CircleNode.BackwardAt | utils/src/main/java/com/grandsages/utils/CircleNode.java:269-274 | d `prev` steps from position i reach position (i - d) mod n |
| CircleNodes.CircleNode.CycleClosure | utils/src/main/java/com/grandsages/utils/CircleNode.java:262-274 | n steps either way around a ring of n nodes return to the start |
| CircleNodes.CircleNode.FindByClockWise | utils/src/main/java/com/grandsages/utils/CircleNode.java:262-267 | the walk follows `next` dist times; zero or fewer steps return the start |
| CircleNodes.CircleNode.FindByCounterClockWise | utils/src/main/java/com/grandsages/utils/CircleNode.java:269-274 | the walk follows `prev` dist times; zero or fewer steps return the start |
| CircleNodes.CircleNode.LookupSlot | utils/src/main/java/com/grandsages/utils/CircleNode.java:241-242 | the slot a lookup starts from covers the interval that holds the position |
| CircleNodes.CircleNode.SoundIsConsistent | utils/src/main/java/com/grandsages/utils/CircleNode.java:209-218 | an index left by appends is consistent |
| CircleNodes.CircleNode.LocatedFromSlot | utils/src/main/java/com/grandsages/utils/CircleNode.java:241-259 | starting from a filled slot and walking clockwise reaches the position |
| CircleNodes.CircleNode.LocatedFromNextSlot | utils/src/main/java/com/grandsages/utils/CircleNode.java:250-257 | stepping back `half - (d - half)` nodes from the following filled slot reaches `Reached(p)`: position p, or p + 1 for an odd interval |
| CircleNodes.CircleNode.LocatedReached | utils/src/main/java/com/grandsages/utils/CircleNode.java:233-260 | with a consistent index, a lookup that finds a node finds the one at `Reached(p)` |
| CircleNodes.CircleNode.LocatedAfterAppends | utils/src/main/java/com/grandsages/utils/CircleNode.java:233-260 | on a list built by appends, the lookup never hits null and returns the node at `Reached(p)`, which is p for interval 1 or an even interval |
| CircleNodes.CircleNode.LocatedOddOverreach | utils/src/main/java/com/grandsages/utils/CircleNode.java:250-257 | with an odd interval, a position past the half-interval whose next slot is filled is looked up one node too far, at p + 1 |
| CircleNodes.CircleNode.LocatedCorrect | utils/src/main/java/com/grandsages/utils/CircleNode.java:233-260 | the lookup as evidently intended, stepping back `interval - d`: with a consistent index, for every interval, a node it finds is the one at the position |
| CircleNodes.CircleNode.LocatedCorrectedAgrees | utils/src/main/java/com/grandsages/utils/CircleNode.java:250-257 | for an even interval or interval 1 the lookup as written and the corrected one agree |
| CircleNodes.CircleNode.FindSpecificNode | utils/src/main/java/com/grandsages/utils/CircleNode.java:233-260 | null beyond the last position and head for a negative one; on a list built by appends, the node at `Reached(p)` |
| CircleNodes.CircleNode.At | utils/src/main/java/com/grandsages/utils/CircleNode.java:147-149 | at(p) is the lookup: null beyond the end, and the node at `Reached(p)` on a list built by appends |
| CircleNodes.CircleNode.InsertedAt | utils/src/main/java/com/grandsages/utils/CircleNode.java:51-61 | where addAfter puts the new element always lies within the list or at its end |
| CircleNodes.CircleNode.InsertedAtPosition | utils/src/main/java/com/grandsages/utils/CircleNode.java:51-61 | on a list built by appends addAfter(p) inserts right after `Reached(p)` for every position p (at p + 1 for interval 1 or an even interval), and a negative position goes after head |
| CircleNodes.CircleNode.Relink | utils/src/main/java/com/grandsages/utils/CircleNode.java:62-69 | the four link writes put the new node between current and its successor and change no other link |
| CircleNodes.CircleNode.Splice | utils/src/main/java/com/grandsages/utils/CircleNode.java:62-70 | the new node enters the ring right after current, and the size grows by one |
| CircleNodes.CircleNode.InsertAfter | utils/src/main/java/com/grandsages/utils/CircleNode.java:62-72 | the element goes in right after current; head stays, the size and count grow by one, and the index is updated as by an append |
| CircleNodes.CircleNode.AddAfter | utils/src/main/java/com/grandsages/utils/CircleNode.java:51-73 | the element goes in at the insertion point the lookup picks (the end when the position is past it); the other elements keep their order |
| CircleNodes.CircleNode.InsertOrAppend | utils/src/main/java/com/grandsages/utils/CircleNode.java:51-73 | with no node found the element is appended; otherwise it goes in right after the found node |
| CircleNodes.CircleNode.AddAfterPosition | utils/src/main/java/com/grandsages/utils/CircleNode.java:51-73 | on a list built by appends addAfter(p) puts the element right after `Reached(p)` (at p + 1 for interval 1 or an even interval) and keeps all others in order; head stays, the size and the count grow by one |
| CircleNodes.CircleNode.AdjustIndexAfter | utils/src/main/java/com/grandsages/utils/CircleNode.java:183-201 | slots from position / interval up to the first empty one move on to their node's successor, or empty when the removed position was the last or that successor is head; all others are unchanged |
| CircleNodes.CircleNode.Bypass | utils/src/main/java/com/grandsages/utils/CircleNode.java:96-99 | the removed node's neighbours link to each other, and no other link changes |
| CircleNodes.CircleNode.Unlink | utils/src/main/java/com/grandsages/utils/CircleNode.java:96-100 | the node leaves the ring, head stays, and the size drops by one; the removed node keeps its own links |
| CircleNodes.CircleNode.DetachTail | utils/src/main/java/com/grandsages/utils/CircleNode.java:78-83 | the last node leaves the ring, keeping its own links, and head stays; a list emptied this way has no head |
| CircleNodes.CircleNode.TrimIndex | utils/src/main/java/com/grandsages/utils/CircleNode.java:84 | removeLast's upkeep empties slots from (newSize - 1) / interval, in Java division, up to the first empty one |
| CircleNodes.CircleNode.RemoveLast | utils/src/main/java/com/grandsages/utils/CircleNode.java:75-86 | nothing changes on an empty list; otherwise the last element goes, its node keeps its own links, and the count grows; head stays unless the list empties, when it is cleared; an index left by appends stays consistent except for interval 1 with a single element |
| CircleNodes.CircleNode.DropTail | utils/src/main/java/com/grandsages/utils/CircleNode.java:76-84 | the last element of a non-empty list goes, its node keeping its own links, with its index upkeep; head stays unless the list empties, when it is cleared; an index left by appends stays consistent except for interval 1 with a single element |
| CircleNodes.CircleNode.UnlinkAndShift | utils/src/main/java/com/grandsages/utils/CircleNode.java:96-101 | the node leaves the ring and the index slots move as adjustIndexAfter says |
| CircleNodes.CircleNode.RemoveNode | utils/src/main/java/com/grandsages/utils/CircleNode.java:96-102 | the node's element leaves the list, the node keeps its own links, and the count grows by one; an index left by appends stays consistent when the node is at the position, or one past it where the position is not the last of its slot's stretch |
| CircleNodes.CircleNode.RemovalPoint | utils/src/main/java/com/grandsages/utils/CircleNode.java:88-95 | the node removeAt unlinks is a live one, and never head unless the position is the last |
| CircleNodes.CircleNode.RemovedAtPosition | utils/src/main/java/com/grandsages/utils/CircleNode.java:88-103 | on a list built by appends removeAt(p) removes position `Reached(p)` for every p from 1 on: p for interval 1 or an even interval |
| CircleNodes.CircleNode.OverreachLeavesRoom | utils/src/main/java/com/grandsages/utils/CircleNode.java:188-197 | where the lookup overreaches, p is not the last position of its slot's stretch, so the upkeep from slot p / interval covers the removed p + 1 |
| CircleNodes.CircleNode.RemovalCovered | utils/src/main/java/com/grandsages/utils/CircleNode.java:88-102 | on a list built by appends, the node removeAt(p) unlinks sits where the upkeep from slot p / interval covers it |
| CircleNodes.CircleNode.HeadNotRemovable | utils/src/main/java/com/grandsages/utils/CircleNode.java:94-99 | removeAt(0) on a list of two or more would unlink head without moving it, so it is outside the model |
| CircleNodes.CircleNode.SlotSuccessor | utils/src/main/java/com/grandsages/utils/CircleNode.java:193-197 | after a removal at or before a slot's position, the slot's node moves to the node now at its old position, or empties at the end |
| CircleNodes.CircleNode.ShiftedToSuccessors | utils/src/main/java/com/grandsages/utils/CircleNode.java:183-201 | removeAt's index upkeep leaves every filled slot on the node at its position |
| CircleNodes.CircleNode.RemoveFound | utils/src/main/java/com/grandsages/utils/CircleNode.java:93-102 | a position that is not the last: the looked-up node's element is removed, or nothing changes when the lookup finds none |
| CircleNodes.CircleNode.RemoveAt | utils/src/main/java/com/grandsages/utils/CircleNode.java:88-103 | the last position goes through removeLast; otherwise the looked-up element goes; the removed node keeps its own links; on a list built by appends position `Reached(p)` goes and the index stays consistent; head is cleared when the list empties |
| CircleNodes.CircleNode.WalkStep | utils/src/main/java/com/grandsages/utils/CircleNode.java:105-145 | following `next` (or `prev`) from step i's node reaches step i + 1's node |
| CircleNodes.CircleNode.Walk | utils/src/main/java/com/grandsages/utils/CircleNode.java:127-145 | the loop delivers what Delivered says for the walk's order, and a raise is exactly one extra count |
| CircleNodes.CircleNode.ForEachNext | utils/src/main/java/com/grandsages/utils/CircleNode.java:105-114 | the visitor gets the elements in list order until a visit changes the list |
| CircleNodes.CircleNode.ForEachPrev | utils/src/main/java/com/grandsages/utils/CircleNode.java:116-125 | the visitor gets one counter-clockwise round until a visit changes the list |
| CircleNodes.CircleNode.ForEachNextIn | utils/src/main/java/com/grandsages/utils/CircleNode.java:127-135 | the visitor gets `time` clockwise steps, going round as often as needed, until a visit changes the list |
| CircleNodes.CircleNode.ForEachPrevIn | utils/src/main/java/com/grandsages/utils/CircleNode.java:137-145 | the visitor gets `time` counter-clockwise steps until a visit changes the list |
| StaleHead.RawAdd | utils/src/main/java/com/grandsages/utils/CircleNode.java:276-308 | the static add as written: one more node and a size one larger, and head is set only on an empty list |
| StaleHead.RawRemoveLast | utils/src/main/java/com/grandsages/utils/CircleNode.java:75-86 | removeLast as written: the size drops, unless it is already zero, and head is never cleared |
| StaleHead.Walked | utils/src/main/java/com/grandsages/utils/CircleNode.java:127-135 | a walk of `count` steps meets at most `count` elements |
| StaleHead.Visible | utils/src/main/java/com/grandsages/utils/CircleNode.java:105-114 | forEachNext shows at most `size` elements |
| StaleHead.AppendTwo | utils/src/main/java/com/grandsages/utils/CircleNode.java:276-308 | two appends to the empty list link the two nodes to each other both ways |
| StaleHead.RemoveTwice | utils/src/main/java/com/grandsages/utils/CircleNode.java:75-86 | two removeLast calls on a two-element list leave size 0 with head on the first node |
| StaleHead.TwoLinkedShows | utils/src/main/java/com/grandsages/utils/CircleNode.java:105-114 | the two-element list shows both elements in order |
| StaleHead.EmptiedThenAppendShows | utils/src/main/java/com/grandsages/utils/CircleNode.java:276-308 | appending to that emptied list shows the removed first element, not the new one |
| StaleHead.StaleHeadResurrects | utils/src/main/java/com/grandsages/utils/CircleNode.java:75-86 | add a, add b, removeLast twice, add c: the list shows [a] |
| Scenarios.Build | utils/src/main/java/com/grandsages/utils/CircleNode.java:45-49 | a new list with the given interval holds the given values, with an index as appends leave it |
| Scenarios.ElementAt | utils/src/main/java/com/grandsages/utils/CircleNode.java:147-149 | at(p).getData() is the element at `Reached(p)` on a list built by appends: at p for interval 1 or an even interval |
| Scenarios.LookupAroundRemoval | utils/src/test/java/com/grandsages/AppTest.java:20-25 | interval 10 and values 1 to 20: at(6) is 7 and at(19) is 20; after removeAt(10), at(10) is 12 |
| Scenarios.RemoveThenLookup | utils/src/test/java/com/grandsages/AppTest.java:24-25 | removeAt(10) on that list, then at(10), gives 12 |
| Scenarios.OddIntervalLookup | utils/src/main/java/com/grandsages/utils/CircleNode.java:250-257 | with interval 3 and values 1 to 6, at(4) gives 6, the element at position 5; the corrected lookup gives 5 |
| Scenarios.EmptiedThenAppend | utils/src/main/java/com/grandsages/utils/CircleNode.java:75-86 | with the corrected removeLast, two elements removed and one appended show just the new one |
| Scenarios.EmptyNoOps | utils/src/main/java/com/grandsages/utils/CircleNode.java:75-95 | on an empty list removeLast and removeAt(0) change nothing, and at(0) is null |

## Left out

- `size` is an `AtomicInteger` in the source; here it is a plain integer, and concurrent callers are not modelled.
- `modifyCount` (a `long`) and every `int` are unbounded here. Java overflow of `position + 1`, of the size, or of the index length is not modelled.
- The `System.out.println()` at position 20 in `adjustIndexAfter` (CircleNode.java:184-186) is output only and is left out.
- `toString` of the list and of `DataNode` build display strings and are left out.
- `NodeFunction` (NodeFunction.java:3-6) is a predicate `mutates(step, element)`. It says whether the visit changed the list. A visit that changes the list bumps `modifyCount` by one, and what it does to the list is otherwise not modelled. `ConcurrentModificationException` is the `failed` result.
- `goHead` just returns `head` and is inlined.
- `getData`, `getNext` and `getPrev` are plain field reads.
- In `Add`, `InsertAfter` and `RemoveNode` the count is bumped before the links change, whereas the source bumps it last. Nothing reads the count in between.
- CircleNodes.CircleNode.WithInterval: requires an interval of at least 1. A zero interval divides by zero at CircleNode.java:188, :211 and :242.
- CircleNodes.CircleNode.FindSpecificNode: requires `LookupSafe`, excluding a lookup that walks clockwise from an empty index slot (a null dereference). That happens after removals, because `nextIndex` never decreases. The `Integer` position is an `Option<int>`, and `None` (a null position) yields null, as in the source.
- CircleNodes.CircleNode.At: requires `LookupSafe`, as FindSpecificNode does.
- CircleNodes.CircleNode.AddAfter: `InsertableAt` excludes the cases that dereference null (an unsafe lookup, and a one-node list whose links are still null), and a lookup that lands on a removed node through a stale slot, which the source accepts and which corrupts the ring. Its index contract states only what checkIndex does. Slots after the insertion point are not shifted and go stale, as in the source. A null `Integer` position, which fails when unboxed at CircleNode.java:52, is not modelled: the position is an `int`.
- CircleNodes.CircleNode.RemoveLast: requires the list not to be a single unlinked node, where `tail.getPrev()` dereferences null (CircleNode.java:79-80). It clears head when it empties the list, unlike the source (see Findings).
- CircleNodes.CircleNode.DetachTail: clears head when it empties the list, unlike the source (see Findings).
- CircleNodes.CircleNode.DropTail: clears head when it empties the list, unlike the source (see Findings).
- CircleNodes.CircleNode.RemoveAt: `RemovableAt` excludes the cases the source gets wrong or crashes on:
  - removeAt(0) on two or more elements, which unlinks head without moving it;
  - a negative position on a non-empty list, which the lookup resolves to head, with the same effect;
  - removing a stale node found through the index;
  - a position from 1 on whose lookup reaches head through a slot made stale by addAfter (for example interval 2, add 1 to 4, addAfter(0, 5), addAfter(0, 6), removeAt(4)), with the same effect as removeAt(0);
  - the null-dereference cases.
  
  A null `Integer` position is not modelled, because the position is an `int`. When removeAt(0) empties a one-element list through removeLast, head is cleared, unlike the source (see Findings).
- CircleNodes.CircleNode.ForEachNextIn: requires no steps on an empty list, and on an unlinked single node either at most one step or a first visit that changes the list (the source then raises before it dereferences the null link). A null `Integer` count, which fails when unboxed at CircleNode.java:130, is not modelled: the count is an `int`.
- CircleNodes.CircleNode.ForEachPrevIn: the same restrictions as ForEachNextIn (the null count throws at CircleNode.java:140).
- CircleNodes.CircleNode.AdjustIndexAfter: requires every filled slot's node to have a `next` link. That holds for every reachable list except an unlinked single node on interval 1, whose slot 0 holds a node with no links.
- StaleHead: the value model leaves out the index and the modification count.

## Findings

| source | as written | input that shows it | evidently intended | confidence | as-written member | corrected member |
|---|---|---|---|---|---|---|
| utils/src/main/java/com/grandsages/utils/CircleNode.java:75-86 | removeLast on a one-element list drops the size to 0 but leaves `head` on the removed node | add(a), add(b), removeLast(), removeLast(), add(c), then forEachNext shows [a] | emptying the list clears `head`, so the walk shows [c] | not executed | StaleHead.StaleHeadResurrects | CircleNodes.CircleNode.RemoveLast |
| utils/src/main/java/com/grandsages/utils/CircleNode.java:250-257 | from the next slot the lookup steps back `half - (d - half)`, which for an odd interval is one step fewer than the `interval - d` needed | interval 3, values 1 to 6, at(4) returns the node holding 6 (position 5) | step back `interval - d` nodes | not executed | CircleNodes.CircleNode.LocatedOddOverreach | CircleNodes.CircleNode.LocatedCorrect |
