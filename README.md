# Linear containers of the Data-Structure-Navigator core

This project models, in Dafny, the four generic containers that a data
structure visualiser is built on, and proves what their operations do:

- `ArrayList.ArrayDS` — the array-backed list (`src/core/ArrayDS.ts`):
  insert, delete and update at an index, first-match find, bounds-checked get.
- `LinkedList.LinkedListDS` with `LinkedList.ListNode` — the singly linked
  list (`src/core/LinkedListDS.ts`): a chain of heap nodes with `head`,
  `tail` and a cached `count`, rewired in place by append, insert and delete.
- `Queue.QueueDS` — the FIFO queue over a resizable array (`src/core/QueueDS.ts`).
- `Stack.StackDS` — the LIFO stack over a resizable array (`src/core/StackDS.ts`).
- `Common` — what the four share: `Option` for the `null`/`undefined`
  sentinels, the first-match search (`indexOf`) and the two `splice` shapes
  as sequence functions with element-wise contracts.

Each container is a class. Every constructor takes `initialData` as an
optional argument that defaults to the empty sequence, as in the source.
The resizable JavaScript arrays behind
`ArrayDS`, `QueueDS` and `StackDS` are `seq<T>` fields that the methods
reassign. The linked list keeps real `ListNode` objects whose `next` fields
are rewired in place, plus three ghost fields: `Contents` (the elements, head
first), `Nodes` (the chain's nodes, head first) and `Repr` (the footprint).
`Valid()` is the representation invariant: the nodes are distinct (so there is
no cycle), node k holds element k and links to node k + 1, `head` is the first
node, `tail` the last one with a null `next`, and `head`, `tail` are null
exactly when `count` is zero. Every mutator requires and re-establishes it.

The failure convention: an out-of-range index or an empty container gives
`None` (or `false`) and the state stays as it was; every such case is an `ensures`.
The "should not happen" branches inside the linked list's walking loops
(`src/core/LinkedListDS.ts:70-79`, `107-118`, `153-155`) appear as
`if … { assert false; }`: the verifier proves them unreachable under `Valid()`.
The node rewiring is written as four methods. The head cases of `Insert` and
`Delete` call `LinkHead` and `UnlinkHead` directly; the middle and tail cases
walk to the predecessor first and then call `LinkAfter` and `UnlinkAfter`.
This keeps each proof obligation small.

Client methods show that the contracts compose: `Queue.FifoOrder`,
`Stack.LifoOrder`, `Stack.PushThenPop`, `LinkedList.AppendThenDrain`,
`LinkedList.ClearTwice`, `ArrayList.InsertThenGet`, `ArrayList.DeleteThenInsert`.

`ArrayDS.get` logs a bounds error for an out-of-range index
(src/core/ArrayDS.ts:50), while `LinkedListDS.get` returns `null` without one
(src/core/LinkedListDS.ts:148-150); diagnostics are not modelled, so both give
`None`.

## Model

| member | source | states |
|---|---|---|
| Common.FirstIndex | src/core/ArrayDS.ts:33-35 | `indexOf`: the result is the least index holding `x`, or -1 exactly when `x` does not occur |
| Common.FirstIndexUnique | src/core/LinkedListDS.ts:132-144 | the first-match answer is unique, so both `find`s are determined by their contracts |
| Common.InsertAt | src/core/ArrayDS.ts:19 | `splice(i, 0, x)`: length grows by one, `x` is at `i`, earlier elements stay, later ones shift right by one |
| Common.RemoveAt | src/core/ArrayDS.ts:29 | `splice(i, 1)`: length shrinks by one, earlier elements stay, later ones shift left by one |
| Common.RemoveAfterInsert | src/core/ArrayDS.ts:14-30 | deleting at `i` right after inserting at `i` restores the sequence |
| Common.InsertAfterRemove | src/core/ArrayDS.ts:14-30 | re-inserting a deleted element at its index restores the sequence |
| ArrayList.ArrayDS.constructor | src/core/ArrayDS.ts:4-6 | the list starts as a copy of `initialData`, which defaults to empty |
| ArrayList.ArrayDS.GetElements | src/core/ArrayDS.ts:9-11 | the snapshot equals the contents, in index order |
| ArrayList.ArrayDS.Insert | src/core/ArrayDS.ts:14-21 | succeeds iff `0 <= index <= size`; then contents are `InsertAt(old, index, x)`, else unchanged |
| ArrayList.ArrayDS.Delete | src/core/ArrayDS.ts:24-30 | succeeds iff `0 <= index < size`; then returns `old[index]` and contents are `RemoveAt(old, index)`, else `None` and unchanged |
| ArrayList.ArrayDS.Find | src/core/ArrayDS.ts:33-35 | the least index holding `x`, or -1 when absent |
| ArrayList.ArrayDS.Update | src/core/ArrayDS.ts:38-45 | succeeds iff `0 <= index < size`; size kept, only position `index` changes and only on success |
| ArrayList.ArrayDS.Get | src/core/ArrayDS.ts:48-54 | `Some(data[index])` iff the index is in range, `None` otherwise |
| ArrayList.ArrayDS.Size | src/core/ArrayDS.ts:57-59 | the number of elements |
| ArrayList.ArrayDS.Clear | src/core/ArrayDS.ts:62-64 | contents become empty |
| ArrayList.InsertThenGet | src/core/ArrayDS.ts:14-54 | for a valid index, `get(i)` after `insert(i, x)` answers `x`, and the size grows by one |
| ArrayList.DeleteThenInsert | src/core/ArrayDS.ts:14-30 | deleting at a valid index answers the old element, and inserting it back restores the list |
| LinkedList.ListNode.constructor | src/core/LinkedListDS.ts:2-10 | a new node holds the value and has no successor |
| LinkedList.LinkedListDS.WalkFromHead | src/core/LinkedListDS.ts:12-15 | walking k < count links from `head` reaches node k, count - 1 links reach `tail`, count links reach null |
| LinkedList.LinkedListDS.Acyclic | src/core/LinkedListDS.ts:12-15 | under the invariant no node links to itself or to an earlier node |
| LinkedList.LinkedListDS.constructor | src/core/LinkedListDS.ts:17-22 | appending the items of `initialData` in order gives a valid list whose contents are `initialData`, which defaults to empty |
| LinkedList.LinkedListDS.GetElements | src/core/LinkedListDS.ts:25-33 | walking the chain collects exactly the contents, head first |
| LinkedList.LinkedListDS.Append | src/core/LinkedListDS.ts:36-46 | contents become `old + [x]`; on an empty list head and tail are the same new node, otherwise the old tail links to the new tail; the invariant holds |
| LinkedList.LinkedListDS.Insert | src/core/LinkedListDS.ts:49-86 | succeeds iff `0 <= index <= count`; then contents are `InsertAt(old, index, x)`, else nothing changes; the invariant holds |
| LinkedList.LinkedListDS.LinkHead | src/core/LinkedListDS.ts:60-65 | a new head on a non-empty list: contents `InsertAt(old, 0, x)`, tail unchanged, invariant kept |
| LinkedList.LinkedListDS.LinkAfter | src/core/LinkedListDS.ts:66-84 | a new node after the node at `index - 1`: contents `InsertAt(old, index, x)`, tail unchanged, invariant kept |
| LinkedList.LinkedListDS.Delete | src/core/LinkedListDS.ts:89-130 | succeeds iff `0 <= index < count`; then returns `old[index]` and contents are `RemoveAt(old, index)`, an emptied list has null head and tail, removing the last node makes its predecessor the tail; else `None` and nothing changes |
| LinkedList.LinkedListDS.UnlinkHead | src/core/LinkedListDS.ts:97-102 | removes the head and returns its value; the tail becomes null when the list empties and stays otherwise |
| LinkedList.LinkedListDS.UnlinkAfter | src/core/LinkedListDS.ts:114-128 | removes the successor of the node at `index - 1` and returns its value; that node becomes the tail iff the removed node was the tail |
| LinkedList.LinkedListDS.Find | src/core/LinkedListDS.ts:133-144 | the least index whose node holds `x`, or -1 when absent |
| LinkedList.LinkedListDS.Get | src/core/LinkedListDS.ts:147-159 | `Some(Contents[index])` iff the index is in range, `None` otherwise |
| LinkedList.LinkedListDS.Size | src/core/LinkedListDS.ts:162-164 | the cached count equals the number of elements |
| LinkedList.LinkedListDS.Clear | src/core/LinkedListDS.ts:167-171 | empty contents, null head and tail, zero count, from any valid state |
| LinkedList.AppendThenDrain | src/core/LinkedListDS.ts:36-130 | appending items and then deleting at 0 until empty yields them in insertion order |
| LinkedList.ClearTwice | src/core/LinkedListDS.ts:162-171 | two clears in a row both leave size 0 |
| Queue.QueueDS.constructor | src/core/QueueDS.ts:4-6 | the queue starts as a copy of `initialData`, which defaults to empty |
| Queue.QueueDS.Enqueue | src/core/QueueDS.ts:9-11 | contents become `old + [x]` |
| Queue.QueueDS.Dequeue | src/core/QueueDS.ts:14-20 | empty: `None`, still empty; otherwise returns `old[0]` and leaves `old[1..]` |
| Queue.QueueDS.Front | src/core/QueueDS.ts:23-29 | `Some(data[0])` iff non-empty |
| Queue.QueueDS.Rear | src/core/QueueDS.ts:32-38 | `Some(data[size - 1])` iff non-empty |
| Queue.QueueDS.IsEmpty | src/core/QueueDS.ts:41-43 | true iff the size is 0 |
| Queue.QueueDS.Size | src/core/QueueDS.ts:46-48 | the number of elements |
| Queue.QueueDS.Clear | src/core/QueueDS.ts:51-53 | contents become empty |
| Queue.QueueDS.GetElements | src/core/QueueDS.ts:56-58 | the snapshot lists the elements front to rear |
| Queue.FifoOrder | src/core/QueueDS.ts:9-20 | enqueueing x1..xn into an empty queue and dequeueing n times yields x1..xn |
| Stack.StackDS.constructor | src/core/StackDS.ts:4-6 | the stack starts as a copy of `initialData`, which defaults to empty |
| Stack.StackDS.Push | src/core/StackDS.ts:9-11 | contents become `old + [x]` |
| Stack.StackDS.Pop | src/core/StackDS.ts:14-20 | empty: `None`, still empty; otherwise returns the last element and leaves `old[..size - 1]` |
| Stack.StackDS.Peek | src/core/StackDS.ts:23-29 | `Some` of the last element iff non-empty |
| Stack.StackDS.IsEmpty | src/core/StackDS.ts:32-34 | true iff the size is 0 |
| Stack.StackDS.Size | src/core/StackDS.ts:37-39 | the number of elements |
| Stack.StackDS.Clear | src/core/StackDS.ts:42-44 | contents become empty |
| Stack.StackDS.GetElements | src/core/StackDS.ts:47-49 | the snapshot lists the elements bottom to top |
| Stack.PushThenPop | src/core/StackDS.ts:9-20 | `pop()` right after `push(x)` answers `x` and restores the previous contents |
| Stack.LifoOrder | src/core/StackDS.ts:9-20 | pushing x1..xn onto an empty stack and popping n times yields xn..x1 |

## Left out

- Diagnostics: the `console.error` messages on failure are not modelled. A failure shows only as `None` or `false` with the state unchanged.
- Sentinels: `null` and `undefined` become `None`. This also covers element types that include `null` or `undefined`, where the source's result would be ambiguous.
- Copies: `getElements` and the constructors copy a JavaScript array. Here they pass around `seq` values, which cannot alias, so the "no aliasing" promise holds by construction and is not a separate contract.
- `LinkedListDS.getHead` (src/core/LinkedListDS.ts:174-176): it hands out an internal node and so breaks encapsulation. It is not modelled.
- JavaScript number semantics: indices are `int` and `count` is `nat`. Non-integer indices, `NaN`, and counts beyond 2^53 are not modelled. Elements are compared with Dafny equality (`T(==)`), standing in for `===`/`indexOf`, so the `NaN` behaviour is not captured.
- `ListNode.value` is public and mutable in the source, but no core operation writes it after construction. Writes from outside the class are not modelled.
- Inline rewiring: in `insert` and `delete` of the source, the rewiring is written inline. Here it sits in `LinkHead`/`LinkAfter`/`UnlinkHead`/`UnlinkAfter`, which allocate or unlink the same nodes in the same order.
- The service worker (`public/sw.js`) and the application bootstrap (`src/main.ts`) are outside this model. They are browser plumbing with no container logic.
