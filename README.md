# Singly linked list and LRU cache

A Dafny model of two Java classes and the proofs about them.

- `IUSingleLinkedList<T>` is an indexed, unsorted singly linked list with a fail-fast iterator.
- `Cache<E>` is a single-level least-recently-used (LRU) cache built on that list. Its `search` moves a hit to the front, and on a miss it inserts the word at the front and evicts the last element when the cache is full.

## How the code is modelled

**Modules.**

| module | file | contents |
|---|---|---|
| `Exceptions` | `exceptions.dfy` | The Java exceptions, as values: `NoSuchElement`, `IndexOutOfBounds`, `IllegalState`, `ConcurrentModification`. A method that can throw returns a `Result<T>` (`Ok(value)` or `Err(exception)`). A `void` method that can throw returns an `Outcome` (`Done` or `Failed(exception)`). A call that throws changes nothing. |
| `ListSpec` | `list_spec.dfy` | Specification functions on sequences: the first position of an element, insertion at and removal from a position, and the text `toString` builds. Also the lemmas relating them. |
| `SingleLinkedList` | `linked_list.dfy` | The list class and its iterator class. |
| `CacheModel` | `cache_model.dfy` | The cache as functions on its observable state (list contents, `cnt`, `size`), with the properties of the cache. |
| `LruCache` | `cache.dfy` | The cache class. Each method is proved to follow the corresponding `CacheModel` function. Also the driver loop that totals the hits of a word trace. |
| `AddAfterAsWritten` | `add_after_as_written.dfy` | `addAfter` exactly as written, on an explicit heap of nodes (see Findings). |

**The list.** A list object has three fields:
- `elems: seq<T>`, the elements from head (position 0) to tail (position `size - 1`);
- `size`;
- `modCount`.

`Valid()` says `size == |elems|`.

Every node walk of the Java code is a loop over positions. Each loop keeps the same branches and the same exit test as the Java loop, except addAfter's, which stops at the first match (see Findings). Each method states its new `elems` as a sequence expression of the old contents: `ListSpec.InsertAt`, `ListSpec.RemoveAt` or `ListSpec.IndexOf`, or a prepend, append, slice or update. The lemmas in `ListSpec` relate those functions: insertion followed by removal is the identity, removal drops one copy of one element, and so on.

After `removeFirst` or `remove(0)` empties a list, the Java `tail` field still points at the removed node. Nothing reads `tail` while the list is empty, and every add path resets it. So the model, which takes the tail to be the last position, loses nothing there.

**The iterator.** `SLLIterator` keeps a reference to its list. Its `nextNode` is a position; the value `|elems|` stands for `null`. Like the Java iterator:
- it fails fast on a `modCount` mismatch;
- in `remove` it checks the mismatch before `canRemove`;
- its `remove` has the same three branches as the Java code: single element, first element, and a walk to the predecessor.

**The cache.** A cache object holds `cnt`, `size` and `list`.

`clearCache` is reproduced as written: it installs a new empty list and does not reset `cnt`. The class invariant is chosen to survive that: it is `CacheModel.Bounded`, meaning `|list| <= cnt <= size` when `size >= 0`. The stronger `cnt == |list|` (`CacheModel.Inv`) holds for every sequence of calls that has no `clearCache`; see `CacheModel.ReplayKeepsInv`. `CacheModel.ClearedFullCacheDropsAdds` proves what follows from that: a full cache, once cleared, evicts every object it is given.

## Model

| member | source | states |
|---|---|---|
| `SingleLinkedList.IUSingleLinkedList.constructor` | IUSingleLinkedList.java:20-24 | A new list is empty, with `modCount` 0. |
| `SingleLinkedList.IUSingleLinkedList.AddToFront` | IUSingleLinkedList.java:26-42 | The element becomes the head and the rest follow in order. Size and `modCount` grow by one. |
| `SingleLinkedList.IUSingleLinkedList.AddToRear` | IUSingleLinkedList.java:44-60 | The element becomes the tail after the old elements. Size and `modCount` grow by one. |
| `SingleLinkedList.IUSingleLinkedList.Add` | IUSingleLinkedList.java:62-78 | Same as addToRear: the element is appended. |
| `SingleLinkedList.IUSingleLinkedList.AddAfter` | IUSingleLinkedList.java:80-101 | Intended behaviour (see Findings). The element is inserted right after the first occurrence of the target, and `modCount` grows. When the target is absent: NoSuchElement, and nothing changes. |
| `SingleLinkedList.IUSingleLinkedList.AddAt` | IUSingleLinkedList.java:103-135 | For `0 <= index <= size`, the element lands at `index` and the others keep their order. Otherwise: IndexOutOfBounds, and nothing changes. |
| `SingleLinkedList.IUSingleLinkedList.RemoveFirst` | IUSingleLinkedList.java:137-147 | Returns the head and drops it. On an empty list: NoSuchElement, and nothing changes. |
| `SingleLinkedList.IUSingleLinkedList.RemoveLast` | IUSingleLinkedList.java:149-169 | Returns the tail and drops it; the walk stops at the tail's predecessor. On an empty list: NoSuchElement. |
| `SingleLinkedList.IUSingleLinkedList.Remove` | IUSingleLinkedList.java:171-209 | Removes the first occurrence and returns the element. When the element is absent, or the list is empty: NoSuchElement, and nothing changes. |
| `SingleLinkedList.IUSingleLinkedList.RemoveAtIndex` | IUSingleLinkedList.java:211-247 | For `0 <= index < size`, returns the element at `index` and removes just that one. Otherwise: IndexOutOfBounds. |
| `SingleLinkedList.IUSingleLinkedList.Set` | IUSingleLinkedList.java:249-267 | Replaces the element at `index` only, and `modCount` grows. An index out of range gives IndexOutOfBounds. |
| `SingleLinkedList.IUSingleLinkedList.Get` | IUSingleLinkedList.java:269-288 | Returns the element at `index`; an index out of range gives IndexOutOfBounds. The list is not changed. |
| `SingleLinkedList.IUSingleLinkedList.IndexOf` | IUSingleLinkedList.java:290-308 | Returns -1 exactly when the element is absent. Otherwise returns a position holding it, with no earlier occurrence. |
| `SingleLinkedList.IUSingleLinkedList.First` | IUSingleLinkedList.java:310-319 | Returns the head; on an empty list, NoSuchElement. |
| `SingleLinkedList.IUSingleLinkedList.Last` | IUSingleLinkedList.java:321-330 | Returns the tail; on an empty list, NoSuchElement. |
| `SingleLinkedList.IUSingleLinkedList.Contains` | IUSingleLinkedList.java:332-335 | True exactly when the element occurs. |
| `SingleLinkedList.IUSingleLinkedList.IsEmpty` | IUSingleLinkedList.java:337-344 | True exactly when the list has no elements. |
| `SingleLinkedList.IUSingleLinkedList.Size` | IUSingleLinkedList.java:346-349 | Returns the number of elements. |
| `SingleLinkedList.IUSingleLinkedList.ToString` | IUSingleLinkedList.java:356-372 | Renders `[]` for an empty list. Otherwise renders the elements separated by ` , `, with the last followed by ` ]`. |
| `SingleLinkedList.IUSingleLinkedList.Iterator` | IUSingleLinkedList.java:374-377 | A new iterator on this list: at the head, in step with `modCount`, nothing to remove. |
| `SingleLinkedList.SLLIterator.constructor` | IUSingleLinkedList.java:396-400 | Starts at the head, records the list's `modCount`, and `canRemove` is false. |
| `SingleLinkedList.SLLIterator.HasNext` | IUSingleLinkedList.java:402-408 | ConcurrentModification on a `modCount` mismatch. Otherwise, whether elements remain. |
| `SingleLinkedList.SLLIterator.Next` | IUSingleLinkedList.java:410-419 | Fails with ConcurrentModification on a `modCount` mismatch, or NoSuchElement at the end; the iterator is then unchanged. Otherwise returns the next element, advances one position and allows `remove`. |
| `SingleLinkedList.SLLIterator.Remove` | IUSingleLinkedList.java:421-449 | ConcurrentModification first, then IllegalState when `canRemove` is false; nothing changes in either case. Otherwise removes exactly the element last returned. The position steps back, `canRemove` is cleared, and the list's and the iterator's `modCount` advance together. |
| `ListSpec.IndexOf` | IUSingleLinkedList.java:290-308 | The reference first position: -1 exactly when the element is absent, otherwise a position holding it with no earlier copy. |
| `ListSpec.IndexOfIsFirst` | IUSingleLinkedList.java:290-308 | A position holding the element, with no earlier copy, is the one IndexOf returns. |
| `ListSpec.InsertAt` | IUSingleLinkedList.java:103-135 | Insertion at a position: one longer, the element at that position, elements before it unchanged, elements after it shifted by one. |
| `ListSpec.RemoveAt` | IUSingleLinkedList.java:211-247 | Removal at a position: one shorter, elements before it unchanged, elements after it shifted back by one. |
| `ListSpec.InsertAtEnds` | IUSingleLinkedList.java:26-60 | Insertion at 0 is prepending (addToFront); insertion at the length is appending (addToRear). |
| `ListSpec.RemoveAfterInsert` | IUSingleLinkedList.java:103-135 | Removing at the position just inserted at gives back the original list. |
| `ListSpec.InsertAfterRemove` | IUSingleLinkedList.java:211-247 | Re-inserting the removed element where it was gives back the original list. |
| `ListSpec.RemoveAtMultiset` | IUSingleLinkedList.java:171-247 | Removal takes away exactly one copy of the removed element. |
| `ListSpec.NoDupRemoveAt` | IUSingleLinkedList.java:171-209 | Removal from a list without duplicates leaves no copy of the removed element and no duplicates. |
| `ListSpec.NoDupCons` | IUSingleLinkedList.java:26-42 | Putting an absent element at the front keeps a list free of duplicates. |
| `ListSpec.Joined` | IUSingleLinkedList.java:361-366 | The text the `toString` loop appends: each element's text followed by ` , `, in list order; at least three characters when the list is nonempty. `ListSpec.JoinedSnoc` states how one pass extends it. |
| `ListSpec.Render` | IUSingleLinkedList.java:356-372 | The text `toString` builds: `[`, the joined elements, the last two characters deleted when there was an element, then `]`. Its shape is stated by `ListSpec.RenderShape`, and both `ToString` methods return it. |
| `ListSpec.JoinedSnoc` | IUSingleLinkedList.java:356-366 | The element text and the separator are appended once per element, in list order. |
| `ListSpec.RenderShape` | IUSingleLinkedList.java:356-372 | The rendered text: `[]` for an empty list; otherwise each element before the last followed by ` , `, then the last element and ` ]`. |
| `CacheModel.Empty` | Cache.java:24-29 | The state of `new Cache(size)`: an empty list, `cnt` 0, capacity `size`. Its properties are `CacheModel.EmptyInv`. |
| `CacheModel.RemoveLast` | Cache.java:56-60 | The state after removeLast on a nonempty list: the back element dropped, `cnt` one less. Its properties are `CacheModel.RemoveLastKeepsInv` and the eviction clause of `CacheModel.AddObjectEvictsOnlyTail`. |
| `CacheModel.AddObject` | Cache.java:36-42 | The state after addObject: `e` pushed at the front, removeLast when `cnt` had reached `size`, then `cnt` one more. Its properties are `CacheModel.AddObjectEvictsOnlyTail`, `AddObjectKeepsInv` and `AddObjectKeepsBounded`. |
| `CacheModel.RemoveObject` | Cache.java:50-54 | The state after removeObject of a present element: its first occurrence dropped, `cnt` one less. Its properties are `CacheModel.RemoveObjectDropsFirstOccurrence` and `RemoveObjectKeepsInv`. |
| `CacheModel.MoveToFront` | Cache.java:65-68 | The state after moveToFront of a present element: removeObject, then addObject. Its properties are `CacheModel.MoveToFrontPromotes`. |
| `CacheModel.ClearCache` | Cache.java:73-75 | The state after clearCache: an empty list, `cnt` and `size` kept. Its properties are `CacheModel.ClearCacheBreaksInv`, `ClearedFullCacheDropsAdds` and `ClearCacheKeepsBounded`. |
| `CacheModel.Search` | Cache.java:84-94 | The state and hit count after search: moveToFront and 1 on a hit, addObject and 0 on a miss. Its properties are `CacheModel.SearchSpec` and the lemmas after it. |
| `CacheModel.Apply` | Cache.java:36-94 | The state after one public call: addObject, removeObject, removeLast, moveToFront, search or clearCache as their functions give it; a call that throws NoSuchElement (absent element, empty list) leaves the state unchanged. Its properties are `CacheModel.ReplayKeepsInv` and `ReplayKeepsBounded`. |
| `CacheModel.Replay` | Cache.java:36-94 | The state after a sequence of public calls, applied in order. Its properties are `CacheModel.ReplayKeepsInv` and `ReplayKeepsBounded`. |
| `CacheModel.SearchAll` | Test.java:101-106 | The hits of a word trace number between 0 and the length of the trace. |
| `CacheModel.EmptyInv` | Cache.java:24-29 | A new cache, of any capacity, is empty and satisfies `cnt == |list|` (and `cnt <= size` when `size >= 0`). |
| `CacheModel.AddObjectEvictsOnlyTail` | Cache.java:36-42 | In every state, a cleared cache included: an addObject at capacity puts `e` at the front, evicts exactly the old back element, and keeps `cnt`. For an empty list at capacity (capacity 0, or a full cache cleared), nothing remains. Below capacity: nothing is evicted and `cnt` grows by one. |
| `CacheModel.AddObjectKeepsInv` | Cache.java:36-42 | addObject keeps `cnt == |list| <= size`. |
| `CacheModel.AddObjectKeepsBounded` | Cache.java:36-42 | addObject keeps `|list| <= cnt <= size`. |
| `CacheModel.RemoveObjectDropsFirstOccurrence` | Cache.java:50-54 | removeObject drops only the first copy of `e`: one copy fewer, and the elements before and after it unchanged in order. `cnt` is one less. |
| `CacheModel.RemoveObjectKeepsInv` | Cache.java:50-54 | removeObject of a present element keeps `cnt == |list| <= size`. |
| `CacheModel.RemoveLastKeepsInv` | Cache.java:56-60 | removeLast on a nonempty cache keeps `cnt == |list| <= size`. |
| `CacheModel.MoveToFrontPromotes` | Cache.java:65-68 | In every state with `|list| <= cnt <= size`, a cleared cache included: moveToFront of a present element leaves the same elements and the same `cnt`. `e` is now at the front, and the others keep their order. When `cnt == |list|` before, it still holds after. |
| `CacheModel.ClearCacheBreaksInv` | Cache.java:73-75 | Clearing a nonempty cache leaves `cnt` no longer equal to the list length. |
| `CacheModel.ClearedFullCacheDropsAdds` | Cache.java:73-75 | Once a full cache is cleared, each addObject evicts the object it has just added. |
| `CacheModel.ClearCacheKeepsBounded` | Cache.java:73-75 | clearCache keeps `|list| <= cnt <= size`. |
| `CacheModel.SearchSpec` | Cache.java:84-94 | search returns 1 exactly on a hit and 0 exactly on a miss. Afterwards the word is at the front, for capacity at least 1. On a hit the list is only reordered. A miss below capacity evicts nothing; a miss at capacity evicts only the old back. |
| `CacheModel.CapacityOneMiss` | Cache.java:84-94 | After a miss, a capacity-1 cache holds only the missed word. |
| `CacheModel.SearchTwiceHits` | Cache.java:84-94 | Searching the same word twice hits the second time. |
| `CacheModel.SearchKeepsNoDup` | Cache.java:84-94 | search never creates a duplicate, in every state with `|list| <= cnt <= size`, a cleared cache included. |
| `CacheModel.SearchAllKeepsInvAndNoDup` | Test.java:101-106 | A cache fed only through search keeps `cnt == |list| <= size` and never holds a duplicate. |
| `CacheModel.ReplayKeepsInv` | Cache.java:36-94 | Every sequence of cache calls that has no clearCache keeps `cnt == |list| <= size`. |
| `CacheModel.ReplayKeepsBounded` | Cache.java:36-94 | Every sequence of cache calls, clearCache included, keeps `|list| <= cnt <= size`. |
| `LruCache.Cache.constructor` | Cache.java:24-29 | An empty list, `cnt` 0 and the given capacity. |
| `LruCache.Cache.AddObject` | Cache.java:36-42 | The new state is `CacheModel.AddObject` of the old one. |
| `LruCache.Cache.RemoveObject` | Cache.java:50-54 | A present element is removed, following `CacheModel.RemoveObject`, and returned. An absent element raises NoSuchElement before `cnt` is touched. |
| `LruCache.Cache.RemoveLast` | Cache.java:56-60 | Returns the back element and follows `CacheModel.RemoveLast`. On an empty cache: NoSuchElement, and nothing changes. |
| `LruCache.Cache.MoveToFront` | Cache.java:65-68 | A present element moves to the front, following `CacheModel.MoveToFront`. For an absent one: NoSuchElement, and nothing changes. |
| `LruCache.Cache.ClearCache` | Cache.java:73-75 | A new empty list; `cnt` and `size` are kept. |
| `LruCache.Cache.Search` | Cache.java:84-94 | Returns 1 exactly when the word was present, and the new state is `CacheModel.Search` of the old one. |
| `LruCache.Cache.ToString` | Cache.java:96-98 | Returns the list's rendering. |
| `LruCache.CountHits` | Test.java:101-106 | The final state and the total number of hits after searching each word in turn equal `CacheModel.SearchAll`. |
| `AddAfterAsWritten.Step` | IUSingleLinkedList.java:86-91 | One pass of the loop body: on a match, the new node takes the current node's next and the current node links to the new node, and `isFound` is set; in every case `current` moves to its next. `AddAfterAsWritten.StepKeepsRunning` states that a pass keeps the heap well formed and its elements unchanged. |
| `AddAfterAsWritten.StepKeepsRunning` | IUSingleLinkedList.java:86-91 | A pass of the loop body keeps every link a node or null, leaves the elements as they were, and leaves `current` a node or null. |
| `AddAfterAsWritten.AddAfter` | IUSingleLinkedList.java:80-101 | addAfter as written on the list laid out as nodes, with a bound on loop passes. `None` while the loop has not ended within the bound. NoSuchElement when nothing matched. Otherwise the resulting heap and head, with `tail` moved to the new node when its next is null, and `size` one more than the list length. Its properties are `DuplicateTargetDropsNodes`, `SelfInsertionNeverEnds`, `AbsentTargetThrows` and `UniqueTargetAgrees`. |
| `AddAfterAsWritten.Loop` | IUSingleLinkedList.java:85-92 | When the loop finishes, `current` is null and the heap is well formed. |
| `AddAfterAsWritten.DuplicateTargetDropsNodes` | IUSingleLinkedList.java:80-101 | As written, addAfter(x, t) on [t, t] makes the list read [t, x] while `size` is 3. The intended result is [t, x, t]. |
| `AddAfterAsWritten.SelfInsertionNeverEnds` | IUSingleLinkedList.java:80-101 | As written, addAfter(t, t) on [t] never leaves its loop, whatever pass bound is given. |
| `AddAfterAsWritten.SelfLoopSpins` | IUSingleLinkedList.java:85-92 | A new node linked to itself that matches the target keeps the loop running forever. |
| `AddAfterAsWritten.SkipUnmatched` | IUSingleLinkedList.java:85-92 | Passes over nodes that do not match only move `current` along. |
| `AddAfterAsWritten.MatchThenNewNode` | IUSingleLinkedList.java:86-91 | A match links the new node in after the current node, and the next pass visits that new node. |
| `AddAfterAsWritten.AbsentTargetThrows` | IUSingleLinkedList.java:80-101 | When the target is absent, the loop as written walks the whole list and throws NoSuchElement, as the intended version does. |
| `AddAfterAsWritten.UniqueTargetLoop` | IUSingleLinkedList.java:85-92 | When the target occurs exactly once and differs from the element, the loop ends after one pass more than the list length. |
| `AddAfterAsWritten.UniqueTargetAgrees` | IUSingleLinkedList.java:80-101 | When the target occurs exactly once and differs from the element, the list as written equals the intended insertion after the target, read from head. `size` is right and the tail's next is null. |

## Left out

- Test.java: reading the input file, command-line options, printing and the hit ratios are not modelled. Dafny has no I/O here. `LruCache.CountHits` keeps only the single-level loop that feeds words to `search` and totals the hits.
- The two-level cache of Test.java, the `Cache(size, level)` constructor it calls and the `NoSuchLevelFoundException` are not modelled. They are not in Cache.java.
- `listIterator()` and `listIterator(int)`: both only throw `UnsupportedOperationException`.
- `LinearNode` and `IndexedUnsortedList` are not part of this model. The list is a sequence, and the interface adds no behaviour.
- `null` elements and the null-reference exceptions they would cause are not modelled. Java's `equals` is Dafny's `==` on the element type.
- Element `toString` is a function parameter `show` of the `ToString` methods. Java's `StringBuilder` is not modelled.
- `size`, `cnt` and `modCount` are unbounded integers; the 32-bit wrap-around of Java `int` is not modelled.
- SingleLinkedList.SLLIterator.Remove: the iterator's `nextNode` is a position rather than a node reference. So a structural change made by another party between two calls shows only through the `modCount` check, not through a dangling node.
- SingleLinkedList.IUSingleLinkedList.AddAfter: states the evidently intended insertion after the first match, not the loop as written. The loop as written is `AddAfterAsWritten` (see Findings).
- AddAfterAsWritten.AddAfter: a fuel bound on the number of loop passes stands for the possibility that the loop never ends. `None` means the loop has not finished within the bound. Its `modCount` increment is not modelled.

## Findings

| source | as written | input that shows it | evidently intended | confidence | as-written member | corrected member |
|---|---|---|---|---|---|---|
| IUSingleLinkedList.java:80-101 | The `addAfter` loop does not stop at the first match. It links the one `newNode` in after every match. A second match re-links that node and cuts out the nodes between the two matches. A new node equal to the target matches itself, so the loop never ends. | `addAfter(x, t)` on `[t, t]` leaves the nodes reachable from head reading `[t, x]`, while `size` is 3. `addAfter(t, t)` on `[t]` does not terminate. | Insert `element` once, right after the first node equal to `target` (for `[t, t]`: `[t, x, t]`). | not executed | `AddAfterAsWritten.DuplicateTargetDropsNodes`, `AddAfterAsWritten.SelfInsertionNeverEnds` | `SingleLinkedList.IUSingleLinkedList.AddAfter` |
