# Consistent hashing ring, modelled in Dafny

This project models the hash ring in `consistent_hashing/consistent_hashing.go`. The ring places storage nodes on a circular hash space of `totalSlots` slots. Each node sits at the slot its host hashes to, and an item belongs to the first node at or after the item's slot. Past the last node, the item wraps around to the first node. The ring keeps two parallel slices: `keys`, the occupied slots in ascending order, and `nodes`, the node at each slot. `addNode` and `removeNode` change those slices in place. `assign`, `upload` and `fetch` pick a node by the successor rule.

Layout:

- `sort_search.dfy`, module `SortSearch`: Go's `sort.Search` loop, with its documented contract proved and with what it returns on any predicate.
- `slices.dfy`, module `Slices`: `slices.Insert` and `slices.Delete` on sequences.
- `sorted_slices.dfy`, module `SortedSlices`: `bisect` as a binary-search method proved to be a lower bound, and `insertSorted` as a method over an array. Also the facts about sorted sequences that the ring needs.
- `ring_state.dfy`, module `RingState`: the ring's slices as a value (`Placement`), the `addNode` and `removeNode` transitions (`AddEntry`, `RemoveEntry`) and the successor lookup (`Owner`, `Lookup`). It also holds the lemmas on well-formedness, minimal disruption, churn and insertion order.
- `ring.dfy`, module `Ring`: the class `ConsistentHashing`, with `keys` and `nodes` as fields that its methods update in place. Each method is proved against the functions of `RingState`.
- `as_written.dfy`, module `AsWritten`: the places where the code does something other than what its names and comments promise: five Findings rows, two of which come from the one `currentSlots` counter. Each is modelled as written and shown to go wrong (see Findings).
- `wrappers.dfy`, module `Wrappers`: `Option`, `Result` and `Outcome`.

Each `log.Fatal` call becomes a typed error (`CapacityReached`, `Collision`, `EmptyHashSpace`, `InvalidKey`), and the ring is left unchanged. A failure of the transport call becomes `Transport(message)`. The SHA-256 digest is a parameter of the ring (`digest: string -> nat`). The transport calls `putFile` and `fetchFile` are parameters of `Upload` and `Fetch`.

## Model

| member | source | states |
|---|---|---|
| `SortSearch.Search` | consistent_hashing/consistent_hashing.go:157-166 | The `sort.Search` loop that both searches call returns an index in [0, n]; what it finds there is `SearchFindsFirst` and `SearchInBrackets`. |
| `SortSearch.SearchFindsFirst` | consistent_hashing/consistent_hashing.go:163-167 | On a predicate that is false on a prefix and true after it, the `sort.Search` loop returns the first index where the predicate holds, or n when there is none. |
| `SortSearch.SearchInBrackets` | consistent_hashing/consistent_hashing.go:157 | On any predicate, monotone or not, the loop stops where the predicate is false just before the result and true at it (or at an end of the range). |
| `SortedSlices.LowerBound` | consistent_hashing/consistent_hashing.go:163-167 | `bisect`'s result, the `sort.Search` index for `keys[i] >= key`, is never past the end of the slice. |
| `Slices.Insert` | consistent_hashing/consistent_hashing.go:102-103 | `slices.Insert(s, i, x)` is one longer than s, holds x at i, and holds s's elements before i and shifted up by one after it. |
| `Slices.Delete` | consistent_hashing/consistent_hashing.go:120-121 | `slices.Delete(s, i, j)` removes j - i elements. The elements before i stay, and those from j on move down to i. |
| `SortedSlices.LowerBoundSplits` | consistent_hashing/consistent_hashing.go:163-167 | On sorted keys, `bisect` returns i in [0, \|keys\|]. Every key before i is below the probe, every key from i on is at least the probe, and i is \|keys\| when no key reaches the probe. |
| `SortedSlices.LowerBoundIs` | consistent_hashing/consistent_hashing.go:163-167 | Only one index splits sorted keys that way, so an index with that property is what `bisect` returns. |
| `SortedSlices.Bisect` | consistent_hashing/consistent_hashing.go:163-167 | The binary-search loop returns the `sort.Search` index for `keys[i] >= key`. On sorted keys that index is the lower bound. |
| `SortedSlices.UpperBound` | consistent_hashing/consistent_hashing.go:157 | The insertion point of `insertSorted`, `sort.Search` over `s[i] > ele` on the original elements only, is never past the end of s. It is the corrected form for the Findings row for lines 156-158. |
| `SortedSlices.UpperBoundSplits` | consistent_hashing/consistent_hashing.go:157 | On a sorted slice, the insertion point of `insertSorted` comes after every element `<= ele` and before every element `> ele`. |
| `SortedSlices.InsertSorted` | consistent_hashing/consistent_hashing.go:155-161 | The result is s with ele inserted at that point: one longer, with multiset(s) plus ele. When s is sorted, so is the result, and ele comes after any equal elements. |
| `SortedSlices.LowerBoundAfterInsert` | consistent_hashing/consistent_hashing.go:95-103 | Once a slot x is inserted at its own lower bound, `bisect` for a probe at or below x finds the same index as before, and for a probe above x the index one further on. |
| `SortedSlices.LowerBoundAfterDelete` | consistent_hashing/consistent_hashing.go:114-121 | Once the entry at index i is deleted, `bisect` finds the same index as before for probes that landed at or before i, and one index earlier for the rest. |
| `RingState.AddEntry` | consistent_hashing/consistent_hashing.go:88-104 | When `addNode` fails, the error is `CapacityReached` exactly when the entry count equals `totalSlots`, and `Collision` otherwise. On success the ring was not full, and both slices grow by one and hold the new slot and node. |
| `RingState.RemoveEntry` | consistent_hashing/consistent_hashing.go:106-124 | `removeNode` fails only with `EmptyHashSpace` or `InvalidKey`. On success the slot was on the ring, and both slices shrink by one. |
| `RingState.OwnerIndex` | consistent_hashing/consistent_hashing.go:128-130 | The index the lookup uses is always within the slices of a non-empty ring. |
| `RingState.Owner` | consistent_hashing/consistent_hashing.go:126-133 | The node chosen for an item is one of the ring's nodes. |
| `RingState.Lookup` | consistent_hashing/consistent_hashing.go:126-133 | The lookup fails exactly on an empty ring, with `EmptyHashSpace`. Otherwise it returns one of the ring's nodes. |
| `RingState.RingFits` | consistent_hashing/consistent_hashing.go:89-91 | A well-formed, non-empty ring never holds more than `totalSlots` entries. |
| `RingState.RoomForTwo` | consistent_hashing/consistent_hashing.go:88-104 | Two distinct free slots in the hash space mean the ring has room for two more entries. |
| `RingState.Collides` | consistent_hashing/consistent_hashing.go:97-100 | `addNode`'s collision check with the index guard added reports a collision only for a slot already on the ring. It is the corrected form for the Findings row for line 98. |
| `RingState.With` | consistent_hashing/consistent_hashing.go:102-103 | The paired `slices.Insert` of `addNode` makes both slices one longer and puts the slot and the node at the same index i. The slots gain exactly the new one, as a multiset. |
| `RingState.Without` | consistent_hashing/consistent_hashing.go:120-121 | The one-element delete from both slices that `removeNode` intends: both slices become one shorter, and the slots lose exactly the one at i, as a multiset. |
| `RingState.CollidesIffPresent` | consistent_hashing/consistent_hashing.go:95-100 | On sorted keys, the collision check at `bisect`'s index (guarded against the end of the slice) holds exactly when the slot is already on the ring. |
| `RingState.WithWellFormed` | consistent_hashing/consistent_hashing.go:95-103 | Inserting a free in-range slot at its `bisect` index keeps the slots strictly increasing, in range, and the two slices the same length. |
| `RingState.AddEntryCorrect` | consistent_hashing/consistent_hashing.go:88-104 | `addNode` fails with `CapacityReached` exactly when the ring is full, and with `Collision` exactly when the slot is taken. Otherwise it puts the slot and the node at the same `bisect` index, keeps the ring well formed, and adds exactly that one pair. Every other pair stays, in the same order (deleting the new index gives back the old ring). |
| `RingState.RemoveEntryCorrect` | consistent_hashing/consistent_hashing.go:106-124 | `removeNode` fails exactly when the slot is not on the ring, with `EmptyHashSpace` on an empty ring. Otherwise it deletes exactly the one entry at `bisect`'s index, which holds the slot. The slices shrink by one, the slot is gone, and every other pair stays in order. |
| `RingState.ChurnRoundTrip` | consistent_hashing/consistent_hashing.go:88-124 | Adding a node and then removing its slot restores the ring exactly, both slices included. |
| `RingState.ModulusWraps` | consistent_hashing/consistent_hashing.go:130 | Taken modulo the live entry count, `bisect`'s index wraps exactly the past-the-end value to 0. |
| `RingState.OwnerIsSuccessor` | consistent_hashing/consistent_hashing.go:126-133 | The node picked for an item is the first node whose slot is at least the item's slot. When every slot is below the item's, it is the first node (wrap-around). |
| `RingState.DeleteDisruption` | consistent_hashing/consistent_hashing.go:106-133 | After the entry at i is deleted, items that went to entry i go to the next entry around the circle, and every other item keeps its node. |
| `RingState.RemoveEntryDisruption` | consistent_hashing/consistent_hashing.go:106-133 | When `removeNode` succeeds on a ring of two or more nodes, items owned by the removed node move to the node after it, and no other item changes node. |
| `RingState.InsertDisruption` | consistent_hashing/consistent_hashing.go:88-133 | Inserting a slot at its lower bound moves to the new node exactly the items on its arc (after its predecessor on the circle, up to the slot itself). No other item changes node. |
| `RingState.AddEntryDisruption` | consistent_hashing/consistent_hashing.go:88-133 | When `addNode` succeeds on a non-empty ring, the new node takes exactly the items on its arc, and every other item keeps its node. |
| `RingState.DeterminedByEntries` | consistent_hashing/consistent_hashing.go:62-67 | Two well-formed rings with the same set of (slot, node) pairs are equal, slices and order included. |
| `RingState.InsertionOrderIrrelevant` | consistent_hashing/consistent_hashing.go:88-104 | Two nodes with distinct free slots can both be added in either order, and the two orders give the same ring. |
| `RingState.ThreeNodeExample` | consistent_hashing/consistent_hashing.go:126-133 | On a ring with nodes at slots 100, 400 and 700, an item at 900 wraps to the first node, and an item exactly at a node's slot goes to that node. |
| `RingState.RemovalExample` | consistent_hashing/consistent_hashing.go:106-133 | Removing the node at 400 from that ring leaves [100, 700], and its items (such as the one at 250) go to the next node. |
| `RingState.AdditionExample` | consistent_hashing/consistent_hashing.go:88-133 | Adding a node at 250 puts it between 100 and 400. It takes the item at 200 and leaves the item at 300 with the node at 400. |
| `Ring.Deliver` | consistent_hashing/consistent_hashing.go:135-153 | With no node chosen, the lookup's error is returned. With a node chosen, the result succeeds exactly when the transport call does, returns its answer, and wraps its error as `Transport`. |
| `Ring.ConsistentHashing.constructor` | consistent_hashing/consistent_hashing.go:69-74 | The new ring is empty and valid, over the given number of slots and the given digest. |
| `Ring.ConsistentHashing.HashFun` | consistent_hashing/consistent_hashing.go:76-86 | The slot of a key is a function of the key alone, and it lies in [0, totalSlots). |
| `Ring.ConsistentHashing.AddNode` | consistent_hashing/consistent_hashing.go:88-104 | `addNode` keeps the ring valid. The new slices are those of `AddEntry` for the host's slot; on failure the error is returned and the slices are unchanged. |
| `Ring.ConsistentHashing.RemoveNode` | consistent_hashing/consistent_hashing.go:106-124 | `removeNode` keeps the ring valid. The new slices are those of `RemoveEntry`, and on success it returns the host's slot. On failure the error is returned and the slices are unchanged. |
| `Ring.ConsistentHashing.Assign` | consistent_hashing/consistent_hashing.go:126-133 | On a non-empty ring, `assign` returns the successor node of the item's slot. On an empty ring it returns `EmptyHashSpace`. |
| `Ring.ConsistentHashing.Upload` | consistent_hashing/consistent_hashing.go:135-143 | `upload` sends the path to the node `assign` picks, and returns `putFile`'s answer. A transport error is wrapped unchanged, and an empty ring gives `EmptyHashSpace`. |
| `Ring.ConsistentHashing.Fetch` | consistent_hashing/consistent_hashing.go:145-153 | `fetch` asks the node `assign` picks (so the same node as `upload` for the same path), and returns `fetchFile`'s answer. Errors are handled as in `Upload`. |
| `AsWritten.RemoveEntryAsWritten` | consistent_hashing/consistent_hashing.go:106-124 | `removeNode` as written fails on exactly the inputs, and with exactly the errors, of the corrected removal. On success the two slices have equal lengths; that they are unchanged is `RemoveAsWrittenRemovesNothing`. |
| `AsWritten.RemoveAsWrittenRemovesNothing` | consistent_hashing/consistent_hashing.go:120-121 | As written, a removal that succeeds leaves both slices unchanged. The slot stays on the ring, and removing the node again succeeds again. |
| `AsWritten.CollisionCheckAsWritten` | consistent_hashing/consistent_hashing.go:96-100 | Where the unguarded check reads inside the slice, it agrees with the guarded check. Where it reads past the end, the guarded check reports no collision. |
| `AsWritten.CollisionCheckAsWrittenPanics` | consistent_hashing/consistent_hashing.go:98 | As written, the collision check reads past the end of `keys` whenever the new slot is above every slot, and so on the first `addNode` to an empty ring. |
| `AsWritten.AssignAsWritten` | consistent_hashing/consistent_hashing.go:126-133 | The lookup as written, with `currentSlots` as the divisor, returns one of the ring's nodes when it does not panic. |
| `AsWritten.NewAsWritten` | consistent_hashing/consistent_hashing.go:69-74 | `NewConsistentHashing` as written starts with `currentSlots` at 0, the given `totalSlots` and empty slices. |
| `AsWritten.AddNodeAsWritten` | consistent_hashing/consistent_hashing.go:88-104 | `addNode` as written leaves `currentSlots` and `totalSlots` as they were, even when it adds a node. |
| `AsWritten.RemoveNodeAsWritten` | consistent_hashing/consistent_hashing.go:106-124 | `removeNode` as written leaves `currentSlots` and `totalSlots` as they were. |
| `AsWritten.Run` | consistent_hashing/consistent_hashing.go:62-124 | A series of `addNode`/`removeNode` calls, ending at the first panic or `log.Fatal`, keeps the two slices the same length. |
| `AsWritten.RunKeepsCounter` | consistent_hashing/consistent_hashing.go:62-124 | No series of calls, from any starting object, changes `currentSlots` or `totalSlots`. |
| `AsWritten.EveryLookupPanics` | consistent_hashing/consistent_hashing.go:69-153 | After any series of calls from `NewConsistentHashing`, `currentSlots` is still 0, so every `assign`, `upload` and `fetch` divides by zero. |
| `AsWritten.CapacityCheckNeverFires` | consistent_hashing/consistent_hashing.go:89-91 | For the same reason, with `totalSlots` > 0 the capacity check of `addNode` never fires, however many calls came before. |
| `AsWritten.NothingEverJoins` | consistent_hashing/consistent_hashing.go:69-124 | Because the first `addNode` panics on the empty slice, no series of calls from `NewConsistentHashing` ever changes the object as written. |
| `AsWritten.AssignWithLiveCount` | consistent_hashing/consistent_hashing.go:130 | With the live entry count as the divisor, the modulus lookup returns the successor node. |
| `AsWritten.InsertSortedAsWritten` | consistent_hashing/consistent_hashing.go:155-161 | When `insertSorted` as written does not go out of range, it returns a slice one longer, with multiset(s) plus ele. |
| `AsWritten.InsertSortedAsWrittenPanicsAtTop` | consistent_hashing/consistent_hashing.go:155-158 | As written, `insertSorted` goes out of range whenever ele is at least every element, the empty slice included. |
| `AsWritten.InsertSortedAsWrittenPanicsInside` | consistent_hashing/consistent_hashing.go:155-158 | As written, inserting 3 into [5] goes out of range too, because the search probes the appended element. |
| `AsWritten.InsertSortedAsWrittenUnsorted` | consistent_hashing/consistent_hashing.go:155-161 | On the unsorted slice [0, 0, 0, 9, 0] with ele 5, the code as written stays in range but puts 5 before the 9, while the corrected `InsertSorted` puts it at the end. |
| `AsWritten.InsertSortedAsWrittenOtherwiseAgrees` | consistent_hashing/consistent_hashing.go:155-161 | On a sorted slice, when the code as written does not go out of range, it returns the same slice as the corrected `InsertSorted`. |

## Left out

- `StorageNode.fetchFile` and `putFile` (HTTP requests and the local file read) are not modelled. `Upload` and `Fetch` take them as function parameters and pass on their answer or their error.
- The SHA-256 computation is not modelled. The ring takes the digest as a parameter of type `string -> nat`, so any deterministic digest is covered.
- Slots and `totalSlots` are unbounded integers, not `int64`. For 0 < `totalSlots` <= 2^63 - 1, the remainder is below `totalSlots`, so the `Int64()` narrowing in `hashFun` loses nothing and the model agrees with the code.
- Ring.ConsistentHashing.constructor: requires `totalNodes > 0`, which the code does not check. With 0, `hashFun` divides by zero in `big.Int.Mod`. A negative count is not a meaningful hash space.
- `currentSlots` is not a field of the class `Ring.ConsistentHashing`. The code sets it to 0 and never updates it. The class uses the live entry count `|keys|` wherever the code reads `currentSlots`: in the capacity check of `addNode` and in the modulus of `assign`, `upload` and `fetch`. The object as written, counter included, is `AsWritten.RingAsWritten` (see Findings).
- Ring.ConsistentHashing.Assign, and with it `Upload` and `Fetch`: on an empty ring the code computes `0 % int(c.currentSlots)`, which divides by zero (lines 130, 138 and 148). Dividing by the live count `len(c.keys)` would still be `0 % 0` there. The model returns `EmptyHashSpace` instead of panicking.
- `log.Fatalf` and `log.Fatal` do not stop the process. They become typed error results, and the ring is left unchanged.
- On an empty ring, `removeNode` reports `EmptyHashSpace` ("Hash space is empty"), as the code does, and not the not-found error.
- RingState.RemoveEntryDisruption: covers rings of two or more nodes. Removing the only node leaves an empty ring, where `Lookup` returns `EmptyHashSpace`.
- RingState.AddEntryDisruption: covers non-empty rings. On an empty ring, every item goes to the one new node.
- `slices.Insert`, `slices.Delete` and `append` can reuse the caller's backing array. The model treats the slices as values, so aliasing between the ring's slices and other slices is not modelled.
- `sort.Search` calls its predicate lazily. The model evaluates the predicate into a sequence of values first. The results are the same.
- `main` is a demo that prints a hash. It is not modelled, and neither is its `int64(math.Pow(2, 256))`, whose value Go leaves to the platform.
- The code has no locking. The model is single-threaded.

## Findings

| source | as written | input that shows it | evidently intended | confidence | as-written member | corrected member |
|---|---|---|---|---|---|---|
| consistent_hashing/consistent_hashing.go:120-121 | `slices.Delete(c.keys, index, index)` deletes an empty range, and the result is dropped | any successful removal, e.g. removing the only node of a one-node ring | delete `[index, index+1)` from both slices and store the results | high (not executed) | `AsWritten.RemoveAsWrittenRemovesNothing` | `RingState.RemoveEntryCorrect` |
| consistent_hashing/consistent_hashing.go:98 | `c.keys[index]` is read when `index == len(c.keys)` | the first `addNode` on an empty ring (`keys == []`, index 0) | test `index < len(c.keys)` before reading | high (not executed) | `AsWritten.CollisionCheckAsWrittenPanics` | `RingState.CollidesIffPresent` |
| consistent_hashing/consistent_hashing.go:130 | `% int(c.currentSlots)`, where `currentSlots` stays 0 (line 72; nothing assigns it) | any `assign`, `upload` or `fetch` (lines 130, 138, 148) | on a non-empty ring, modulus by the live count `len(c.keys)`, which wraps past the end to index 0; on an empty ring, an error reported before the modulus | high (not executed) | `AsWritten.EveryLookupPanics` | `RingState.OwnerIsSuccessor` |
| consistent_hashing/consistent_hashing.go:156-158 | `sort.Search(len(s), …)` runs after `append`, over the new element too, and can return `len(s)`, so `s[i+1:]` is out of range. On unsorted input it can also place ele differently without any panic (`InsertSortedAsWrittenUnsorted`), which is why `InsertSortedAsWrittenOtherwiseAgrees` requires a sorted slice | `s = []`, `ele = 0`; also `s = [5]`, `ele = 3` | search only the elements that were there before the append | high (not executed) | `AsWritten.InsertSortedAsWrittenPanicsAtTop` | `SortedSlices.InsertSorted` |
| consistent_hashing/consistent_hashing.go:89 | the capacity check compares `currentSlots`, which stays 0, with `totalSlots` | adding a node to a one-slot ring that already holds one node (if the first add did not panic) | compare the live count `len(c.keys)` with `totalSlots` | high (not executed) | `AsWritten.CapacityCheckNeverFires` | `RingState.AddEntryCorrect` |
