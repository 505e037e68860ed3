# PyLinkedList in Dafny

This project models the two containers of PyLinkedList's `linkedlist.py`:

- `SinglyLinkedList` is a forward chain of nodes. It accepts non-negative indices only.
- `DoublyLinkedList` links the nodes both ways and accepts Python-style negative indices in `get`, `insert` and `pop`.

Both lists are built on the three-field `Node` of `node.py`.

The model is imperative, like the source:

- **Nodes.** `Nodes.Node` is a class with `value`, `next` and `prev` fields.
- **List fields.** Each list is a class with the source's fields: `head`, `tail`, `size`, and `shape`, the one-element tuple, written as a sequence.
- **Abstraction.** Each list also has two ghost fields. `Contents` is the values in list order and `Repr` is the nodes that hold them.
- **`Linked()`.** This predicate ties the fields together:
  - node `i` holds `Contents[i]`;
  - each `next` leads to the following node, and in the doubly linked list each `prev` leads back;
  - no node occurs twice;
  - `head` is the first node;
  - while the list is non-empty, `tail` is the last node and its `next` is null.
- **`Valid()`.** This adds `size == |Contents|` and `shape == [size]`.

Every operation is a method. It walks and relinks the nodes as the source does, with the same `while` loops counting up from the head or down from the tail. Each method is proved against functions on sequences in module `ListSpec`:

- `Without` (what `pop` leaves);
- `InsertAt` and `ListInsertPosition` (where `insert` puts a value);
- `Reversed`;
- `RemoveFirst` (what `remove` leaves);
- `IsFirstIndex` (what `index` returns).

Lemmas about these functions give each operation its partner:

- `pop` at a position undoes `insert` at that position, and the reverse also holds.
- Reversing twice is the identity, and reversal is a permutation.
- `remove` takes out exactly one copy of a present value and leaves the list unchanged otherwise.

Python exceptions that the model reaches are results of the `Result` datatype: `IndexError`, `ValueError`, and `AttributeError` (the one crash that leaves the list intact). Every error result leaves the list unchanged.

Some behaviours of the source are modelled as written:

- **Stale tail.** A pop that empties a list clears only `head`, so `tail` keeps pointing at the popped node. `Linked()` therefore constrains `tail` only while the list is non-empty, and every insertion re-checks `head`.
- **Singly linked `reverse`.**
  - It copies the values out with `get`, reverses the copy, and clears `head` without resetting `size`.
  - It then rebuilds the chain with `append`. The first `append` on the cleared chain sets `size` to 1 instead of incrementing it, and that is what makes the count right again.
  - `SinglyLinkedList.Append` therefore also accepts a chain that is linked and empty but whose size is stale.
- **Extending a list by itself.** `extend` reads the source's length once, before the first append, so extending a list by itself doubles it. `ExtendFromSingly` / `ExtendFromDoubly` cover that aliasing case.

## Model

| member | source | states |
|---|---|---|
| Nodes.Node.constructor | node.py:58-61 | a new node holds the given value and has no `next` and no `prev` link |
| ListSpec.Abs | linkedlist.py:354 | Python's `abs`: the result is the argument or its negation, and is never negative |
| ListSpec.Without | linkedlist.py:249-257 | the sequence a pop leaves: one element shorter, positions before `i` kept, positions after `i` moved down by one |
| ListSpec.WithoutEnds | linkedlist.py:236-241 | taking out position 0 is dropping the head, and taking out the last position is dropping the tail |
| ListSpec.InsertAt | linkedlist.py:189-200 | the sequence an interior insert makes: one longer, `x` at position `i`, elements before `i` kept, elements after it moved up by one |
| ListSpec.InsertThenRemove | linkedlist.py:249-257 | removing at the position just inserted at gives back the original sequence |
| ListSpec.RemoveThenInsert | linkedlist.py:189-200 | putting a removed element back at its position gives back the original sequence |
| ListSpec.ListInsertPosition | linkedlist.py:410-483 | the position Python's `list.insert` uses: an index in `[0, n]` is kept, a negative index down to `-n` counts from the end, and anything else is clamped to the front or the end |
| ListSpec.Reversed | linkedlist.py:291 | the reversal of a Python list keeps its length |
| ListSpec.ReversedAt | linkedlist.py:291 | position `k` of the reversal holds position `n - 1 - k` of the original |
| ListSpec.ReversedTwice | linkedlist.py:284-294 | reversing twice restores the original order |
| ListSpec.ReversedPermutes | linkedlist.py:288-294 | reversal keeps every element with its multiplicity |
| ListSpec.DistinctWithout | linkedlist.py:242-257 | unlinking a node leaves the remaining nodes pairwise different |
| ListSpec.DistinctPrepend | linkedlist.py:181-185 | a fresh node in front of a chain without repeated nodes leaves no node repeated |
| ListSpec.DistinctInsertAt | linkedlist.py:189-200 | a fresh node spliced into a chain without repeated nodes leaves no node repeated |
| ListSpec.DistinctReversed | linkedlist.py:601-609 | reversing the order of the nodes keeps them pairwise different |
| ListSpec.FirstIndexUnique | linkedlist.py:133-144 | `IsFirstIndex`, the position `index` returns, is unique: a value has at most one first position |
| ListSpec.RemoveFirst | linkedlist.py:259-265 | what `remove(x)` leaves, defined element by element: `s` without its first `x`, or `s` itself when `x` is absent; one shorter exactly when `x` occurs |
| ListSpec.WithoutFirstIndex | linkedlist.py:259-265 | popping at the index of the first occurrence of `x` is removing the first occurrence of `x` |
| ListSpec.RemoveFirstAbsent | linkedlist.py:259-265 | removing an absent value leaves the sequence unchanged |
| ListSpec.RemoveFirstCount | linkedlist.py:259-265 | removing a present value takes out exactly one copy of it: the multiset loses one `x` and the length drops by one |
| LinkedList.SinglyLinkedList.constructor | linkedlist.py:66-72 | a new list without a source is valid and empty |
| LinkedList.SinglyLinkedList.FromSequence | linkedlist.py:83-85 | a list built from a sequence holds exactly that sequence, in fresh nodes |
| LinkedList.SinglyLinkedList.FromSingly | linkedlist.py:80-82 | a copy of a singly linked list holds the same values in fresh nodes and leaves the source as it was |
| LinkedList.SinglyLinkedList.FromDoubly | linkedlist.py:80-82 | a copy of a doubly linked list holds the same values in fresh nodes and leaves the source as it was |
| LinkedList.SinglyLinkedList.Size | linkedlist.py:87-104 | `len` and `size()` return the number of values |
| LinkedList.SinglyLinkedList.NodeAt | linkedlist.py:118-124 | the counting walk from the head stops at exactly node `target` |
| LinkedList.SinglyLinkedList.Get | linkedlist.py:106-125 | `get(i)` returns `Contents[i]` for `0 <= i < size` and IndexError for every other index |
| LinkedList.SinglyLinkedList.Index | linkedlist.py:127-144 | `index(x)` succeeds exactly when `x` is present and then returns its first position; otherwise ValueError, the empty list included |
| LinkedList.SinglyLinkedList.Append | linkedlist.py:146-160 | `append(x)` makes the contents `old + [x]` with one fresh node at the end; a stale size on an empty chain is repaired |
| LinkedList.SinglyLinkedList.Insert | linkedlist.py:162-200 | `insert(i, x)`: `i <= 0` gives `[x] + old`, `i >= size` gives `old + [x]`, and otherwise `x` lands at position `i`; exactly one fresh node is added |
| LinkedList.SinglyLinkedList.InsertFront | linkedlist.py:174-185 | the front branch of `insert` makes the contents `[x] + old`, on an empty and on a non-empty chain |
| LinkedList.SinglyLinkedList.LinkBeforeHead | linkedlist.py:181-185 | on a non-empty chain, a fresh node linked to the old head becomes the head |
| LinkedList.SinglyLinkedList.LinkAfter | linkedlist.py:189-200 | splicing after node `k` puts `x` at position `k + 1` and keeps every other node in order |
| LinkedList.SinglyLinkedList.Pop | linkedlist.py:202-257 | `pop` on an empty list, or with an index outside `[0, size)`, is IndexError and changes nothing; `pop()` removes and returns the last value; `pop(i)` removes and returns `old[i]` and leaves `Without(old, i)` |
| LinkedList.SinglyLinkedList.PopOnlyNode | linkedlist.py:215-220 | `pop()` on one node returns its value and leaves an empty list |
| LinkedList.SinglyLinkedList.PopHead | linkedlist.py:236-241 | `pop(0)` returns the first value and the head moves to the second node |
| LinkedList.SinglyLinkedList.UnlinkAfter | linkedlist.py:242-257 | removing the node after `current` returns its value and leaves `Without(old, index)`; at the end the tail moves back |
| LinkedList.SinglyLinkedList.Remove | linkedlist.py:259-265 | `remove(x)` deletes only the first occurrence of `x` (contents `RemoveFirst(old, x)`), or raises ValueError with the list's fields and nodes unchanged when `x` is absent; the remaining nodes are old nodes |
| LinkedList.SinglyLinkedList.Extend | linkedlist.py:280-282 | `extend(iterable)` makes the contents `old + source`, keeps the old nodes, and adds fresh ones |
| LinkedList.SinglyLinkedList.ExtendFromSingly | linkedlist.py:277-279 | `extend(list)` makes the contents `old + other`, where `other` is read before the first append, so a list extended by itself doubles; a different source is left as it was |
| LinkedList.SinglyLinkedList.AppendFromSingly | linkedlist.py:279 | one step of `extend(list)`: `append(other.get(i))` adds the source's `i`-th value and leaves the source unchanged |
| LinkedList.SinglyLinkedList.ExtendFromDoubly | linkedlist.py:277-279 | `extend(list)` from a doubly linked list makes the contents `old + other` and leaves the source as it was |
| LinkedList.SinglyLinkedList.AppendFromDoubly | linkedlist.py:279 | one step of `extend(list)` from a doubly linked source: `append(other.get(i))` |
| LinkedList.SinglyLinkedList.Reverse | linkedlist.py:284-294 | `reverse()` makes the contents `Reversed(old)`, rebuilt in the same number of fresh nodes, with the size correct again |
| LinkedList.DoublyLinkedList.constructor | linkedlist.py:304-310 | a new list without a source is valid and empty |
| LinkedList.DoublyLinkedList.FromSequence | linkedlist.py:321-323 | a list built from a sequence holds exactly that sequence, in fresh nodes |
| LinkedList.DoublyLinkedList.FromSingly | linkedlist.py:318-320 | a copy of a singly linked list holds the same values in fresh nodes and leaves the source as it was |
| LinkedList.DoublyLinkedList.FromDoubly | linkedlist.py:318-320 | a copy of a doubly linked list holds the same values in fresh nodes and leaves the source as it was |
| LinkedList.DoublyLinkedList.Size | linkedlist.py:325-342 | `len` and `size()` return the number of values |
| LinkedList.DoublyLinkedList.NodeAt | linkedlist.py:365-371 | the counting walk from the head stops at exactly node `target` |
| LinkedList.DoublyLinkedList.NodeFromTail | linkedlist.py:356-363 | the walk back from the tail, counting down from -1, stops at node `size + target` |
| LinkedList.DoublyLinkedList.Get | linkedlist.py:344-372 | `get(i)` returns `Contents[i]` for `0 <= i < size` and `Contents[size + i]` for `-size <= i < 0`; IndexError when `abs(i) > size` or `i >= size` |
| LinkedList.DoublyLinkedList.Index | linkedlist.py:374-391 | `index(x)` succeeds exactly when `x` is present and then returns its first position; otherwise ValueError |
| LinkedList.DoublyLinkedList.Append | linkedlist.py:393-408 | `append(x)` makes the contents `old + [x]`, with the fresh node linked back to the old tail |
| LinkedList.DoublyLinkedList.Insert | linkedlist.py:410-483 | `insert(i, x)` puts `x` where Python's `list.insert` would (`ListInsertPosition`), adding exactly one fresh node and keeping both link directions consistent |
| LinkedList.DoublyLinkedList.InsertFront | linkedlist.py:454-466 | the front branches of `insert` make the contents `[x] + old`, on an empty and on a non-empty chain |
| LinkedList.DoublyLinkedList.LinkBeforeHead | linkedlist.py:461-466 | on a non-empty chain, a fresh node becomes the old head's `prev` and the new head |
| LinkedList.DoublyLinkedList.LinkAfter | linkedlist.py:470-483 | splicing after node `k` puts `x` at position `k + 1`, linked both ways, and keeps every other node in order |
| LinkedList.DoublyLinkedList.Pop | linkedlist.py:485-570 | `pop` on an empty list, or with `abs(i) > size` or `i >= size`, is IndexError; `pop(0)` on one node is AttributeError; both change nothing. `pop()` removes and returns the last value; an in-range `i` removes and returns the value at `i`, or at `size + i` when `i` is negative |
| LinkedList.DoublyLinkedList.PopBackward | linkedlist.py:512-541 | an in-range negative `pop(i)` on two or more nodes returns `old[size + i]` and leaves `Without(old, size + i)` |
| LinkedList.DoublyLinkedList.PopForward | linkedlist.py:542-570 | an in-range non-negative `pop(i)` on two or more nodes returns `old[i]` and leaves `Without(old, i)` |
| LinkedList.DoublyLinkedList.PopOnlyNode | linkedlist.py:499-505 | `pop()` on one node returns its value and leaves an empty list |
| LinkedList.DoublyLinkedList.PopTail | linkedlist.py:506-511 | removing the last of two or more nodes returns its value, and the tail moves back one node |
| LinkedList.DoublyLinkedList.PopHead | linkedlist.py:544-550 | removing the first of two or more nodes returns its value, and the head moves to the second node |
| LinkedList.DoublyLinkedList.Unlink | linkedlist.py:558-570 | unlinking interior node `k` returns its value and leaves `Without(old, k)`, with its neighbours linked to each other both ways |
| LinkedList.DoublyLinkedList.Remove | linkedlist.py:572-578 | `remove(x)` deletes only the first occurrence of `x` (contents `RemoveFirst(old, x)`) and is ValueError when `x` is absent; on the list `[x]` it is AttributeError; on either error the list's fields and nodes are unchanged, and the remaining nodes are old nodes |
| LinkedList.DoublyLinkedList.Extend | linkedlist.py:593-595 | `extend(iterable)` makes the contents `old + source`, keeps the old nodes, and adds fresh ones |
| LinkedList.DoublyLinkedList.ExtendFromSingly | linkedlist.py:590-592 | `extend(list)` from a singly linked list makes the contents `old + other` and leaves the source as it was |
| LinkedList.DoublyLinkedList.AppendFromSingly | linkedlist.py:592 | one step of `extend(list)` from a singly linked source: `append(other.get(i))` |
| LinkedList.DoublyLinkedList.ExtendFromDoubly | linkedlist.py:590-592 | `extend(list)` makes the contents `old + other`, with `other` read before the first append, so a list extended by itself doubles |
| LinkedList.DoublyLinkedList.AppendFromDoubly | linkedlist.py:592 | one step of `extend(list)`: `append(other.get(i))` adds the source's `i`-th value |
| LinkedList.DoublyLinkedList.Reverse | linkedlist.py:597-609 | `reverse()` keeps the same nodes in the opposite order: contents `Reversed(old)`, the old head becomes the tail, and the old tail becomes the head |
| LinkedList.DoublyLinkedList.SwapLinks | linkedlist.py:601-607 | the reversal loop swaps every node's `prev` and `next`, keeps the values, and ends with `ptr` at the second-to-last node, or null when there are fewer than two nodes |

## Left out

- LinkedList.DoublyLinkedList.Pop: `pop(-1)` on a one-element list is excluded by its precondition. In the source it sets the tail to the missing `prev` of the only node and then fails on it with AttributeError, leaving a list whose head and tail disagree. That state is outside `Valid()`.
- LinkedList.SinglyLinkedList.ExtendFromDoubly: the two lists are required not to share nodes. This always holds in the source, because each list links only nodes it created itself.
- LinkedList.DoublyLinkedList.ExtendFromSingly: the two lists are required not to share nodes, for the same reason.
- LinkedList.SinglyLinkedList.ExtendFromSingly: a source other than the list itself is required not to share nodes with it, for the same reason.
- LinkedList.DoublyLinkedList.ExtendFromDoubly: a source other than the list itself is required not to share nodes with it, for the same reason.
- The `isinstance` checks that raise TypeError (on indices and on constructor and `extend` sources) are left out. Dafny's static types make those calls impossible.
- `__str__` (the rendering of the values through Python's `str`) is left out. `Contents` is the sequence it prints.
- The constructors' `if x:` truthiness test and the `Iterable` protocol are left out. An iterable source is a `seq<T>`, and an empty one gives an empty list, as in the source.
- Python's `==` on values of unrelated types is left out. Values have one type `T` with equality.
- The text of exception messages is left out. Only the exception kind is modelled.
- The doubly linked `insert` re-checks for an empty chain in its negative-index branch. That sub-branch is left out because it cannot be reached: with `abs(index) < size`, the chain has at least two nodes.
- The module metadata of `node.py` and `linkedlist.py` (author, licence, version) is not part of this model.
- Python integers are unbounded, like Dafny's `int`, so no wrap-around is modelled.
