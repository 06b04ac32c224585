# Singly linked list, modelled in Dafny

The repository is a small Rust crate for a non-empty singly linked list. A
list is its head `ListNode<T>`. Each node holds a `value` and owns its
successor through `next`. The crate has:

- `new`, `prepend` and `pop_front`, which take and return whole lists;
- `append`, `insert` and `remove`, which walk a cursor along the chain and
  rewrite `next` links in place;
- the queries `len`, `has_value` and `==`, built on the shared cursor;
- `from_iter`, which builds a list from a sequence;
- the three cursors `Iter`, `IntoIter` and `IterMut`;
- the error type `OperationsError` (`ListNotLongEnough`, `CannotPerformOnHead`).

The model keeps the imperative form. `LinkedList.Node` is a class with the
fields `value` and `next`. A head node carries a ghost view of its whole
chain: `Spine` (the nodes, head first), `Contents` (their values) and `Repr`
(a footprint containing every node). `Node.Valid()` ties these together
through the predicate `Chain`, which says the nodes are pairwise distinct,
each is linked to the next, the last is linked to nothing, and the values
match `Contents`. Distinct nodes along a finite sequence rule out cycles and
sharing, and a non-empty `Spine` rules out an empty list.

Every operation is proved against a function on `Contents`. These functions
live in `ListModel`:

- `InsertedAfter(s, k, t)` places `t` at index k + 1. This is the crate's
  documented behaviour for `insert(t, k)`.
- `RemovedAt(s, k)` deletes index k.
- `Doubled(s)` doubles every value.

The lemmas in `ListModel` relate these functions to one another: each
undoes the other, inserting after the last value is appending, the multiset
of values changes by exactly one element, and membership is preserved.

The cursors are classes whose `Next` methods change only the cursor.
`ListQueries` holds `len`, `has_value` and `==` written over `Iter`. It also
holds the collect and drain loops and the `iter_mut` doubling loop. These
sit in a module of their own because the Rust list and its cursors refer to
each other, and Dafny modules cannot. `ListScenarios` states the outcome of
each of the crate's unit tests as a postcondition.

Files:

- `list_model.dfy`: `ListModel`
- `linked_list.dfy`: `LinkedList`
- `iterators.dfy`: `Iterators`
- `queries.dfy`: `ListQueries`
- `scenarios.dfy`: `ListScenarios`

## Model

| member | source | states |
|---|---|---|
| ListModel.InsertedAfter | src/lib.rs:116-141 | the result is one longer; `t` sits at index k + 1; indices up to k are unchanged; later values move one place back |
| ListModel.RemovedAt | src/lib.rs:89-100 | the result is one shorter; values before k are unchanged; later values move one place forward |
| ListModel.Doubled | src/iterators.rs:139-142 | same length; every value is twice the original at the same index |
| ListModel.RemoveUndoesInsert | src/lib.rs:116-141 | removing index k + 1 after `insert(t, k)` gives the original contents |
| ListModel.InsertUndoesRemove | src/lib.rs:89-100 | re-inserting a removed value after index k - 1 gives the original contents |
| ListModel.InsertAfterLastIsAppend | src/lib.rs:128-129 | inserting after the last index is the same as appending |
| ListModel.InsertedAfterMultiset | src/lib.rs:135-140 | insertion adds exactly one occurrence of `t` and loses no value |
| ListModel.RemovedAtMultiset | src/lib.rs:92-100 | removal takes away exactly one occurrence, that of the removed value |
| ListModel.InsertedAfterMembers | src/lib.rs:128-141 | after insertion the values present are the old ones plus `t` |
| ListModel.RemovedAtMembers | src/lib.rs:92-100 | after removal every value present was present before, and every other value is still present |
| ListModel.DoubledGrows | src/iterators.rs:139-142 | doubling the next value of a partly doubled sequence extends the doubled prefix by one |
| LinkedList.Node.constructor | src/lib.rs:149-155 | `new(t)` is a valid one-node list holding `[t]` with no successor |
| LinkedList.Node.NonEmpty | src/lib.rs:55-58 | a valid list holds at least one value |
| LinkedList.Node.Prepend | src/lib.rs:166-172 | the new head is fresh and valid, its successor is the old head, and it holds `[t] + old contents` |
| LinkedList.Node.PopFront | src/lib.rs:157-164 | fails with `ListNotLongEnough` exactly when the list has one value; otherwise returns the old successor as a valid list holding `old contents[1..]`, without the old head |
| LinkedList.PopFrontAfterPrepend | src/lib.rs:157-172 | `pop_front` after `prepend` hands back the same list with the same contents and footprint |
| LinkedList.Node.Append | src/lib.rs:174-187 | the list stays valid and holds `old contents + [t]`; earlier nodes keep their places; the footprint grows by the new last node |
| LinkedList.Node.LinkNewAfter | src/lib.rs:128-141 | a fresh node holding `t` becomes this node's successor, and it takes over the old successor |
| LinkedList.Node.Insert | src/lib.rs:107-144 | succeeds exactly when k < length and then holds `InsertedAfter(old contents, k, t)`; otherwise returns `ListNotLongEnough` with footprint and every node unchanged |
| LinkedList.Node.SpliceAfter | src/lib.rs:124-143 | with the walk at the k-th node, the list stays valid and holds `InsertedAfter(old contents, k, t)` |
| LinkedList.Node.Remove | src/lib.rs:68-105 | k = 0 gives `CannotPerformOnHead`; succeeds exactly when 0 < k < length, then returns old value k and holds `RemovedAt(old contents, k)` without node k; otherwise `ListNotLongEnough` with footprint and every node unchanged |
| LinkedList.Node.UnlinkAfter | src/lib.rs:88-100 | with the walk at node k, returns value k + 1, holds `RemovedAt(old contents, k + 1)`, and drops exactly that node from the footprint |
| LinkedList.Node.SetValue | src/iterators.rs:139-142 | a write through the k-th node's place changes value k only; nodes and footprint stay |
| LinkedList.FromIter | src/lib.rs:37-59 | for a non-empty sequence, a fresh valid list whose contents are the sequence in order |
| Iterators.Iter.constructor | src/iterators.rs:12-19 | the cursor is valid and will yield exactly the contents of the head it is given |
| Iterators.Iter.Next | src/iterators.rs:21-38 | yields the first remaining value and drops it from the remaining ones; yields `None` once nothing remains; an exhausted cursor stays exhausted; changes only the cursor |
| Iterators.IntoIter.constructor | src/iterators.rs:45-51 | the cursor owns the whole chain and will yield exactly its contents |
| Iterators.IntoIter.Next | src/iterators.rs:53-74 | yields the first owned value and keeps the rest, still a chain; yields `None` on this call and every later one once nothing remains |
| Iterators.IterMut.constructor | src/iterators.rs:79-85 | the cursor will hand out exactly the head's nodes |
| Iterators.IterMut.Next | src/iterators.rs:87-109 | hands out the first remaining node and advances by one; yields `None` once none remain; changes no link or value |
| ListQueries.Len | src/lib.rs:189-192 | counting what `Iter` yields gives the number of values, which is at least 1 |
| ListQueries.HasValue | src/lib.rs:194-205 | true exactly when `t` is among the values |
| ListQueries.Equals | src/lib.rs:208-225 | true exactly when both lists hold the same values in the same order |
| ListQueries.ZipEqual | src/lib.rs:219-224 | two cursors with as many values left each: true exactly when those remaining values are equal |
| ListQueries.Collect | src/iterators.rs:118-119 | collecting `Iter` gives the contents in order |
| ListQueries.IntoVec | src/iterators.rs:130-131 | collecting `IntoIter` gives the contents the list held, in order |
| ListQueries.DoubleAll | src/iterators.rs:139-142 | after doubling through `IterMut` the list is valid with the same nodes and footprint, and holds `Doubled(old contents)` |
| ListQueries.CollectFromIter | src/lib.rs:292-297 | building from a non-empty sequence and collecting with `Iter` gives the sequence back |
| ListQueries.IterEndsForever | src/iterators.rs:25-35 | after `Iter` has yielded everything, two more calls both yield `None` |
| ListQueries.IntoIterEndsForever | src/iterators.rs:56-67 | after `IntoIter` has yielded everything, two more calls both yield `None` |
| ListQueries.IterMutVisitsEachNode | src/iterators.rs:90-107 | `IterMut` hands out exactly the chain's nodes, head first, each once, and then `None` |
| ListScenarios.PrependScenario | src/lib.rs:233-242 | prepending 54 then 53 to `[55]` and draining gives `[53, 54, 55]` |
| ListScenarios.AppendScenario | src/lib.rs:245-257 | appending 2 to 5 to `[1]` and draining gives `[1, 2, 3, 4, 5]` |
| ListScenarios.PopFrontScenario | src/lib.rs:260-268 | `pop_front` of a one-value list fails; that of `[1, 2]` leaves 2 at the head |
| ListScenarios.HasValueScenario | src/lib.rs:271-283 | `[1]` has 1 and not 2; `[1, 2, 3]` has 1 and 2 and not 4 |
| ListScenarios.LenScenario | src/lib.rs:286-289 | a list built from five values has length 5 |
| ListScenarios.FromIterScenario | src/lib.rs:292-297 | a list built from `[1, 2, 3, 4, 5]` yields those values in order |
| ListScenarios.PartialEqScenario | src/lib.rs:300-311 | equal lists compare equal, different ones do not, and `remove(2)` breaks an equality |
| ListScenarios.InsertScenario | src/lib.rs:314-327 | `insert(55, 5)` on five values fails; `insert(55, 3)` gives `[1, 2, 3, 4, 55, 5]` |
| ListScenarios.Insert2Scenario | src/lib.rs:330-344 | `insert(55, 1)` gives `[1, 2, 55, 3, 4, 5]`; `insert(55, 4)` gives `[1, 2, 3, 4, 5, 55]` |
| ListScenarios.RemoveScenario | src/lib.rs:347-368 | `remove(2)` returns 3 leaving `[1, 2, 4, 5]`; `remove(3)` returns 5 leaving `[1, 2, 4]`; `remove(3)` again fails and leaves `[1, 2, 4]` |
| ListScenarios.IterScenario | src/iterators.rs:115-124 | `Iter` over `[1, 2, 3, 4]` yields those values; after `prepend(0)` it yields `[0, 1, 2, 3, 4]` |
| ListScenarios.IntoIterScenario | src/iterators.rs:127-132 | draining `[1, 2, 3, 4]` yields those values |
| ListScenarios.IterMutScenario | src/iterators.rs:135-146 | doubling `[1, 2, 3, 4]` through `IterMut` and then reading with `Iter` gives `[2, 4, 6, 8]` |

## Left out

- `Display` for `ListNode` (src/lib.rs:20-27) is string formatting of the value, and the `Debug` derives are not modelled.
- Ownership is not modelled: lifetimes, the borrow checker, `Box` allocation and drop. A list that `prepend`, `pop_front` or `into_iter` consumes stays reachable in Dafny. The frames (`modifies`) state what each operation may change.
- Only a head carries an up-to-date ghost view. The ghost fields of inner nodes are stale until `pop_front` makes that node a head. The crate's `next` field is private, so a caller only ever holds heads.
- `Node.Valid` requires `Repr` to contain the chain's nodes but not to contain nothing else. Each operation's postcondition states its exact footprint instead.
- LinkedList.FromIter: the panic on an empty input becomes the precondition `0 < |s|`. Any `IntoIterator` is modelled as a sequence.
- LinkedList.Node.Append: the crate's `loop { match }` attaches the node inside the loop on the first `None`. The model walks while a successor exists and attaches after the loop, which has the same effect.
- LinkedList.Node.Insert and LinkedList.Node.Remove: the splice after the walk is a separate method (`SpliceAfter`, `UnlinkAfter`), called where the crate's code continues after its loop.
- ListQueries.Equals: the zip loop is a separate method, `ZipEqual`. The element comparison `PartialEq` is Dafny equality (`T(==)`), so a `PartialEq` that is not an equivalence, such as one on floating-point NaN, is not modelled.
- Iterators.IterMut.Next: the crate hands out `&mut T`. The model hands out the node, which is the place that value lives. A write through it is `Node.SetValue`, which updates the head's ghost contents along with the value.
- ListQueries.DoubleAll, LinkedList.Node.SetValue and ListModel.Doubled: `*item *= 2` on `i32` can overflow, which panics or wraps depending on the build profile. The model uses unbounded integers.
- The `usize` counters in `insert`, `remove` and `len` are unbounded `nat`s. A list long enough to overflow them cannot exist in memory.
