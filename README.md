# ds_rust containers in Dafny

This project models the four containers of the `ds_rust` crate and proves what each one does to its contents:

- `DequeueList`: a doubly linked list, with its iterators and its `CursorMut`.
- `BTree`: an unbalanced binary search tree, with its in-order iterator.
- `Vector`: a growable array, with its `Buffer` and `RawIter`.
- `LinkedList`: a singly linked FIFO with a raw tail pointer.

Each container is stated against an abstract sequence or set.

Memory is an arena: one `Arena.Heap<N>` object holds a map from addresses to nodes.

- `Alloc` hands out a fresh address and `Free` removes one.
- A `Link` is `Null` or `Ptr(addr)`, the model of `Option<NonNull<Node<T>>>`.

Each linked container keeps a ghost record of which addresses make up its contents and in what order. Its invariant ties the real fields (`head`, `tail`, `len`, `next`/`prev`, `left`/`right`) to that record:

- `DequeueList`: `Chain` is the invariant.
  - It requires `prev`/`next` symmetry.
  - It requires that the head has no `prev` and the tail no `next`.
  - It requires `len == |Repr|`.
  - As a consequence (`ChainEnds`), the list is empty exactly when `head` is null, and exactly when `tail` is null.
- `LinkedList`: a chain of `next` links from `head`, with `size == |Repr|` and `size` within `u32`.
  - The tail pointer is a separate obligation.
- `BTree`: a ghost `Tree` value gives the shape of the nodes reachable from `root`.
  - `Ordered` is the search-tree invariant.
  - `Keys` is the set the tree holds and `InOrder` its traversal.
  - `size` equals the traversal's length.

The cursor is a state machine over positions `None` (the ghost) and `Some(i)`.

- `Pos()` is the position of `current` in the list.
- `Accurate()` says that `index` agrees with it.
- `splice_before` on a node and `remove_current` at the tail break that agreement in the source, and the model keeps those behaviours.
- `split_before` and `split_after` compute lengths from `index`. They therefore require the index to be accurate when the cursor is on a node.

The comparison traits (`eq`, `ne`, `cmp`, `partial_cmp`, `hash`) are pure folds over `Contents()`. Element order is a parameter; element equality is Dafny's `==` and element hashing is not modelled.

## Model

| member | source | states |
|---|---|---|
| Arena.Heap.Alloc | src/dequeue.rs:40-46 | the new address was not allocated before, holds the given node, and every other cell is unchanged |
| Arena.Heap.Free | src/dequeue.rs:103-104 | the address is no longer allocated and every other cell is unchanged |
| DequeueLinks.ChainEnds | src/dequeue.rs:11-16 | on a well-linked list, `head` is null iff the list is empty iff `tail` is null, the head has no `prev` and the tail has no `next` |
| DequeueLinks.Neighbours | src/dequeue.rs:3-7 | node `i` of a chain points to nodes `i+1` and `i-1`, and to null past either end |
| DequeueLinks.LinkFront | src/dequeue.rs:70-84 | the two link writes of `push_front` make a chain with the new node first and the elements `[elem] + old` |
| DequeueLinks.LinkBack | src/dequeue.rs:86-100 | the two link writes of `push_back` make a chain with the new node last and the elements `old + [elem]` |
| DequeueLinks.UnlinkFront | src/dequeue.rs:102-119 | clearing the successor's `prev` and freeing the head leaves the chain and elements without the first |
| DequeueLinks.UnlinkBack | src/dequeue.rs:121-138 | clearing the predecessor's `next` and freeing the tail leaves the chain and elements without the last |
| DequeueLinks.SetElem | src/dequeue.rs:144-154 | a write through `&mut T` to node `i` changes element `i` of the contents and nothing else |
| DequeueSegments.CutChain | src/dequeue.rs:501-504 | clearing `current.prev` and `prev.next` cuts a chain into the two chains before and from position `k` |
| DequeueSegments.CutChainAfter | src/dequeue.rs:541-544 | clearing `current.next` and `next.prev` cuts a chain into the two chains up to and after position `k - 1` |
| DequeueSegments.UnlinkMiddle | src/dequeue.rs:648-651 | joining the neighbours of inner node `i` and freeing it leaves the chain and elements without position `i` |
| DequeueSegments.RemoveNode | src/dequeue.rs:642-669 | the node at position `i` links to positions `i-1` and `i+1`; bypassing and freeing it keeps a chain of the other nodes |
| Dequeue.DequeueList.constructor | src/dequeue.rs:49-56 | a new list is valid and empty |
| Dequeue.DequeueList.Len | src/dequeue.rs:58-60 | `len` is the number of elements |
| Dequeue.DequeueList.IsEmpty | src/dequeue.rs:62-64 | true exactly when the contents are empty |
| Dequeue.DequeueList.Front | src/dequeue.rs:140-142 | the first element, `None` on an empty list |
| Dequeue.DequeueList.Back | src/dequeue.rs:148-150 | the last element, `None` on an empty list |
| Dequeue.DequeueList.PushFront | src/dequeue.rs:70-84 | the contents become `[elem] + old` (so `len` grows by one) and no other list's nodes change |
| Dequeue.DequeueList.PushBack | src/dequeue.rs:86-100 | the contents become `old + [elem]` (so `len` grows by one) and no other list's nodes change |
| Dequeue.DequeueList.PopFront | src/dequeue.rs:102-119 | returns the first element and drops it, or returns `None` and leaves an empty list as it was |
| Dequeue.DequeueList.PopBack | src/dequeue.rs:121-138 | returns the last element and drops it, or returns `None` and leaves an empty list as it was |
| Dequeue.DequeueList.Clear | src/dequeue.rs:66-68 | the loop of `pop_front` ends with a valid empty list, touching only the list's own nodes |
| Dequeue.DequeueList.Write | src/dequeue.rs:144-154 | a write through `front_mut`/`back_mut`/a cursor replaces one element in place |
| Dequeue.DequeueList.Take | src/dequeue.rs:483-485 | `mem::replace` with a new list: the result owns all the nodes and the list is left empty |
| Dequeue.DequeueList.TakeFrom | src/dequeue.rs:567-570 | `*self.list = input`: the empty list takes over the donor's nodes and contents |
| Dequeue.DequeueList.Release | src/dequeue.rs:573-574 | `input.head.take()` and `input.tail.take()`: hands out the ends of the donor's chain and leaves the donor empty |
| Dequeue.DequeueList.Extend | src/dequeue.rs:343-347 | pushing each item at the back makes the contents `old + items` |
| Dequeue.FromIter | src/dequeue.rs:351-356 | a new list whose contents are the items, in order |
| Dequeue.Iter.constructor | src/dequeue.rs:156-172 | `iter`/`iter_mut` start with the whole list remaining, from both ends |
| Dequeue.Iter.Next | src/dequeue.rs:205-215 | yields the node at the front of the remaining window and shrinks it by one; `None` forever once the shared count is 0 |
| Dequeue.Iter.NextBack | src/dequeue.rs:223-233 | yields the node at the back of the remaining window and shrinks it by one; `None` forever once the shared count is 0 |
| Dequeue.Iter.SizeHint | src/dequeue.rs:217-219 | both bounds are the number of elements remaining |
| Dequeue.IntoIter.Next | src/dequeue.rs:303-305 | returns the first element and drops it from the owned list |
| Dequeue.IntoIter.NextBack | src/dequeue.rs:313-315 | returns the last element and drops it from the owned list |
| Dequeue.IntoIter.SizeHint | src/dequeue.rs:307-309 | both bounds are the owned list's length |
| Dequeue.Clone | src/dequeue.rs:331-339 | a new list with the same contents, in order, and the original unchanged |
| Dequeue.CloneStep | src/dequeue.rs:334-336 | one round of the copy loop: the copy grows by the element just yielded |
| DequeueOrder.IterEq | src/dequeue.rs:366-368 | `Iterator::eq` is true exactly when the sequences are equal |
| DequeueOrder.Eq | src/dequeue.rs:366-368 | `eq` (lengths, then the walk) is true exactly when the contents are equal |
| DequeueOrder.Ne | src/dequeue.rs:370-372 | `ne` is true exactly when the contents differ |
| DequeueOrder.CmpEqual | src/dequeue.rs:384-386 | for a total element order, `cmp` is `Equal` exactly on equal lists |
| DequeueOrder.CmpReverse | src/dequeue.rs:384-386 | swapping the lists reverses `cmp` |
| DequeueOrder.CmpTransitive | src/dequeue.rs:384-386 | `cmp`'s `Less` is transitive |
| DequeueOrder.PrefixLess | src/dequeue.rs:384-386 | a proper prefix compares `Less` |
| DequeueOrder.PartialCmpAgrees | src/dequeue.rs:378-380 | where elements are totally ordered, `partial_cmp` is `Some(cmp)` |
| DequeueOrder.PartialCmpIncomparable | src/dequeue.rs:378-380 | an incomparable pair preceded only by equal pairs makes the lists incomparable |
| DequeueOrder.HashStream | src/dequeue.rs:390-395 | the hashed stream is the length followed by every element, in order |
| DequeueOrder.HashPrefixFree | src/dequeue.rs:390-395 | no stream is a proper prefix of another and equal streams come from equal lists |
| DequeueCursor.MovesInverse | src/dequeue.rs:418-452 | `move_prev` undoes `move_next` and the reverse, from every position |
| DequeueCursor.WalkFromGhost | src/dequeue.rs:418-434 | `k` moves forward from the ghost reach position `k - 1` |
| DequeueCursor.CycleFromGhost | src/dequeue.rs:418-434 | `len + 1` moves forward from the ghost return to the ghost |
| DequeueCursor.InsertNothing | src/dequeue.rs:563-565 | splicing an empty donor before or after any position changes nothing |
| DequeueCursor.CursorMut.constructor | src/dequeue.rs:174-180 | `cursor_mut` starts on the ghost, with an accurate index |
| DequeueCursor.CursorMut.AccuratePos | src/dequeue.rs:414-416 | `index` is accurate exactly when it equals the cursor's position |
| DequeueCursor.CursorMut.Index | src/dequeue.rs:414-416 | when accurate, `index()` is the cursor's position |
| DequeueCursor.CursorMut.MoveNext | src/dequeue.rs:418-434 | from the ghost to 0 on a non-empty list; from `i` to `i+1`, or to the ghost with `index = None` past the tail; a no-op on an empty list; accuracy is kept |
| DequeueCursor.CursorMut.MovePrev | src/dequeue.rs:436-452 | from the ghost to `len-1`; from `i` to `i-1`, or to the ghost past the head; accuracy is kept |
| DequeueCursor.CursorMut.AccurateCanMovePrev | src/dequeue.rs:436-446 | with an accurate index the `-1` of `move_prev` never underflows |
| DequeueCursor.CursorMut.Current | src/dequeue.rs:454-456 | the element at the cursor, `None` on the ghost |
| DequeueCursor.CursorMut.PeekNext | src/dequeue.rs:458-468 | the element at the next position: the front from the ghost, `None` past the tail |
| DequeueCursor.CursorMut.PeekPrev | src/dequeue.rs:470-480 | the element at the previous position: the back from the ghost, `None` past the head |
| DequeueCursor.CursorMut.SplitBefore | src/dequeue.rs:482-520 | on node `k` returns elements `[0, k)`, keeps `[k, len)` and sets `index` to 0; on the ghost returns the whole list and leaves it empty; corrected on the head node, where it returns the empty list (see Findings) |
| DequeueCursor.CursorMut.SplitAfter | src/dequeue.rs:522-560 | on node `k` keeps `[0, k]` and returns `(k, len)`, `index` unchanged; on the ghost returns the whole list and leaves it empty; corrected on the tail node, where it returns the empty list (see Findings) |
| DequeueCursor.CursorMut.SpliceBefore | src/dequeue.rs:562-596 | inserts the donor's elements just before the cursor (at the back on the ghost), empties the donor, leaves `current` and `index` as they were |
| DequeueCursor.CursorMut.Adopt | src/dequeue.rs:567-570 | an empty list takes the donor: the result is the donor's contents for either side |
| DequeueCursor.CursorMut.SpliceBeforeBoth | src/dequeue.rs:573-595 | with both lists non-empty, the donor's chain goes in before the cursor |
| DequeueCursor.CursorMut.InsertBefore | src/dequeue.rs:575-592 | a detached chain goes in before the cursor, or after the tail on the ghost, and `len` grows by its length |
| DequeueCursor.CursorMut.InsertBeforeNode | src/dequeue.rs:576-586 | on a node, the chain goes in before it, whose position moves up by the chain's length |
| DequeueCursor.CursorMut.LinkBefore | src/dequeue.rs:577-586 | the chain is linked in front of node `i`, between it and its `prev` or as the new head |
| DequeueCursor.CursorMut.LinkBetween | src/dequeue.rs:577-581 | the four link writes put the chain between nodes `i-1` and `i` |
| DequeueCursor.CursorMut.LinkAtBack | src/dequeue.rs:587-591 | the chain is linked after the tail and its last node becomes the tail |
| DequeueCursor.CursorMut.SpliceAfter | src/dequeue.rs:598-632 | inserts the donor's elements just after the cursor (at the front on the ghost), empties the donor, leaves `current`, `index` and the position unchanged |
| DequeueCursor.CursorMut.SpliceAfterBoth | src/dequeue.rs:609-631 | with both lists non-empty, the donor's chain goes in after the cursor |
| DequeueCursor.CursorMut.InsertAfter | src/dequeue.rs:611-628 | a detached chain goes in after the cursor, or before the head on the ghost, and `len` grows by its length |
| DequeueCursor.CursorMut.InsertAfterNode | src/dequeue.rs:612-622 | on a node, the chain goes in after it and its position is unchanged |
| DequeueCursor.CursorMut.LinkAfter | src/dequeue.rs:613-622 | the chain is linked after node `i`, between it and its `next` or as the new tail |
| DequeueCursor.CursorMut.LinkBetweenAfter | src/dequeue.rs:613-617 | the four link writes put the chain between nodes `i` and `i+1` |
| DequeueCursor.CursorMut.LinkAtFront | src/dequeue.rs:623-627 | the chain is linked before the head and its first node becomes the head |
| DequeueCursor.CursorMut.RemoveCurrent | src/dequeue.rs:634-675 | `None` on the ghost or an empty list; on node `i` returns element `i`, removes exactly it, moves to the former successor (now at `i`) or to the ghost, and leaves `index` as it was |
| DequeueCursor.CursorMut.Unlink | src/dequeue.rs:642-671 | the node at position `i` leaves the list and is freed, and the result is its old successor |
| DequeueCursor.CursorMut.Bypass | src/dequeue.rs:648-665 | the four cases of the relinking: every node but the removed one is linked past it, and the new head and tail are its successor or predecessor where it was an end |
| DequeueCursor.SplitBeforeAtHeadAsWritten | src/dequeue.rs:482-520 | on the head node, `split_before` as written returns a header with a head but no tail and `len` 0, which is no list |
| DequeueCursor.SplitBeforeOutputSound | src/dequeue.rs:482-520 | with no head when `prev` is null, the returned header is the chain of positions `[0, i)` |
| DequeueCursor.SplitAfterAtTailAsWritten | src/dequeue.rs:522-560 | on the tail node, `split_after` as written returns a header with a tail but no head and `len` 0 |
| DequeueCursor.SplitAfterOutputSound | src/dequeue.rs:522-560 | with no tail when `next` is null, the returned header is the chain of positions `(i, len)` |
| BinaryTree.ShapedFrame | src/binary_tree.rs:4-11 | a tree's shape depends only on the cells of its own nodes |
| BinaryTree.ShapeUnique | src/binary_tree.rs:4-11 | the cells determine the tree hanging from a link |
| BinaryTree.InOrderKeys | src/binary_tree.rs:186-195 | the in-order traversal holds exactly the tree's keys |
| BinaryTree.InOrderSorted | src/binary_tree.rs:186-195 | on an ordered tree the traversal is strictly increasing |
| BinaryTree.CountIsKeys | src/binary_tree.rs:186-195 | on an ordered tree the traversal has one entry per key |
| BinaryTree.DeleteMinKeys | src/binary_tree.rs:165-179 | the minimum node's element comes first in the traversal, and dropping the node removes exactly that key and that node |
| BinaryTree.DeleteMinOrdered | src/binary_tree.rs:165-179 | dropping the minimum keeps the tree ordered and every remaining key above the minimum |
| BinaryTree.Search | src/binary_tree.rs:87-105 | on an ordered tree the comparison-guided search finds `x` exactly when `x` is a key |
| BinaryTree.MinParent | src/binary_tree.rs:110-121 | null exactly when the subtree's root has no left child; otherwise a node of the subtree above the minimum |
| BinaryTree.UnlinkMin | src/binary_tree.rs:168-172 | the parent's left child is the minimum node; pointing it past the minimum leaves the tree without the minimum |
| BinaryTree.SuccessorKeys | src/binary_tree.rs:165-179 | replacing the element by the right subtree's minimum and dropping that node removes exactly the element |
| BinaryTree.SuccessorOrdered | src/binary_tree.rs:165-179 | that replacement keeps the tree ordered |
| BinaryTree.SuccessorDeep | src/binary_tree.rs:168-172 | the two writes through the parent rebuild the tree as the successor tree |
| BinaryTree.SuccessorShallow | src/binary_tree.rs:173-177 | the two writes when the right child is the minimum rebuild the tree as the successor tree |
| BinaryTree.LiftChild | src/binary_tree.rs:152-163 | with at most one child, the child's subtree replaces the node, without its key |
| BinaryTree.BTree.constructor | src/binary_tree.rs:36-42 | a new tree is valid and empty |
| BinaryTree.BTree.Size | src/binary_tree.rs:45-47 | `size` is the number of keys |
| BinaryTree.BTree.IsEmpty | src/binary_tree.rs:50-52 | true exactly when the tree has no keys |
| BinaryTree.BTree.Insert | src/binary_tree.rs:56-58 | the keys become `old + {elem}` and the tree stays ordered; `size` grows by one for a new key; a duplicate leaves the tree, its cells and `size` unchanged |
| BinaryTree.BTree.InsertRec | src/binary_tree.rs:61-76 | the subtree's keys gain `elem`, its nodes outside are unchanged, and a new node is counted |
| BinaryTree.BTree.InsertLeft | src/binary_tree.rs:64-65 | the left subtree, rebuilt, takes `elem` below the node |
| BinaryTree.BTree.InsertRight | src/binary_tree.rs:66-67 | the right subtree, rebuilt, takes `elem` above the node |
| BinaryTree.BTree.Contains | src/binary_tree.rs:80-84 | true exactly when `elem` is a key |
| BinaryTree.BTree.Remove | src/binary_tree.rs:124-128 | the keys become `old - {elem}` and the tree stays ordered; `size` drops by one for a present key; an absent key leaves the tree, its cells and `size` unchanged |
| BinaryTree.BTree.RemoveRec | src/binary_tree.rs:131-182 | the subtree's keys lose `elem`; an absent key changes nothing |
| BinaryTree.BTree.RemoveLeft | src/binary_tree.rs:138-141 | the removal goes on in the left subtree |
| BinaryTree.BTree.RemoveRight | src/binary_tree.rs:143-146 | the removal goes on in the right subtree |
| BinaryTree.BTree.RemoveFound | src/binary_tree.rs:149-181 | the node's key leaves the subtree and `size` drops by one, in the leaf, one-child and two-child cases |
| BinaryTree.BTree.ReplaceBySuccessor | src/binary_tree.rs:165-179 | the two-child case rebuilds the subtree as the successor tree and frees the minimum's node |
| BinaryTree.BTree.PushInorder | src/binary_tree.rs:186-195 | appends the subtree's in-order traversal to the vector |
| BinaryTree.BTree.Iter | src/binary_tree.rs:197-208 | the iterator holds the keys in strictly increasing order, `size` of them |
| BinaryTree.Iter.Next | src/binary_tree.rs:214-224 | yields the next snapshot element, then `None` forever |
| BinaryTree.Iter.SizeHint | src/binary_tree.rs:226-230 | both bounds are the number remaining |
| Vec.Moved | src/vec.rs:143-147 | `ptr::copy`: the destination slots get the source slots' old values, overlap allowed, and every other slot keeps its value |
| Vec.Buffer.constructor | src/vec.rs:20-32 | a new buffer for a sized `T` has capacity 0 |
| Vec.Buffer.Grow | src/vec.rs:36-71 | the capacity goes from 0 to 1 or doubles, and the old slots keep their values |
| Vec.Buffer.Copy | src/vec.rs:143-147 | the buffer becomes the `Moved` image of its old contents |
| Vec.Vector.constructor | src/vec.rs:107-112 | a new vector is empty with capacity 0 |
| Vec.Vector.Len | src/vec.rs:102-104 | the number of elements |
| Vec.Vector.Cap | src/vec.rs:98-100 | the capacity, never below the length |
| Vec.Vector.Push | src/vec.rs:114-124 | the elements become `old + [value]`; the buffer grows only when full |
| Vec.Vector.Pop | src/vec.rs:126-133 | `None` when empty, otherwise the last element, dropped from the end |
| Vec.Vector.Insert | src/vec.rs:135-153 | the elements become `s[..index] + [value] + s[index..]`; the buffer grows only when full |
| Vec.Vector.ShiftIn | src/vec.rs:142-151 | the copy to the right and the write put `value` at `index` in the live prefix |
| Vec.ShiftRight | src/vec.rs:142-151 | shifting the live slots from `index` right by one and writing `v` inserts `v` |
| Vec.ShiftLeft | src/vec.rs:158-168 | shifting the live slots after `index` left by one drops element `index` |
| Vec.Vector.RemoveAsWritten | src/vec.rs:155-169 | as written: returns element `index`, leaves `len` as it was, and copies `len - index` slots from `index + 1` |
| Vec.RemoveAsWrittenStale | src/vec.rs:155-169 | as written, the live prefix becomes the elements without `index` followed by the stale slot just past the live ones |
| Vec.RemoveAsWrittenExample | src/vec.rs:155-169 | on `[1, 2, 3]` with spare slot 9, removing index 0 leaves `[2, 3, 9]` instead of `[2, 3]` |
| Vec.Vector.Remove | src/vec.rs:155-169 | corrected: returns element `index`, and the elements become `s[..index] + s[index + 1..]` |
| Vec.Vector.Drain | src/vec.rs:171-180 | the vector becomes empty and the drain's window is the former elements |
| Vec.RawIter.constructor | src/vec.rs:224-237 | the window covers the slice |
| Vec.RawIter.Next | src/vec.rs:242-257 | yields the front of the window and shrinks it; `None` once `start == end` |
| Vec.RawIter.NextBack | src/vec.rs:273-287 | yields the back of the window and shrinks it; `None` once `start == end` |
| Vec.RawIter.SizeHint | src/vec.rs:259-269 | both bounds are the number of slots left in the window |
| SinglyLinked.RemoveFirst | src/list.rs:67-69 | the sequence without its first occurrence of `x`: one shorter when `x` occurs, unchanged otherwise |
| SinglyLinked.RemoveFirstAt | src/list.rs:69-95 | when `k` is the first occurrence of `x`, removing it drops exactly position `k` |
| SinglyLinked.RemoveFirstAbsent | src/list.rs:72-94 | removing an absent value changes nothing |
| SinglyLinked.AppendNode | src/list.rs:33-49 | hanging a new node after the old tail extends the chain and its elements by one |
| SinglyLinked.DropFront | src/list.rs:52-65 | taking the head leaves the chain of the rest |
| SinglyLinked.Bypass | src/list.rs:77-78 | pointing the slot past node `k` and freeing it leaves the chain without position `k` |
| SinglyLinked.TailAfterTake | src/list.rs:80-83 | moving `tail` to the slot's owner when the last node went keeps `tail` on the last node |
| SinglyLinked.LinkedList.constructor | src/list.rs:21-27 | a new list is valid and empty |
| SinglyLinked.LinkedList.Size | src/list.rs:29-31 | `size` is the number of reachable nodes and fits in `u32` |
| SinglyLinked.LinkedList.Add | src/list.rs:33-49 | appends at the tail: the contents become `old + [elem]` |
| SinglyLinked.LinkedList.Pop | src/list.rs:52-65 | `None` on an empty list; otherwise the first element, dropped from the front, with `tail` reset once the list is empty |
| SinglyLinked.LinkedList.TakeAt | src/list.rs:77-78 | the node held by the slot leaves the chain and is freed |
| SinglyLinked.LinkedList.UnlinkAsWritten | src/list.rs:76-86 | as written: removes the first `elem`, but after removing the last of two or more nodes `tail` points at a freed node |
| SinglyLinked.LinkedList.RemoveAsWritten | src/list.rs:69-95 | as written: removes the first node equal to `elem`, leaving the list otherwise in order; on the last of two or more nodes `tail` is left dangling |
| SinglyLinked.LinkedList.Unlink | src/list.rs:76-86 | corrected: removes the first `elem` and keeps `tail` on the last node |
| SinglyLinked.LinkedList.MendTail | src/list.rs:80-85 | corrected: the tail update and size decrement restore the list invariant |
| SinglyLinked.LinkedList.Remove | src/list.rs:69-95 | corrected: removes only the first node equal to `elem` and returns `Some(elem)`, or returns `None` and changes nothing when absent; the list stays valid |

## Left out

- Raw-pointer mechanics (`NonNull`, `Box::into_raw`/`from_raw`, `PhantomData`, lifetimes) are modelled by the arena: one handle per node, allocation as a fresh key, freeing as a removed key.
- Allocation: `alloc`/`realloc`, `Layout` and the `isize::MAX` size assertion in `grow` are allocator calls. `Grow` is capacity arithmetic plus a fresh array, and allocation never fails.
- Zero-sized types: the `usize::MAX` capacity and the pointer-as-counter iteration of `Buffer` and `RawIter` are not modelled. `Buffer.constructor` is the sized case, and `grow`'s assertion on zero-sized types holds there.
- `Drop` for every container is not modelled. For `DequeueList` it is the same loop as `clear`, which is modelled.
- `Debug` formatting, `Deref`/`DerefMut` slice views and `Default` (the same as `new`) are not modelled.
- `IterMut` and `back_mut`: `IterMut` is modelled by the same `Iter` class, since its `next`/`next_back` are the same code. It yields node handles and writes go through `DequeueList.Write`. The aliasing of `back_mut` taking `&self` is not modelled.
- `Vec`'s own `IntoIter` and `Drain` wrappers are not separate classes: both are a `RawIter` over the vector's buffer, which `Drain` returns. The buffer release on drop is not modelled.
- `DequeueOrder.HashStream`: the `Hasher` is abstracted to the sequence of words it is fed (the length, then the elements). Element hashing is not modelled.
- Element order is a parameter. `cmp` is proved against any total order, and `partial_cmp` both where it is total and for the first incomparable pair. The floating-point NaN test is not modelled.
- BTree elements are `int` rather than a generic `T: Ord`.
- The `ptr::read` of the successor's node in the two-child case of `remove_recursive` is not modelled: it is followed by a drop, so the moved element is dropped twice. The model moves the value and frees the node once.
- The BTree module is not declared in the crate's `lib.rs`, so the source never compiles it. It is modelled as written.
- Recursion depth and stack use of the BTree and of `push_inorder` are not modelled.
- Dequeue.DequeueList.PushFront: `len` is a `nat` and does not model `usize` overflow.
- Dequeue.DequeueList.PushBack: `len` is a `nat` and does not model `usize` overflow.
- SinglyLinked.LinkedList.Add: requires `size < 2^32 - 1`, because `size += 1` on the `u32` field overflows in the source. The model states the bound rather than the panic or wrap.
- DequeueCursor.CursorMut.SplitBefore: requires `index` to equal the current node's position. After an earlier `splice_before` on a node the index is stale in the source, and `split_before` then computes the wrong lengths; that run is not modelled.
- DequeueCursor.CursorMut.SplitAfter: requires `index` to equal the current node's position, for the same reason.
- DequeueCursor.CursorMut.MovePrev: requires that a `-1` on `index` cannot underflow (`CanMovePrev`). With a stale index of 0 the source's `usize` subtraction would panic. An accurate index always satisfies this (`AccurateCanMovePrev`).
- DequeueCursor.CursorMut.SpliceBefore: requires the donor's nodes to be disjoint from the list's, which Rust ownership guarantees.
- DequeueCursor.CursorMut.SpliceAfter: requires the donor's nodes to be disjoint from the list's, which Rust ownership guarantees.
- DequeueCursor.CursorMut.SplitBefore: on the head node it returns the corrected empty list, not the source's header `(old head, None, 0)`; the as-written header is stated by `SplitBeforeAtHeadAsWritten` (see Findings).
- DequeueCursor.CursorMut.SplitAfter: on the tail node it returns the corrected empty list, not the source's header `(None, old tail, 0)`; the as-written header is stated by `SplitAfterAtTailAsWritten` (see Findings).
- Vec.Vector.Insert: requires `index <= len`; the source's `assert!` panic on a larger index is not modelled.
- Vec.Vector.Remove: requires `index < len`; the source's `assert!` panic on a larger index is not modelled.
- Vec.Vector.RemoveAsWritten: requires `index < len` in place of the source's `assert!` panic, and requires `len < cap`. When `len == cap` the source's copy reads one slot past the allocation, and that out-of-bounds read cannot be stated on a Dafny array.
- DequeueOrder.Eq: element equality is Dafny's `==`, so a `PartialEq` that is not an equivalence (NaN elements make the source's `eq` false on identical lists) is not modelled.
- DequeueOrder.Ne: the same, for `ne`.
- Dequeue.Iter.Next: yields the node's handle rather than a `&T`. Its `elem` is stated to be the element at that position.

## Findings

| source | as written | input that shows it | evidently intended | confidence | as-written member | corrected member |
|---|---|---|---|---|---|---|
| src/dequeue.rs:482-520 | `split_before` on the head node returns a list whose `head` is the old head, `tail` is `None` and `len` is 0 | a list `[1, 2]` with the cursor on node 0, then `split_before`; when the returned list is dropped, its `pop_front` loop (src/dequeue.rs:187-190) frees node 0, which the bound list still owns | with nothing before the cursor, return the empty list (`head` = `tail` = `None`) | not executed | DequeueCursor.SplitBeforeAtHeadAsWritten | DequeueCursor.SplitBeforeOutputSound |
| src/dequeue.rs:522-560 | `split_after` on the tail node returns a list whose `head` is `None`, `tail` is the old tail and `len` is 0 | a list `[1, 2]` with the cursor on node 1, then `split_after`; `back()` or `pop_back` on the returned list then reaches node 1, which the bound list still owns | with nothing after the cursor, return the empty list | not executed | DequeueCursor.SplitAfterAtTailAsWritten | DequeueCursor.SplitAfterOutputSound |
| src/vec.rs:155-169 | `remove` never decrements `len` and copies `len - index` slots, one past the live elements | `[1, 2, 3]` in a buffer of capacity 4 whose spare slot holds 9, then `remove(0)` gives live elements `[2, 3, 9]` | copy `len - index - 1` slots and decrement `len`, giving `[2, 3]` | not executed | Vec.RemoveAsWrittenExample | Vec.Vector.Remove |
| src/list.rs:80-83 | `remove` resets `tail` only when the list becomes empty | `add(1); add(2); remove(2)` leaves `tail` at the freed node 2, and the next `add` writes through it | when the last node is removed, `tail` becomes the node before it | not executed | SinglyLinked.LinkedList.RemoveAsWritten | SinglyLinked.LinkedList.Remove |
