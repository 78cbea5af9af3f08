# Red-black insertion and a ring buffer, modelled in Dafny

This project models two headers.

**`rbtree/rb_tree.hpp`.** A red-black tree of linked node objects with one shared black sentinel
`nill_`. The model covers:

- the node accessors `get_grandparent`, `get_uncle` and `get_sibling`;
- the tree constructor;
- both `insert` overloads (the descent and the attachment of a new red leaf);
- the fix-up `do_post_insert`;
- the two rotations.

**`lockless/lockless.hpp`.** `Lockless<T>`, a ring buffer with four cursors, read
single-threaded.

## How the tree is modelled

Nodes are objects of class `RBNode` (`rb_node.dfy`). Their fields `data`, `color`, `left`,
`right` and `parent` are updated in place. `null` stands for an empty `shared_ptr`.

The class `RBTree` (`rb_tree.dfy`) holds `root`, the sentinel `nill` and a ghost set
`Repr` of every node it owns. Its methods follow the source statement by statement. Each
one is proved to turn the heap snapshot `Snap()` into the result of a function on heap
values.

Those functions live in `rb_heap.dfy`. A heap value (`Heap = map<RBNode, Links>`) holds
the fields of every node:

- `RotateLeft` and `RotateRight` are the two rotations;
- `RecolourUp` is the recolouring of the red-uncle case;
- `PostInsert` is `do_post_insert`;
- `LinkLeaf` and `PlantRoot` (`rb_insert.dfy`) are the two ways `insert` attaches a node;
- `InsertHeap` is a whole `insert(data)`.

The heap functions assume nothing about trees. The rotations, recolourings and links only
need the heap to be *closed*: links stay inside the heap and the sentinel keeps the fields
the constructor gave it. The fix-up (`CaseOf`, `RecolourUp`, `PostInsert`) needs two more
facts:

- every red node other than the one being fixed has a parent (`RedHaveParents`), so that
  `get_uncle()` is not null when the parent is red;
- a bound on the length of the parent chain, so that the recursion ends.

Abstract trees (`rb_shape.dfy`) are values whose nodes record the object that stands for
them. They come with a zipper context (`Ctx`), so "the focus and the path up to the root"
is a value. `HeapOf(h, t, nill)` (`rb_view.dfy`) says that `h` is exactly the heap of the
tree `t`: every node carries the tree's key, colour and links, and nothing else is in the
heap.

The lemmas connect the two levels.

- On the heap of a red-black tree, the descent of `insert(d)` for a key `d` not yet in the
  tree reaches the sentinel below the node where `Attach` puts the new leaf.
- Linking the new leaf there gives the heap of the tree with the leaf attached.
- That state is exactly what `do_post_insert` expects (`FixInv`).
- Each branch of the fix-up either yields the heap of a red-black tree with the old keys
  plus `d`, or yields a heap in which one node is the child of two parents.

**`rotate_right` as written.** `rotate_right` hands `node->left_` to the old parent, not
`node->right_` (rb_tree.hpp:233). It also never writes `node->left_`. After the call, the
old parent and `node` therefore share `node`'s old left child. The model keeps this
behaviour.

- `MirrorRotateRight` is the mirror image of `rotate_left`. It is the reference that
  `rotate_right` is compared with.
- The two coincide exactly when `node`'s children are equal (`RotateRightIsMirror`). On
  the heap of a tree, that means both children are the sentinel (`RotateRightAsWritten`).

As a consequence:

- the left-left and left-right branches always leave a node with two parents;
- the right-left branch does so unless the node is a fresh leaf;
- the right-right branch is a true rotation.

`StopsWell` and `FixTree` (`rb_outcome.dfy`) say which insertions end in a red-black tree
and what that tree is. `PostInsertBad` and `PostInsertBreaks` prove that every other
insertion leaves a heap that is the heap of no tree. `InsertThreeTwoOne` exhibits one
such insertion: inserting 3, 2 and 1 in that order.

## How the ring buffer is modelled

`Lockless<T>` is a class (`lockless.dfy`):

- the storage `data_` is an `array<T>` whose length `count` is a power of two;
- `mask` is `count - 1`;
- the cursors `head`, `tail`, `leastHead` and `leastTail` are fields;
- `size_t` arithmetic is written out modulo 2^64 (`SIZE`), and `&` is `BitAnd` on
  naturals.

The model is sequential: every compare-and-swap succeeds the first time, and the
spin-waits on a full or empty buffer become preconditions. The contents a consumer can
observe, `Contents()`, are the slots from `tail` up to `leastHead`, modulo `count`.

- `Push` appends to the contents.
- `Pop` returns and removes their first element.
- The buffer holds at most `count - 1` items.

## Model

| member | source | states |
|---|---|---|
| RBNodes.RBNode.constructor | rbtree/rb_tree.hpp:25-26 | a new node holds `data`, is red and has no links |
| RBNodes.RBNode.GetGrandparent | rbtree/rb_tree.hpp:33-38 | null when there is no parent; otherwise the parent's parent, which is null when the parent is the root |
| RBNodes.RBNode.GetUncle | rbtree/rb_tree.hpp:40-49 | null when there is no grandparent, otherwise a child of the grandparent; when the parent is one of the grandparent's children, parent and uncle are exactly those two children |
| RBNodes.RBNode.GetSibling | rbtree/rb_tree.hpp:51-60 | null when there is no parent, otherwise a child of the parent; when the node is one of its parent's children, node and sibling are exactly those two |
| RBHeap.Grandparent | rbtree/rb_tree.hpp:33-38 | `get_grandparent` on a closed heap: null or a real node of the heap; `AccessorsRead` gives its value |
| RBHeap.Uncle | rbtree/rb_tree.hpp:40-49 | `get_uncle` on a closed heap: null exactly when there is no grandparent, otherwise a node of the heap (possibly the sentinel); `AccessorsRead` says which |
| RBHeap.Sibling | rbtree/rb_tree.hpp:51-60 | `get_sibling` on a closed heap: null exactly when there is no parent, otherwise a node of the heap; `AccessorsRead` says which |
| RBHeap.AccessorsOnObjects | rbtree/rb_tree.hpp:33-60 | on a closed heap that holds each object's current fields (as `RBTree.Snap()` does), `get_grandparent`, `get_uncle` and `get_sibling` return exactly the nodes `Grandparent`, `Uncle` and `Sibling` read off the heap |
| RBHeap.AccessorsRead | rbtree/rb_tree.hpp:33-60 | the grandparent is the parent's parent; the uncle is a child of the grandparent and the sibling a child of the parent; when the parent (the node) is one of those two children, it and the uncle (the sibling) are exactly the two |
| RBHeap.SetColorKeeps | rbtree/rb_tree.hpp:143-145 | recolouring a real node keeps the heap closed, every `data_` and every `parent_` |
| RBHeap.RotateLeft | rbtree/rb_tree.hpp:188-220 | `rotate_left` on a closed heap leaves it closed: the sentinel is never relinked (the `yp != nill_` guard) and every node keeps its `data_` |
| RBHeap.RotateRight | rbtree/rb_tree.hpp:222-254 | `rotate_right` as written leaves a closed heap closed, with every `data_` kept |
| RBHeap.MirrorRotateRight | rbtree/rb_tree.hpp:222-254 | the right rotation `rotate_right` is measured against (it hands over `node->right_`); it keeps the heap closed and every `data_` |
| RBHeap.CaseOf | rbtree/rb_tree.hpp:127-183 | whenever the fix-up gets past the two base cases, the parent is red and the grandparent exists, so `get_uncle` is not null |
| RBHeap.RecolourUp | rbtree/rb_tree.hpp:143-145 | the red-uncle recolouring keeps the heap closed, every `data_` and every `parent_` |
| RBHeap.PostInsert | rbtree/rb_tree.hpp:123-185 | `do_post_insert` on heap values. It requires a closed heap, a real `node`, a bound `k` on its parent chain and `RedHaveParents`; it has no contract of its own. Its properties are in `PostInsertKeepsData` (closure and every `data_` kept), `PostInsertGood`, `PostInsertBad` and `PostInsertBreaks` (the outcome on the heap of a tree) and `RBTrees.RBTree.DoPostInsert` (the object-level method equals it) |
| RBHeap.RecolourKeepsChains | rbtree/rb_tree.hpp:141-146 | the recursive call goes to a real grandparent whose parent chain is two nodes shorter, which is why `do_post_insert` terminates |
| RBOutcome.PostInsertKeepsData | rbtree/rb_tree.hpp:123-185 | on every closed heap, `do_post_insert` keeps the heap closed and never changes a `data_` |
| RBOutcome.RotationCaseKeepsData | rbtree/rb_tree.hpp:154-183 | the four rotation branches keep the heap closed and every `data_` |
| RBOutcome.PostInsertRedUncleIs | rbtree/rb_tree.hpp:141-146 | red uncle: recolour, then carry on two levels up with a chain bound two smaller |
| RBOutcome.RotationCaseColours | rbtree/rb_tree.hpp:151-152 | on the heap of a tree in the state the fix-up expects, every rotation branch is reached with a red parent, a black uncle (possibly the sentinel) and a black grandparent, as asserted |
| RBOutcome.AtRootHeap | rbtree/rb_tree.hpp:127-131 | a parentless node is coloured black and becomes `root_`; the heap is that of the tree with a black root |
| RBOutcome.BlackParentHeap | rbtree/rb_tree.hpp:135-136 | under a black parent the heap and `root_` are unchanged |
| RBOutcome.RedUncleHeap | rbtree/rb_tree.hpp:141-146 | the red-uncle step yields the heap of the recoloured tree, again in the state the fix-up expects, at a shallower node |
| RBOutcome.RightRightHeap | rbtree/rb_tree.hpp:169-175 | the right-right branch yields the heap of the left-rotated tree, and `root_` is that tree's root |
| RBOutcome.RightLeftHeap | rbtree/rb_tree.hpp:161-168 | on a fresh leaf, the right-left branch yields the heap of the double-rotated tree |
| RBOutcome.LeftLeftShares | rbtree/rb_tree.hpp:154-160 | the left-left branch leaves the node the left child of both its parent and its grandparent |
| RBOutcome.LeftRightShares | rbtree/rb_tree.hpp:176-183 | the left-right branch leaves the parent the left child of both the node and the grandparent |
| RBOutcome.RightLeftShares | rbtree/rb_tree.hpp:161-168 | when the node has subtrees, the right-left branch leaves the root of its left subtree with two parents |
| RBOutcome.LeafChildren | rbtree/rb_tree.hpp:151-152 | under a red parent, the node's two subtrees are both empty or both not empty |
| RBOutcome.FixTreeRedBlack | rbtree/rb_tree.hpp:123-185 | when the fix-up stops well, the tree it leaves is red-black, with the same nodes and the same in-order keys |
| RBOutcome.PostInsertGood | rbtree/rb_tree.hpp:123-185 | when the fix-up stops well, the heap and `root_` it leaves are those of `FixTree` |
| RBOutcome.PostInsertBad | rbtree/rb_tree.hpp:123-185 | otherwise it leaves a node that is the child of two parents |
| RBOutcome.PostInsertBreaks | rbtree/rb_tree.hpp:123-185 | otherwise the heap it leaves is the heap of no tree |
| RBPostInsert.CaseOfTree | rbtree/rb_tree.hpp:127-183 | on the heap of a tree in the state the fix-up expects, the branch taken is the one the tree's shape dictates, and never "no branch" |
| RBPostInsert.RedParentLinks | rbtree/rb_tree.hpp:141-176 | under a red parent, the parent, grandparent, uncle and the left/right tests read on the heap are the tree's |
| RBPostInsert.SetColorFocus | rbtree/rb_tree.hpp:143-179 | recolouring a node of a tree's heap gives the heap of the recoloured tree |
| RBPostInsert.RecolourHeap | rbtree/rb_tree.hpp:143-145 | on the heap of a tree, the recolouring gives the heap of the recoloured tree |
| RBPostInsert.RotateLeftWrites | rbtree/rb_tree.hpp:197-219 | the fields of `node`, `fa`, `yp` and the grandparent after `rotate_left`, and that every other node is untouched |
| RBPostInsert.RotateLeftView | rbtree/rb_tree.hpp:188-220 | on the heap of a tree, `rotate_left` at a right child gives the heap of the tree rotated left at its parent, and the new `root_` |
| RBPostInsert.RotateRightWrites | rbtree/rb_tree.hpp:231-253 | the fields of `node`, `fa`, `yp` and the grandparent after `rotate_right` as written, and that every other node is untouched |
| RBPostInsert.RotateRightFields | rbtree/rb_tree.hpp:231-253 | on the heap of a tree, `rotate_right` at a left child gives `fa` and `node` the same left child, `node`'s old one |
| RBPostInsert.RotateRightParentLeft | rbtree/rb_tree.hpp:233-235 | after `rotate_right`, `fa->left_` is `node`'s old left child |
| RBPostInsert.MirrorRotateRightParentLeft | rbtree/rb_tree.hpp:222-254 | after the mirror rotation, `fa->left_` is `node`'s old right child |
| RBPostInsert.RotateRightIsMirror | rbtree/rb_tree.hpp:222-254 | `rotate_right` equals the mirror of `rotate_left` if and only if `node->left_ == node->right_` |
| RBPostInsert.RotateRightAsWritten | rbtree/rb_tree.hpp:222-254 | on the heap of a tree, `rotate_right` leaves a non-empty left subtree with two parents, and is a true rotation exactly when both of `node`'s subtrees are empty |
| RBPostInsert.MirrorRotateRightView | rbtree/rb_tree.hpp:222-254 | the mirror rotation on the heap of a tree gives the heap of the tree rotated right |
| RBPostInsert.HeapOfUnshared | rbtree/rb_tree.hpp:16-22 | the heap of a tree has no child shared by two nodes |
| RBShape.RotationInOrder | rbtree/rb_tree.hpp:188-220 | a rotation keeps the in-order key sequence of the whole tree |
| RBShape.AttachKeys | rbtree/rb_tree.hpp:95-120 | the descent adds the new key to the in-order keys and changes nothing else in them |
| RBShape.AttachOrdered | rbtree/rb_tree.hpp:95-120 | descending left when `data < node->data_` and right otherwise keeps the search-tree ordering, for a key not met on the way |
| RBShape.AttachNodes | rbtree/rb_tree.hpp:95-120 | exactly one node, the new one, is added |
| RBShape.AttachBalanced | rbtree/rb_tree.hpp:95-120 | a new red leaf changes no black height |
| RBShape.AttachRedRule | rbtree/rb_tree.hpp:95-120 | a new red leaf can break the red rule only at its parent |
| RBShape.AttachFixInv | rbtree/rb_tree.hpp:95-120 | after the attachment, the tree is in the state `do_post_insert(tmp)` expects |
| RBShape.SearchPathFinds | rbtree/rb_tree.hpp:93 | in an ordered tree, the descent meets `data` exactly when `data` is already a key (the duplicate-key assert) |
| RBFixup.RedParent | rbtree/rb_tree.hpp:151-152 | in the state the fix-up expects, a red parent has a black parent and black siblings around it |
| RBFixup.RecolourFixInv | rbtree/rb_tree.hpp:141-146 | the recolouring keeps the fix-up's invariant at the grandparent, with the same in-order keys and nodes |
| RBFixup.AtRootRedBlack | rbtree/rb_tree.hpp:127-131 | a red root turned black gives a red-black tree |
| RBFixup.BlackParentRedBlack | rbtree/rb_tree.hpp:135-136 | under a black parent the tree is already red-black |
| RBFixup.RightRightRedBlack | rbtree/rb_tree.hpp:169-175 | the right-right rotation gives a red-black tree with the same keys in order and the same nodes |
| RBFixup.RightLeftRedBlack | rbtree/rb_tree.hpp:161-168 | the right-left case read as a double rotation gives a red-black tree with the same keys in order and the same nodes |
| RBInsert.PlantRoot | rbtree/rb_tree.hpp:79-85 | the new root of an empty tree, on heap values; no contract of its own, `PlantRootView` states what it builds |
| RBInsert.PlantRootView | rbtree/rb_tree.hpp:79-85 | inserting into an empty tree gives the heap of a one-node tree: black root, no parent, both children the sentinel |
| RBInsert.LinkLeaf | rbtree/rb_tree.hpp:101-104 | the new leaf linked under `node` on heap values (also lines 114-117); requires only that `node` is in the heap; no contract of its own, `LinkLeafView` states what it builds and `RBTrees.RBTree.LinkNew` equals it |
| RBInsert.LinkLeafView | rbtree/rb_tree.hpp:99-118 | linking the new red node, with sentinel children and the last visited node as parent, gives the heap of the tree with the leaf attached |
| RBInsert.InsertRedBlack | rbtree/rb_tree.hpp:77-120 | after the attachment the fix-up's invariant holds; when it stops well the result is red-black, holds the old keys plus `data`, and has exactly one new node |
| RBInsert.LeafReady | rbtree/rb_tree.hpp:95-119 | the descent ends below a node of the heap, on its left exactly when `data` is below that node's key; linking there gives the heap of the attached tree in the state the fix-up expects |
| RBInsert.LinkedLeafFixes | rbtree/rb_tree.hpp:105-118 | from the linked new leaf, `do_post_insert` ends in the outcome `Inserted` describes |
| RBInsert.InsertHeap | rbtree/rb_tree.hpp:77-120 | a whole `insert(data)` on the heap of a red-black tree without `data`; no contract of its own, `InsertOutcome` states its outcome and `InsertHeapNode` its unfolding |
| RBInsert.InsertHeapNode | rbtree/rb_tree.hpp:90-120 | on a non-empty tree, `insert` is the link below the node the descent ends at, followed by `do_post_insert` from the new node |
| RBInsert.InsertHeapLeaf | rbtree/rb_tree.hpp:99-118 | the same, seen from the node where the descent stops and the side it takes |
| RBInsert.InsertOutcome | rbtree/rb_tree.hpp:77-120 | `insert(data)` on the heap of a red-black tree without `data`: a good stop leaves the heap of the red-black `FixTree`, and any other ending leaves a node with two parents |
| RBInsert.InsertThreeTwoOne | rbtree/rb_tree.hpp:154-160 | inserting 3 and then 2 gives a red-black tree, and inserting 1 into it starts a fix-up that does not stop well, so it leaves a node with two parents |
| RBTrees.RBTree.constructor | rbtree/rb_tree.hpp:70-75 | the sentinel is black, holds -1 and has null links; the tree is empty |
| RBTrees.RBTree.Insert | rbtree/rb_tree.hpp:77-88 | exactly one fresh node joins the tree's objects, and the new fields and `root_` are `InsertHeap` of the old ones |
| RBTrees.RBTree.InsertAt | rbtree/rb_tree.hpp:90-121 | the recursive descent from any node on the search path adds one fresh node and leaves `InsertHeap` of the old state |
| RBTrees.RBTree.AddLeaf | rbtree/rb_tree.hpp:99-118 | link one fresh node below `node`, then `do_post_insert`; the result is `InsertHeap` of the old state |
| RBTrees.RBTree.LinkNew | rbtree/rb_tree.hpp:101-104 | one fresh node joins, `root_` is unchanged and the new fields are `LinkLeaf` of the old ones |
| RBTrees.RBTree.DoPostInsert | rbtree/rb_tree.hpp:123-185 | the new fields and `root_` are `PostInsert` of the old ones |
| RBTrees.RBTree.FixRedUncle | rbtree/rb_tree.hpp:141-147 | the same, in the red-uncle branch |
| RBTrees.RBTree.Recolour | rbtree/rb_tree.hpp:143-145 | the new fields are `RecolourUp` of the old ones |
| RBTrees.RBTree.FixLeftLeft | rbtree/rb_tree.hpp:154-160 | the same as `DoPostInsert`, in the left-left branch |
| RBTrees.RBTree.FixRightLeft | rbtree/rb_tree.hpp:161-168 | the same, in the right-left branch |
| RBTrees.RBTree.FixRightRight | rbtree/rb_tree.hpp:169-175 | the same, in the right-right branch |
| RBTrees.RBTree.FixLeftRight | rbtree/rb_tree.hpp:176-183 | the same, in the left-right branch |
| RBTrees.RBTree.RotateLeft | rbtree/rb_tree.hpp:188-220 | the new fields and `root_` are `RBHeap.RotateLeft` of the old ones |
| RBTrees.RBTree.RotateRight | rbtree/rb_tree.hpp:222-254 | the new fields and `root_` are `RBHeap.RotateRight` of the old ones |
| RBTrees.RBTree.HandRight | rbtree/rb_tree.hpp:201-203 | `fa->right_` becomes `yp`, and `yp->parent_` becomes `fa` unless `yp` is the sentinel |
| RBTrees.RBTree.HandLeft | rbtree/rb_tree.hpp:235-237 | `fa->left_` becomes `yp`, and `yp->parent_` becomes `fa` unless `yp` is the sentinel |
| RBTrees.RBTree.ReplaceChild | rbtree/rb_tree.hpp:213-219 | the grandparent, if any, takes `node` in place of `fa` on the side where `fa` was |
| Lockless.Aborts | lockless/lockless.hpp:23-26 | the constructor aborts exactly when `sz` is 0 or `SIZE_MAX` (`sz + 1` wraps below 2) |
| Lockless.SmallestPow2 | lockless/lockless.hpp:28-31 | the doubled `align_size` is the smallest power of two reaching `sz + 1` |
| Lockless.DoublingFits | lockless/lockless.hpp:28-29 | doubling `align_size` below `sz + 1 <= 2^63` neither wraps nor exceeds 2^63 |
| Lockless.Lockless.constructor | lockless/lockless.hpp:20-40 | `count_` is the smallest power of two at least `sz + 1`, `mask_ == count_ - 1`, the storage has `count_` slots, all four cursors are 0, and the buffer is empty |
| Lockless.MaskIsMod | lockless/lockless.hpp:88-91 | `x & (2^k - 1)` equals `x mod 2^k` |
| Lockless.NextIsSuccessorMod | lockless/lockless.hpp:88-91 | `next(curr)` equals `(curr + 1) mod count_` and is below `count_`, `size_t` wrap-around included |
| Lockless.Next | lockless/lockless.hpp:88-91 | `(curr + 1) & mask` with `size_t` wrap-around, for any cursor; no contract of its own, `NextIsSuccessorMod` states its meaning |
| Lockless.Lockless.NextIndex | lockless/lockless.hpp:88-91 | the cursor after `curr` is `(curr + 1) mod count_` |
| Lockless.WindowLength | lockless/lockless.hpp:8-12 | the region from `tail` to `least_head` holds `(least_head - tail) mod count_` items, never all `count_` of them |
| Lockless.FullIff | lockless/lockless.hpp:46-48 | `next(head) == least_tail` exactly when `count_ - 1` items are held |
| Lockless.WindowPush | lockless/lockless.hpp:54-56 | writing slot `head` and advancing it appends the item to the region |
| Lockless.WindowPop | lockless/lockless.hpp:76-78 | reading slot `tail` yields the region's first item, and advancing `tail` drops it |
| Lockless.Lockless.IsFull | lockless/lockless.hpp:46-48 | the condition `push` spins on; no contract of its own, `FullMeansCapacity` states its meaning |
| Lockless.Lockless.IsEmpty | lockless/lockless.hpp:68-70 | the condition `pop` spins on; no contract of its own, `FullMeansCapacity` states its meaning |
| Lockless.Lockless.FullMeansCapacity | lockless/lockless.hpp:46-70 | the `push` wait holds exactly when `count_ - 1` items are held, the `pop` wait exactly when none are, and never more than `count_ - 1` are held |
| Lockless.Lockless.Push | lockless/lockless.hpp:42-61 | when not full: `item` goes to the old `head_`, which together with `least_head_` advances to `next(head)`; no other slot and no read cursor changes; the contents gain `item` at the end |
| Lockless.Lockless.Pop | lockless/lockless.hpp:63-83 | when not empty: it returns `data_[tail]`, the oldest item, and advances `tail_` and `least_tail_`; the storage and the write cursors are unchanged; the contents lose their first item |

## Left out

- `std::shared_ptr` reference counting and destruction order: nodes are plain heap objects, and the destructor's console output is not modelled.
- Console output: `display`, `pre_order`, `in_order` and `post_order`, and the print in the `Lockless` constructor. They only write to `std::cout`.
- The concurrent protocol of `Lockless`: interleavings, atomicity of `__sync_bool_compare_and_swap`, `volatile`, memory ordering, `sched_yield` and liveness. Every compare-and-swap succeeds on its first attempt, so `head_ == least_head_` and `tail_ == least_tail_` hold between calls. The spin-waits become the preconditions `!IsFull()` and `!IsEmpty()`.
- Lockless.Lockless.constructor: `abort()` is the precondition `!Aborts(sz)`. Requests with `sz + 1 > 2^63` are excluded by precondition, because for them the doubling of `align_size` wraps to 0 and never ends.
- `assert(root_)` and `assert(data != node->data_)` in `insert(node, data)` become the preconditions that the tree is non-empty and that `data` is not on the search path (`SearchPathFinds`: that is, not a key of the tree).
- RBTrees.RBTree.Insert: requires the objects to form the heap of a red-black tree (`HeapOf` and `IsRedBlack`). The source also runs `insert` on heaps that are no tree, for example the heap its own left-left branch leaves: after inserting 3, 2 and 1, `insert(4)` links 4 under 3 and ends without tripping an assert. The model does not describe insertion into such heaps, because the descent and its outcome are stated over abstract trees.
- RBTrees.RBTree.InsertAt: requires the same heap of a red-black tree, and requires `node` to lie on the search path of `data` from `root_`. The source's public `insert(node, data)` starts at any node it is given, and that call is not modelled.
- RBTrees.RBTree.DoPostInsert: requires `RedHaveParents`: every red node other than `node` has a parent. Without it, a red parent that is the root makes `get_uncle()` null, and `do_post_insert` dereferences it at rb_tree.hpp:141. That crash path is not modelled.
- RBTrees.RBTree.DoPostInsert: the `assert`s at rb_tree.hpp:125 and 151-152 are not checked inside the method. `RotationCaseColours` proves the colours of 151-152 on the heap of a red-black tree with a new leaf.
- RBTrees.RBTree.DoPostInsert: the branches re-read `node->parent_`, `get_grandparent()` and `get_uncle()` at every use. The methods read each once, since only colours are written in between.
- RBHeap.PostInsert: the fix-up on an arbitrary heap carries a bound `k` on the length of the parent chain, which the source does not have. On the heap of a tree, `k` is the depth of the new node plus one.
- RBInsert.InsertOutcome: when the fix-up does not stop well, the outcome is characterised only as "a node with two parents" (and "the heap of no tree", `PostInsertBreaks`), not field by field.
- RBOutcome.RightLeftHeap: the right-left branch is proved to build a red-black tree only on a fresh leaf, which is the only way insertion reaches it without the red-uncle step. After a red-uncle step, the node has subtrees and `RightLeftShares` applies.
