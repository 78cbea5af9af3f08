/** `insert` of rbtree/rb_tree.hpp:77-120 on heaps: the new root of an empty tree, the new
    leaf linked under the node where the descent reaches the sentinel, and what insertion
    into a red-black tree leaves once `do_post_insert` has run. */
module RBInsert {
  import opened RBNodes
  import opened RBHeap
  import opened RBShape
  import opened RBView
  import opened RBFixup
  import opened RBPostInsert
  import opened RBOutcome

  /** `insert(data)` on an empty tree (rb_tree.hpp:79-85): the new node `x` becomes a black
      root with no parent and the sentinel as both children. */
  ghost function PlantRoot(h: Heap, x: RBNode, d: int, nill: RBNode): Heap
  {
    h[x := Links(d, Black, nill, nill, null)]
  }

  lemma PlantRootView(h: Heap, x: RBNode, d: int, nill: RBNode)
    requires HeapOf(h, Leaf, nill) && x !in h
    ensures HeapOf(PlantRoot(h, x, d, nill), Node(Leaf, x, d, Black, Leaf), nill)
  {
  }

  /** The new node `x`, holding `d`, linked under `node` (rb_tree.hpp:101-104 and 112-115):
      its children are the sentinel, its parent `node`, and it becomes `node`'s left child
      when `left` holds, else its right child. */
  ghost function LinkLeaf(h: Heap, node: RBNode, x: RBNode, d: int, nill: RBNode, left: bool): Heap
    requires node in h
  {
    var h1 := h[x := Links(d, Red, nill, nill, node)];
    if left then h1[node := h[node].(left := x)] else h1[node := h[node].(right := x)]
  }

  /** Linking the new node under the focus: the focus with its new leaf is represented. */
  lemma LinkLeafFocus(h: Heap, p: RBNode?, s: Tree, x: RBNode, d: int, nill: RBNode)
    requires Represents(h, s, p, nill) && s.Node? && Distinct(s) && x !in h && nill !in Nodes(s)
    requires if d < s.key then s.left.Leaf? else s.right.Leaf?
    ensures s.ref in h
    ensures Represents(LinkLeaf(h, s.ref, x, d, nill, d < s.key), Attach(s, x, d), p, nill)
  {
    var h' := LinkLeaf(h, s.ref, x, d, nill, d < s.key);
    var leaf := Node(Leaf, x, d, Red, Leaf);
    var s' := if d < s.key then Node(leaf, s.ref, s.key, s.color, s.right) else Node(s.left, s.ref, s.key, s.color, leaf);
    assert s' == Attach(s, x, d);
    RepresentsLinks(h, s, p, nill);
    assert Agree(h, h', Nodes(s.left) + Nodes(s.right));
    RepresentsFrame(h, h', s.left, s.ref, nill);
    RepresentsFrame(h, h', s.right, s.ref, nill);
    assert Represents(h', leaf, s.ref, nill);
  }

  /** Where the descent in the heap of a tree reaches the sentinel, linking the new node
      gives a heap that represents the tree with the new red leaf in that place. */
  lemma LinkLeafRepresents(h: Heap, c: Ctx, s: Tree, x: RBNode, d: int, nill: RBNode)
    requires HeapOf(h, Plug(c, s), nill) && s.Node? && x !in h
    requires if d < s.key then s.left.Leaf? else s.right.Leaf?
    ensures s.ref in h
    ensures Represents(LinkLeaf(h, s.ref, x, d, nill, d < s.key), Plug(c, Attach(s, x, d)), null, nill)
  {
    HeapOfFacts(h, c, s, nill);
    PlugRepresents(h, c, s, nill);
    var h' := LinkLeaf(h, s.ref, x, d, nill, d < s.key);
    LinkLeafFocus(h, CtxParent(c), s, x, d, nill);
    assert Agree(h, h', CtxNodes(c));
    CtxFrame(h, h', c, s.ref, nill);
    PlugRepresents(h', c, Attach(s, x, d), nill);
  }

  /** ... and that heap is exactly the heap of the new tree. */
  lemma LinkLeafView(h: Heap, c: Ctx, s: Tree, x: RBNode, d: int, nill: RBNode)
    requires HeapOf(h, Plug(c, s), nill) && s.Node? && x !in h
    requires if d < s.key then s.left.Leaf? else s.right.Leaf?
    requires Distinct(Plug(c, Attach(s, x, d)))
    ensures s.ref in h
    ensures HeapOf(LinkLeaf(h, s.ref, x, d, nill, d < s.key), Plug(c, Attach(s, x, d)), nill)
  {
    LinkLeafRepresents(h, c, s, x, d, nill);
    HeapOfFacts(h, c, s, nill);
    PlugNodes(c, s);
    PlugNodes(c, Attach(s, x, d));
    AttachNodes(s, x, d);
  }

  /** Inserting `d` into a red-black tree: when the fix-up stops well the tree left is
      red-black and holds the old keys and `d`, in order, in the old nodes and the new one. */
  lemma InsertRedBlack(t: Tree, x: RBNode, d: int)
    requires IsRedBlack(t) && Distinct(t) && x !in Nodes(t) && d !in SearchPath(t, d)
    ensures var c := AttachCtx(Top, t, d); var s := Node(Leaf, x, d, Red, Leaf);
      FixInv(c, s) &&
      (StopsWell(c, s) ==>
        IsRedBlack(FixTree(c, s)) &&
        multiset(InOrder(FixTree(c, s))) == multiset(InOrder(t)) + multiset{d} &&
        Nodes(FixTree(c, s)) == Nodes(t) + {x})
  {
    var c := AttachCtx(Top, t, d);
    var s := Node(Leaf, x, d, Red, Leaf);
    AttachFixInv(t, x, d);
    AttachCtxPlug(Top, t, x, d);
    AttachKeys(t, x, d);
    AttachNodes(t, x, d);
    if StopsWell(c, s) {
      FixTreeRedBlack(c, s);
    }
  }

  /** Linking a new leaf below the root keeps the root. */
  lemma AttachKeepsRoot(c: Ctx, s: Tree, x: RBNode, d: int)
    requires s.Node?
    ensures RootOf(Plug(c, Attach(s, x, d))) == RootOf(Plug(c, s))
  {
    if !c.Top? {
      PlugRoot(c, s, Attach(s, x, d));
    }
  }

  /** Where the descent of `insert` for `d` in the red-black tree `t` reaches the sentinel
      below the focus `s`, linking the new node `x` gives the heap of the tree with `x` in the
      context `AttachCtx(Top, t, d)`, in the state `do_post_insert(x)` expects. */
  lemma LinkedLeafReady(h: Heap, root: RBNode?, t: Tree, c: Ctx, s: Tree, x: RBNode, d: int, nill: RBNode)
    requires HeapOf(h, t, nill) && root == RootOf(t) && IsRedBlack(t) && d !in SearchPath(t, d)
    requires t == Plug(c, s) && s.Node? && AttachCtx(Top, t, d) == AttachCtx(c, s, d)
    requires if d < s.key then s.left.Leaf? else s.right.Leaf?
    requires x !in h
    ensures s.ref in h && Distinct(t) && x !in Nodes(t)
    ensures var h' := LinkLeaf(h, s.ref, x, d, nill, d < s.key);
      var c' := AttachCtx(Top, t, d); var f := Node(Leaf, x, d, Red, Leaf);
      HeapOf(h', Plug(c', f), nill) && FixInv(c', f) && root == RootOf(Plug(c', f)) &&
      AncestorsWithin(h', x, Depth(c') + 1)
  {
    HeapOfFacts(h, c, s, nill);
    var h' := LinkLeaf(h, s.ref, x, d, nill, d < s.key);
    var c' := AttachCtx(Top, t, d);
    var f := Node(Leaf, x, d, Red, Leaf);
    assert x !in Nodes(t);
    InsertRedBlack(t, x, d);
    AttachCtxPlug(c, s, x, d);
    LinkLeafView(h, c, s, x, d, nill);
    FocusChain(h', c', f, nill);
    AttachKeepsRoot(c, s, x, d);
  }

  /** From the state `LinkedLeafReady` leaves, `do_post_insert(x)` does what `Inserted`
      says. */
  lemma LinkedLeafFixes(h: Heap, root: RBNode?, t: Tree, x: RBNode, d: int, nill: RBNode)
    requires IsRedBlack(t) && Distinct(t) && x !in Nodes(t) && d !in SearchPath(t, d)
    requires var c := AttachCtx(Top, t, d); var f := Node(Leaf, x, d, Red, Leaf);
      HeapOf(h, Plug(c, f), nill) && FixInv(c, f) && root == RootOf(Plug(c, f)) &&
      AncestorsWithin(h, x, Depth(c) + 1)
    ensures Closed(h, nill) && x in h && x != nill && RedHaveParents(h, nill, x)
    ensures var r := PostInsert(h, root, x, nill, Depth(AttachCtx(Top, t, d)) + 1);
      Inserted(r.0, r.1, t, x, d, nill)
  {
    var c := AttachCtx(Top, t, d);
    var f := Node(Leaf, x, d, Red, Leaf);
    if StopsWell(c, f) {
      PostInsertGood(h, root, c, f, nill, Depth(c) + 1);
      InsertRedBlack(t, x, d);
    } else {
      PostInsertBad(h, root, c, f, nill, Depth(c) + 1);
    }
  }

  /** What `insert(d)` leaves, `t` being the tree before and `x` the new node: the fix-up
      starts from `x`, red, where the descent for `d` reaches the sentinel.  When it stops well
      the objects form the tree `FixTree` of it and `root_` is its root (`InsertRedBlack` shows
      that tree red-black, holding the old keys and `d`); otherwise two objects link the same
      child. */
  ghost predicate Inserted(h: Heap, root: RBNode?, t: Tree, x: RBNode, d: int, nill: RBNode)
  {
    var c := AttachCtx(Top, t, d);
    var f := Node(Leaf, x, d, Red, Leaf);
    (StopsWell(c, f) ==> HeapOf(h, FixTree(c, f), nill) && root == RootOf(FixTree(c, f))) &&
    (!StopsWell(c, f) ==> HasSharedChild(h, nill))
  }

  /** In a non-empty red-black tree without `d`, the descent for `d` reaches the sentinel
      below the parent of `AttachCtx(Top, t, d)`, on its left exactly when `d` is below that
      node's `data_`; linking `x` there gives the state `do_post_insert(x)` expects. */
  lemma LeafReady(h: Heap, root: RBNode?, t: Tree, x: RBNode, d: int, nill: RBNode)
    requires HeapOf(h, t, nill) && root == RootOf(t) && IsRedBlack(t) && d !in SearchPath(t, d)
    requires x !in h && t.Node?
    ensures var c := AttachCtx(Top, t, d);
      !c.Top? && c.ref in h && c.ref != nill && (c.InLeft? <==> d < h[c.ref].data)
    ensures Distinct(t) && x !in Nodes(t)
    ensures var c := AttachCtx(Top, t, d); var f := Node(Leaf, x, d, Red, Leaf);
      var h' := LinkLeaf(h, c.ref, x, d, nill, d < h[c.ref].data);
      HeapOf(h', Plug(c, f), nill) && FixInv(c, f) && root == RootOf(Plug(c, f)) &&
      AncestorsWithin(h', x, Depth(c) + 1)
    ensures var c := AttachCtx(Top, t, d);
      var h' := LinkLeaf(h, c.ref, x, d, nill, d < h[c.ref].data);
      Closed(h', nill) && x in h' && x != nill && RedHaveParents(h', nill, x)
  {
    var a := AttachCtx(Top, t, d);
    AttachCtxLast(Top, t, d);
    var s := Up(a, Leaf);
    HeapOfFacts(h, a.up, s, nill);
    PlugRepresents(h, a.up, s, nill);
    LinkedLeafReady(h, root, t, a.up, s, x, d, nill);
    var h' := LinkLeaf(h, a.ref, x, d, nill, d < h[a.ref].data);
    var f := Node(Leaf, x, d, Red, Leaf);
    HeapOfFacts(h', a, f, nill);
    FixInvRedParents(h', a, f, nill);
  }

  /** The part of `LeafReady` that `do_post_insert(x)` needs: the heap after linking `x` is
      closed, the parent chain of `x` is finite and every other red node has a parent. */
  lemma LeafLinks(h: Heap, root: RBNode?, t: Tree, x: RBNode, d: int, nill: RBNode)
    requires HeapOf(h, t, nill) && root == RootOf(t) && IsRedBlack(t) && d !in SearchPath(t, d)
    requires x !in h && t.Node?
    ensures var c := AttachCtx(Top, t, d); !c.Top? && c.ref in h
    ensures var c := AttachCtx(Top, t, d); var h' := LinkLeaf(h, c.ref, x, d, nill, d < h[c.ref].data);
      Closed(h', nill) && x != nill && AncestorsWithin(h', x, Depth(c) + 1) && RedHaveParents(h', nill, x)
  {
    LeafReady(h, root, t, x, d, nill);
  }

  /** `insert(data)` (rb_tree.hpp:77-120) on the heap `h` of the tree `t`, `x` being the new
      node: an empty tree gets `x` as its black root; otherwise `x` is linked, red, below the
      node where the descent for `d` reaches the sentinel, and `do_post_insert(x)` runs. */
  ghost function InsertHeap(h: Heap, root: RBNode?, t: Tree, x: RBNode, d: int, nill: RBNode): (Heap, RBNode?)
    requires HeapOf(h, t, nill) && root == RootOf(t) && IsRedBlack(t) && d !in SearchPath(t, d)
    requires x !in h
  {
    if t.Leaf? then (PlantRoot(h, x, d, nill), x)
    else
      LeafLinks(h, root, t, x, d, nill);
      var c := AttachCtx(Top, t, d);
      PostInsert(LinkLeaf(h, c.ref, x, d, nill, d < h[c.ref].data), root, x, nill, Depth(c) + 1)
  }

  /** `InsertHeap` on a non-empty tree: `x` linked below the node where the descent ends. */
  lemma InsertHeapNode(h: Heap, root: RBNode?, t: Tree, x: RBNode, d: int, nill: RBNode)
    requires HeapOf(h, t, nill) && root == RootOf(t) && IsRedBlack(t) && d !in SearchPath(t, d)
    requires x !in h && t.Node?
    ensures var c := AttachCtx(Top, t, d); !c.Top? && c.ref in h
    ensures var c := AttachCtx(Top, t, d); var h' := LinkLeaf(h, c.ref, x, d, nill, d < h[c.ref].data);
      Closed(h', nill) && x != nill && AncestorsWithin(h', x, Depth(c) + 1) && RedHaveParents(h', nill, x)
    ensures var c := AttachCtx(Top, t, d);
      InsertHeap(h, root, t, x, d, nill) ==
      PostInsert(LinkLeaf(h, c.ref, x, d, nill, d < h[c.ref].data), root, x, nill, Depth(c) + 1)
  {
    LeafLinks(h, root, t, x, d, nill);
  }

  /** The node at the focus of a tree the heap holds is in the heap. */
  lemma FocusInHeap(h: Heap, c: Ctx, s: Tree, nill: RBNode)
    requires HeapOf(h, Plug(c, s), nill) && s.Node?
    ensures s.ref in h && s.ref != nill
  {
    HeapOfFacts(h, c, s, nill);
  }

  /** `InsertHeapNode` seen from the node `s.ref` where the descent ends: `x` goes to its left
      when `left` holds, else to its right. */
  lemma InsertHeapLeaf(h: Heap, root: RBNode?, c: Ctx, s: Tree, t: Tree, x: RBNode, d: int, nill: RBNode, left: bool)
    requires HeapOf(h, t, nill) && root == RootOf(t) && IsRedBlack(t) && d !in SearchPath(t, d)
    requires t == Plug(c, s) && s.Node? && AttachCtx(Top, t, d) == AttachCtx(c, s, d)
    requires left == (d < s.key) && if left then s.left.Leaf? else s.right.Leaf?
    requires s.ref in h && x !in h
    ensures var h' := LinkLeaf(h, s.ref, x, d, nill, left); var k := Depth(AttachCtx(Top, t, d)) + 1;
      Closed(h', nill) && x != nill && x in h' && AncestorsWithin(h', x, k) && RedHaveParents(h', nill, x) &&
      InsertHeap(h, root, t, x, d, nill) == PostInsert(h', root, x, nill, k)
  {
    HeapOfFacts(h, c, s, nill);
    PlugRepresents(h, c, s, nill);
    assert AttachCtx(Top, t, d).ref == s.ref && left == (d < h[s.ref].data);
    InsertHeapNode(h, root, t, x, d, nill);
  }

  /** What `insert(d)` leaves: `Inserted`, and, when the fix-up stops well, a red-black tree
      holding the old keys and `d` (`InsertRedBlack`). */
  lemma InsertOutcome(h: Heap, root: RBNode?, t: Tree, x: RBNode, d: int, nill: RBNode)
    requires HeapOf(h, t, nill) && root == RootOf(t) && IsRedBlack(t) && d !in SearchPath(t, d)
    requires x !in h
    ensures var r := InsertHeap(h, root, t, x, d, nill); Inserted(r.0, r.1, t, x, d, nill)
  {
    var r := InsertHeap(h, root, t, x, d, nill);
    if t.Leaf? {
      PlantRootView(h, x, d, nill);
      InsertRedBlack(t, x, d);
    } else {
      LeafReady(h, root, t, x, d, nill);
      var c := AttachCtx(Top, t, d);
      var h' := LinkLeaf(h, c.ref, x, d, nill, d < h[c.ref].data);
      InsertHeapNode(h, root, t, x, d, nill);
      LinkedLeafFixes(h', root, t, x, d, nill);
    }
  }

  /** Inserting 3, 2 and 1 in that order, as rb_tree.hpp does it: the second insertion leaves
      a red-black tree, and the third reaches the left-left case, which `rotate_right` leaves
      with the new node the child of two parents. */
  lemma InsertThreeTwoOne(n3: RBNode, n2: RBNode, n1: RBNode)
    requires n3 != n2 && n2 != n1 && n1 != n3
    ensures var t := Node(Node(Leaf, n2, 2, Red, Leaf), n3, 3, Black, Leaf);
      IsRedBlack(t) && t == Attach(Node(Leaf, n3, 3, Black, Leaf), n2, 2) &&
      !StopsWell(AttachCtx(Top, t, 1), Node(Leaf, n1, 1, Red, Leaf))
  {
    var t := Node(Node(Leaf, n2, 2, Red, Leaf), n3, 3, Black, Leaf);
    assert InOrder(t) == [2, 3];
    var c := InLeft(InLeft(Top, n3, 3, Black, Leaf), n2, 2, Red, Leaf);
    assert AttachCtx(Top, t, 1) == AttachCtx(InLeft(Top, n3, 3, Black, Leaf), Node(Leaf, n2, 2, Red, Leaf), 1);
    assert AttachCtx(InLeft(Top, n3, 3, Black, Leaf), Node(Leaf, n2, 2, Red, Leaf), 1) == AttachCtx(c, Leaf, 1);
    assert TreeCase(c, Node(Leaf, n1, 1, Red, Leaf)) == LeftLeft;
  }
}
