/** When a heap of `RBHeap` is the heap of an abstract tree of `RBShape`: every node of the
    tree is an object of the heap whose `left_`, `right_` and `parent_` are the tree's links
    (the sentinel `nill_` standing for every leaf) and whose `data_` and `color_` are the
    node's key and colour. */
module RBView {
  import opened RBNodes
  import opened RBHeap
  import opened RBShape

  /** The object a subtree is reached through: its root, or the sentinel for a leaf. */
  function Ptr(t: Tree, nill: RBNode): RBNode
  {
    if t.Leaf? then nill else t.ref
  }

  /** `root_` of a tree: null when the tree is empty. */
  function RootOf(t: Tree): RBNode?
  {
    if t.Leaf? then null else t.ref
  }

  /** The fields of every node of `t` are those of the tree, the root's parent being
      `parent`. */
  ghost predicate Represents(h: Heap, t: Tree, parent: RBNode?, nill: RBNode)
  {
    match t
    case Leaf => true
    case Node(l, n, k, c, r) =>
      n in h && h[n] == Links(k, c, Ptr(l, nill), Ptr(r, nill), parent) &&
      Represents(h, l, n, nill) && Represents(h, r, n, nill)
  }

  /** The fields of every node of the context `c` are those of the context, the focus being
      reached through `focus`. */
  ghost predicate RepresentsCtx(h: Heap, c: Ctx, focus: RBNode, nill: RBNode)
    decreases c
  {
    match c
    case Top => true
    case InLeft(up, n, k, col, r) =>
      n in h && h[n] == Links(k, col, focus, Ptr(r, nill), CtxParent(up)) &&
      Represents(h, r, n, nill) && RepresentsCtx(h, up, n, nill)
    case InRight(l, n, k, col, up) =>
      n in h && h[n] == Links(k, col, Ptr(l, nill), focus, CtxParent(up)) &&
      Represents(h, l, n, nill) && RepresentsCtx(h, up, n, nill)
  }

  /** `h` is exactly the heap of the tree `t`: its objects are the tree's nodes and the
      sentinel, which keeps the fields the constructor of `RBTree` gave it. */
  ghost predicate HeapOf(h: Heap, t: Tree, nill: RBNode)
  {
    Distinct(t) && nill !in Nodes(t) && h.Keys == Nodes(t) + {nill} && h[nill] == Sentinel &&
    Represents(h, t, null, nill)
  }

  // ---------------------------------------------------------------------------------------
  // Frames

  /** The two heaps hold the same fields for every object of `s`. */
  ghost predicate Agree(h: Heap, h': Heap, s: set<RBNode>)
  {
    forall m {:trigger m in s} {:trigger h'[m]} :: m in s ==> m in h && m in h' && h'[m] == h[m]
  }

  lemma AgreeSubset(h: Heap, h': Heap, s: set<RBNode>, s': set<RBNode>)
    requires Agree(h, h', s) && s' <= s
    ensures Agree(h, h', s')
  {
    forall m | m in s' ensures m in h && m in h' && h'[m] == h[m] {
      assert m in s;
    }
  }

  lemma {:induction false} RepresentsFrame(h: Heap, h': Heap, t: Tree, p: RBNode?, nill: RBNode)
    requires Represents(h, t, p, nill)
    requires Agree(h, h', Nodes(t))
    ensures Represents(h', t, p, nill)
  {
    match t
    case Leaf =>
    case Node(l, n, k, c, r) =>
      RepresentsFrame(h, h', l, n, nill);
      RepresentsFrame(h, h', r, n, nill);
  }

  lemma {:induction false} CtxFrame(h: Heap, h': Heap, c: Ctx, f: RBNode, nill: RBNode)
    requires RepresentsCtx(h, c, f, nill)
    requires Agree(h, h', CtxNodes(c))
    ensures RepresentsCtx(h', c, f, nill)
    decreases c
  {
    match c
    case Top =>
    case InLeft(up, n, k, col, r) =>
      RepresentsFrame(h, h', r, n, nill);
      CtxFrame(h, h', up, n, nill);
    case InRight(l, n, k, col, up) =>
      RepresentsFrame(h, h', l, n, nill);
      CtxFrame(h, h', up, n, nill);
  }

  /** A tree is represented exactly when its context and its focus are. */
  lemma {:induction false} PlugRepresents(h: Heap, c: Ctx, t: Tree, nill: RBNode)
    ensures Represents(h, Plug(c, t), null, nill) <==>
      RepresentsCtx(h, c, Ptr(t, nill), nill) && Represents(h, t, CtxParent(c), nill)
    decreases c
  {
    match c
    case Top =>
    case InLeft(up, n, k, col, r) => PlugRepresents(h, up, Node(t, n, k, col, r), nill);
    case InRight(l, n, k, col, up) => PlugRepresents(h, up, Node(l, n, k, col, t), nill);
  }

  // ---------------------------------------------------------------------------------------
  // A tree's heap is closed, its parent chains are finite and its red nodes have parents

  /** The links of the nodes of a represented tree stay within the tree and the sentinel; only
      the root's parent leads out. */
  lemma {:induction false} RepresentsLinks(h: Heap, t: Tree, p: RBNode?, nill: RBNode)
    requires Represents(h, t, p, nill)
    ensures forall m :: m in Nodes(t) ==>
      (m in h &&
       (h[m].left == nill || h[m].left in Nodes(t)) &&
       (h[m].right == nill || h[m].right in Nodes(t)) &&
       (if m == t.ref then h[m].parent == p else h[m].parent in Nodes(t)))
  {
    match t
    case Leaf =>
    case Node(l, n, k, c, r) =>
      RepresentsLinks(h, l, n, nill);
      RepresentsLinks(h, r, n, nill);
  }

  lemma HeapOfClosed(h: Heap, t: Tree, nill: RBNode)
    requires HeapOf(h, t, nill)
    ensures Closed(h, nill)
  {
    RepresentsLinks(h, t, null, nill);
    forall m | m in h && m != nill ensures LinksWithin(h, nill, h[m]) {
      assert m in Nodes(t);
    }
  }

  /** The parent chain of the focus's parent has as many nodes as the context. */
  lemma {:induction false} CtxChain(h: Heap, c: Ctx, f: RBNode, nill: RBNode)
    requires RepresentsCtx(h, c, f, nill)
    ensures AncestorsWithin(h, CtxParent(c), Depth(c))
    decreases c
  {
    match c
    case Top =>
    case InLeft(up, n, k, col, r) => CtxChain(h, up, n, nill);
    case InRight(l, n, k, col, up) => CtxChain(h, up, n, nill);
  }

  lemma FocusChain(h: Heap, c: Ctx, s: Tree, nill: RBNode)
    requires Represents(h, Plug(c, s), null, nill) && s.Node?
    ensures AncestorsWithin(h, s.ref, Depth(c) + 1)
  {
    PlugRepresents(h, c, s, nill);
    CtxChain(h, c, s.ref, nill);
  }

  /** In the state `do_post_insert(x)` expects, the only red node that may lack a parent is
      `x`. */
  lemma FixInvRedParents(h: Heap, c: Ctx, s: Tree, nill: RBNode)
    requires HeapOf(h, Plug(c, s), nill) && FixInv(c, s)
    ensures RedHaveParents(h, nill, s.ref)
  {
    var t := Plug(c, s);
    RepresentsLinks(h, t, null, nill);
    forall m | m in h && m != s.ref && m != nill && h[m].color == Red
      ensures h[m].parent != null
    {
      assert m in Nodes(t);
    }
  }
}
