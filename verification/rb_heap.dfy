/** A value model of the tree's heap: the fields of every node (the sentinel included) as a
    map from node to `Links`.  Each operation of rbtree/rb_tree.hpp that relinks or recolours
    nodes is written here as a function from the heap (and `root_`) before the call to the
    heap (and `root_`) after it, statement by statement in the source's order.  The methods
    of `RBTrees.RBTree` are proved to have exactly these effects.

    Nothing here assumes the heap is a tree: a heap only needs to be closed (every link of a
    real node leads to a node of the heap, the sentinel keeps its fields) for the operations
    to be defined, and the fix-up only needs every parent chain to be finite. */
module RBHeap {
  import opened RBNodes

  type Heap = map<RBNode, Links>

  /** The fields the constructor of `RBTree` gives the shared sentinel `nill_`. */
  const Sentinel: Links := Links(-1, Black, null, null, null)

  /** Links that stay inside `h`: both children present (possibly the sentinel), the parent
      null or a real node of `h`. */
  ghost predicate LinksWithin(h: Heap, nill: RBNode, l: Links)
  {
    l.left != null && l.left in h && l.right != null && l.right in h &&
    (l.parent == null || (l.parent in h && l.parent != nill))
  }

  /** The sentinel is intact and every real node links only to nodes of the heap. */
  ghost predicate Closed(h: Heap, nill: RBNode)
  {
    nill in h && h[nill] == Sentinel &&
    forall m {:trigger h[m]} :: m in h && m != nill ==> LinksWithin(h, nill, h[m])
  }

  /** The two heaps have the same nodes and every node keeps its `data_`. */
  ghost predicate SameData(h: Heap, h': Heap)
  {
    h'.Keys == h.Keys && forall m {:trigger h'[m]} {:trigger h[m]} :: m in h ==> h'[m].data == h[m].data
  }

  /** The two heaps have the same nodes and every node keeps its `parent_`. */
  ghost predicate SameParents(h: Heap, h': Heap)
  {
    h'.Keys == h.Keys && forall m {:trigger h'[m]} {:trigger h[m]} :: m in h ==> h'[m].parent == h[m].parent
  }

  // ---------------------------------------------------------------------------------------
  // Single-field updates

  function SetColor(h: Heap, n: RBNode, c: Color): Heap
    requires n in h
  {
    h[n := h[n].(color := c)]
  }

  function SetLeft(h: Heap, n: RBNode, v: RBNode): Heap
    requires n in h
  {
    h[n := h[n].(left := v)]
  }

  function SetRight(h: Heap, n: RBNode, v: RBNode): Heap
    requires n in h
  {
    h[n := h[n].(right := v)]
  }

  function SetParent(h: Heap, n: RBNode, v: RBNode?): Heap
    requires n in h
  {
    h[n := h[n].(parent := v)]
  }

  /** Recolouring a real node keeps the heap closed, every `data_` and every `parent_`. */
  lemma SetColorKeeps(h: Heap, nill: RBNode, n: RBNode, c: Color)
    requires Closed(h, nill) && n in h && n != nill
    ensures Closed(SetColor(h, n, c), nill)
    ensures SameData(h, SetColor(h, n, c)) && SameParents(h, SetColor(h, n, c))
  {
  }

  /** Linking a real node to a node of the heap keeps the heap closed and every `data_`. */
  lemma SetLeftKeeps(h: Heap, nill: RBNode, n: RBNode, v: RBNode)
    requires Closed(h, nill) && n in h && n != nill && v in h
    ensures Closed(SetLeft(h, n, v), nill) && SameData(h, SetLeft(h, n, v))
  {
  }

  lemma SetRightKeeps(h: Heap, nill: RBNode, n: RBNode, v: RBNode)
    requires Closed(h, nill) && n in h && n != nill && v in h
    ensures Closed(SetRight(h, n, v), nill) && SameData(h, SetRight(h, n, v))
  {
  }

  /** Giving a real node null or a real node of the heap as parent keeps the heap closed and
      every `data_`. */
  lemma SetParentKeeps(h: Heap, nill: RBNode, n: RBNode, v: RBNode?)
    requires Closed(h, nill) && n in h && n != nill && (v == null || (v in h && v != nill))
    ensures Closed(SetParent(h, n, v), nill) && SameData(h, SetParent(h, n, v))
  {
  }

  // ---------------------------------------------------------------------------------------
  // The accessors of RBNode, read off a heap

  /** `get_grandparent`: the parent's parent, or null when there is no parent. */
  function Grandparent(h: Heap, nill: RBNode, n: RBNode): (g: RBNode?)
    requires Closed(h, nill) && n in h && n != nill
    ensures g != null ==> g in h && g != nill
  {
    var p := h[n].parent;
    if p == null then null else h[p].parent
  }

  /** `get_uncle`: the child of the grandparent that is not the parent.  When the parent is
      one of the grandparent's children, parent and uncle are exactly those two. */
  function Uncle(h: Heap, nill: RBNode, n: RBNode): (u: RBNode?)
    requires Closed(h, nill) && n in h && n != nill
    ensures u == null <==> Grandparent(h, nill, n) == null
    ensures u != null ==> u in h
  {
    var g := Grandparent(h, nill, n);
    if g == null then null
    else if h[g].left == h[n].parent then h[g].right
    else h[g].left
  }

  /** `get_sibling`: the parent's other child.  When `n` is one of its parent's children, it
      and its sibling are exactly those two. */
  function Sibling(h: Heap, nill: RBNode, n: RBNode): (s: RBNode?)
    requires Closed(h, nill) && n in h && n != nill
    ensures s == null <==> h[n].parent == null
    ensures s != null ==> s in h
  {
    var p := h[n].parent;
    if p == null then null
    else if h[p].left == n then h[p].right
    else h[p].left
  }

  /** What the three accessors read: the grandparent is the parent's parent, the uncle is a
      child of the grandparent and the sibling a child of the parent; when the parent (the
      node) is one of the two children, it and the uncle (the sibling) are exactly those two. */
  lemma AccessorsRead(h: Heap, nill: RBNode, n: RBNode)
    requires Closed(h, nill) && n in h && n != nill
    ensures var p := h[n].parent;
      (p == null ==> Grandparent(h, nill, n) == null && Sibling(h, nill, n) == null) &&
      (p != null ==> p in h && Grandparent(h, nill, n) == h[p].parent)
    ensures var g := Grandparent(h, nill, n);
      g != null ==> Uncle(h, nill, n) == h[g].left || Uncle(h, nill, n) == h[g].right
    ensures var g := Grandparent(h, nill, n);
      g != null && h[n].parent in {h[g].left, h[g].right} ==>
        {h[n].parent, Uncle(h, nill, n)} == {h[g].left, h[g].right}
    ensures var p := h[n].parent;
      p != null ==> Sibling(h, nill, n) == h[p].left || Sibling(h, nill, n) == h[p].right
    ensures var p := h[n].parent;
      p != null && n in {h[p].left, h[p].right} ==> {n, Sibling(h, nill, n)} == {h[p].left, h[p].right}
  {
  }

  /** On a closed heap that holds the fields of its objects as they are, the accessors of
      `RBNode` return exactly the nodes `Grandparent`, `Uncle` and `Sibling` read off it. */
  lemma AccessorsOnObjects(h: Heap, nill: RBNode, n: RBNode)
    requires Closed(h, nill) && n in h && n != nill
    requires forall m {:trigger h[m]} :: m in h ==> h[m] == m.Fields()
    ensures n.GetGrandparent() == Grandparent(h, nill, n)
    ensures n.GetUncle() == Uncle(h, nill, n)
    ensures n.GetSibling() == Sibling(h, nill, n)
  {
    assert h[n] == n.Fields();
    if n.parent != null {
      assert h[n.parent] == n.parent.Fields();
      var g := n.parent.parent;
      if g != null {
        assert h[g] == g.Fields();
      }
    }
  }

  // ---------------------------------------------------------------------------------------
  // Rotations

  /** `rotate_left(node)`, rb_tree.hpp:188-220.  Returns the new heap and the new `root_`. */
  ghost function RotateLeft(h: Heap, root: RBNode?, node: RBNode, nill: RBNode): (r: (Heap, RBNode?))
    requires Closed(h, nill) && node in h && node != nill
    ensures Closed(r.0, nill) && SameData(h, r.0)
  {
    var fa := h[node].parent;
    if fa == null then
      SetColorKeeps(h, nill, node, Black);
      (SetColor(h, node, Black), node)
    else
      var gp := h[fa].parent;
      var yp := h[node].left;
      var h1 := SetRight(h, fa, yp);
      SetRightKeeps(h, nill, fa, yp);
      var h2 := if yp != nill then (SetParentKeeps(h1, nill, yp, fa); SetParent(h1, yp, fa)) else h1;
      var h3 := SetLeft(h2, node, fa);
      SetLeftKeeps(h2, nill, node, fa);
      var h4 := SetParent(h3, fa, node);
      SetParentKeeps(h3, nill, fa, node);
      var root1 := if root == fa then node else root;
      var h5 := SetParent(h4, node, gp);
      SetParentKeeps(h4, nill, node, gp);
      var h6 := if gp == null then h5
                else if h5[gp].left == fa then (SetLeftKeeps(h5, nill, gp, node); SetLeft(h5, gp, node))
                else (SetRightKeeps(h5, nill, gp, node); SetRight(h5, gp, node));
      (h6, root1)
  }

  /** `rotate_right(node)`, rb_tree.hpp:222-254, as written: like `RotateLeft` with left and
      right exchanged, except that the subtree handed to the old parent is `node->left_`. */
  ghost function RotateRight(h: Heap, root: RBNode?, node: RBNode, nill: RBNode): (r: (Heap, RBNode?))
    requires Closed(h, nill) && node in h && node != nill
    ensures Closed(r.0, nill) && SameData(h, r.0)
  {
    var fa := h[node].parent;
    if fa == null then
      SetColorKeeps(h, nill, node, Black);
      (SetColor(h, node, Black), node)
    else
      var gp := h[fa].parent;
      var yp := h[node].left;
      var h1 := SetLeft(h, fa, yp);
      SetLeftKeeps(h, nill, fa, yp);
      var h2 := if yp != nill then (SetParentKeeps(h1, nill, yp, fa); SetParent(h1, yp, fa)) else h1;
      var h3 := SetRight(h2, node, fa);
      SetRightKeeps(h2, nill, node, fa);
      var h4 := SetParent(h3, fa, node);
      SetParentKeeps(h3, nill, fa, node);
      var root1 := if root == fa then node else root;
      var h5 := SetParent(h4, node, gp);
      SetParentKeeps(h4, nill, node, gp);
      var h6 := if gp == null then h5
                else if h5[gp].left == fa then (SetLeftKeeps(h5, nill, gp, node); SetLeft(h5, gp, node))
                else (SetRightKeeps(h5, nill, gp, node); SetRight(h5, gp, node));
      (h6, root1)
  }

  /** The mirror image of `RotateLeft`: a right rotation that hands `node->right_` to the old
      parent.  A reference to compare `RotateRight` with. */
  ghost function MirrorRotateRight(h: Heap, root: RBNode?, node: RBNode, nill: RBNode): (r: (Heap, RBNode?))
    requires Closed(h, nill) && node in h && node != nill
    ensures Closed(r.0, nill) && SameData(h, r.0)
  {
    var fa := h[node].parent;
    if fa == null then
      SetColorKeeps(h, nill, node, Black);
      (SetColor(h, node, Black), node)
    else
      var gp := h[fa].parent;
      var yp := h[node].right;
      var h1 := SetLeft(h, fa, yp);
      SetLeftKeeps(h, nill, fa, yp);
      var h2 := if yp != nill then (SetParentKeeps(h1, nill, yp, fa); SetParent(h1, yp, fa)) else h1;
      var h3 := SetRight(h2, node, fa);
      SetRightKeeps(h2, nill, node, fa);
      var h4 := SetParent(h3, fa, node);
      SetParentKeeps(h3, nill, fa, node);
      var root1 := if root == fa then node else root;
      var h5 := SetParent(h4, node, gp);
      SetParentKeeps(h4, nill, node, gp);
      var h6 := if gp == null then h5
                else if h5[gp].left == fa then (SetLeftKeeps(h5, nill, gp, node); SetLeft(h5, gp, node))
                else (SetRightKeeps(h5, nill, gp, node); SetRight(h5, gp, node));
      (h6, root1)
  }

  /** `RotateLeft` when the node has a parent, as the plain sequence of its writes. */
  lemma RotateLeftIs(h: Heap, root: RBNode?, node: RBNode, nill: RBNode, fa: RBNode, gp: RBNode?, yp: RBNode)
    requires Closed(h, nill) && node in h && node != nill
    requires h[node].parent == fa && fa in h && h[fa].parent == gp && h[node].left == yp
    ensures var h2 := if yp != nill then SetParent(SetRight(h, fa, yp), yp, fa) else SetRight(h, fa, yp);
      var h5 := SetParent(SetParent(SetLeft(h2, node, fa), fa, node), node, gp);
      gp != null ==> gp in h5
    ensures var h2 := if yp != nill then SetParent(SetRight(h, fa, yp), yp, fa) else SetRight(h, fa, yp);
      var h5 := SetParent(SetParent(SetLeft(h2, node, fa), fa, node), node, gp);
      RotateLeft(h, root, node, nill) ==
        (if gp == null then h5 else if h5[gp].left == fa then SetLeft(h5, gp, node) else SetRight(h5, gp, node),
         if root == fa then node else root)
  {
  }

  /** `RotateRight` when the node has a parent, as the plain sequence of its writes. */
  lemma RotateRightIs(h: Heap, root: RBNode?, node: RBNode, nill: RBNode, fa: RBNode, gp: RBNode?, yp: RBNode)
    requires Closed(h, nill) && node in h && node != nill
    requires h[node].parent == fa && fa in h && h[fa].parent == gp && h[node].left == yp
    ensures var h2 := if yp != nill then SetParent(SetLeft(h, fa, yp), yp, fa) else SetLeft(h, fa, yp);
      var h5 := SetParent(SetParent(SetRight(h2, node, fa), fa, node), node, gp);
      gp != null ==> gp in h5
    ensures var h2 := if yp != nill then SetParent(SetLeft(h, fa, yp), yp, fa) else SetLeft(h, fa, yp);
      var h5 := SetParent(SetParent(SetRight(h2, node, fa), fa, node), node, gp);
      RotateRight(h, root, node, nill) ==
        (if gp == null then h5 else if h5[gp].left == fa then SetLeft(h5, gp, node) else SetRight(h5, gp, node),
         if root == fa then node else root)
  {
  }

  /** `MirrorRotateRight` when the node has a parent, as the plain sequence of its writes. */
  lemma MirrorRotateRightIs(h: Heap, root: RBNode?, node: RBNode, nill: RBNode, fa: RBNode, gp: RBNode?, yp: RBNode)
    requires Closed(h, nill) && node in h && node != nill
    requires h[node].parent == fa && fa in h && h[fa].parent == gp && h[node].right == yp
    ensures var h2 := if yp != nill then SetParent(SetLeft(h, fa, yp), yp, fa) else SetLeft(h, fa, yp);
      var h5 := SetParent(SetParent(SetRight(h2, node, fa), fa, node), node, gp);
      gp != null ==> gp in h5
    ensures var h2 := if yp != nill then SetParent(SetLeft(h, fa, yp), yp, fa) else SetLeft(h, fa, yp);
      var h5 := SetParent(SetParent(SetRight(h2, node, fa), fa, node), node, gp);
      MirrorRotateRight(h, root, node, nill) ==
        (if gp == null then h5 else if h5[gp].left == fa then SetLeft(h5, gp, node) else SetRight(h5, gp, node),
         if root == fa then node else root)
  {
  }

  // ---------------------------------------------------------------------------------------
  // The fix-up after insertion

  /** The parent chain from `n` ends (reaches null) after at most `k` nodes. */
  ghost predicate AncestorsWithin(h: Heap, n: RBNode?, k: nat)
    decreases k
  {
    n == null || (k > 0 && n in h && AncestorsWithin(h, h[n].parent, k - 1))
  }

  lemma {:induction false} AncestorsKeepParents(h: Heap, h': Heap, n: RBNode?, k: nat)
    requires SameParents(h, h') && AncestorsWithin(h, n, k)
    ensures AncestorsWithin(h', n, k)
    decreases k
  {
    if n != null {
      AncestorsKeepParents(h, h', h[n].parent, k - 1);
    }
  }

  /** Every red real node other than `node` has a parent; that is what keeps
      `node->get_uncle()` from being null when the parent is red (rb_tree.hpp:141). */
  ghost predicate RedHaveParents(h: Heap, nill: RBNode, node: RBNode)
  {
    forall m {:trigger h[m]} :: m in h && m != node && m != nill && h[m].color == Red ==> h[m].parent != null
  }

  /** The cases of `do_post_insert`, in the order the source tests them. */
  datatype FixCase =
    | AtRoot        // no parent: becomes root_, coloured black
    | BlackParent   // nothing to do
    | RedUncle      // recolour, continue at the grandparent
    | LeftLeft      // node and parent are left children: rotate_right(parent)
    | RightLeft     // node a left child of a right child: rotate_right(node); rotate_left(node)
    | RightRight    // node and parent are right children: rotate_left(parent)
    | LeftRight     // node a right child of a left child: rotate_left(node); rotate_right(node)
    | NoCase        // node is neither child of its parent: no branch is taken

  ghost function CaseOf(h: Heap, nill: RBNode, node: RBNode): (c: FixCase)
    requires Closed(h, nill) && node in h && node != nill && RedHaveParents(h, nill, node)
    ensures c in {RedUncle, LeftLeft, RightLeft, RightRight, LeftRight, NoCase} ==>
      h[node].parent != null && h[h[node].parent].color == Red && Grandparent(h, nill, node) != null
  {
    var p := h[node].parent;
    if p == null then AtRoot
    else if h[p].color == Black then BlackParent
    else
      var g := h[p].parent;
      var u := Uncle(h, nill, node);
      if h[u].color == Red then RedUncle
      else if node == h[p].left && p == h[g].left then LeftLeft
      else if node == h[p].left && p == h[g].right then RightLeft
      else if node == h[p].right && p == h[g].right then RightRight
      else if node == h[p].right && p == h[g].left then LeftRight
      else NoCase
  }

  /** The recolouring of the red-uncle case: parent and uncle black, grandparent red
      (rb_tree.hpp:143-145, in that order). */
  ghost function RecolourUp(h: Heap, nill: RBNode, node: RBNode): (h': Heap)
    requires Closed(h, nill) && node in h && node != nill && RedHaveParents(h, nill, node)
    requires CaseOf(h, nill, node) == RedUncle
    ensures Closed(h', nill) && SameData(h, h') && SameParents(h, h')
  {
    var h1 := SetColor(h, h[node].parent, Black);
    SetColorKeeps(h, nill, h[node].parent, Black);
    var h2 := SetColor(h1, Uncle(h1, nill, node), Black);
    SetColorKeeps(h1, nill, Uncle(h1, nill, node), Black);
    SetColorKeeps(h2, nill, Grandparent(h2, nill, node), Red);
    SetColor(h2, Grandparent(h2, nill, node), Red)
  }

  /** `do_post_insert(node)`, rb_tree.hpp:123-185.  `k` bounds the length of the parent chain
      of `node`; it drops by two at each recursive call, so the recursion ends. */
  ghost function PostInsert(h: Heap, root: RBNode?, node: RBNode, nill: RBNode, k: nat): (r: (Heap, RBNode?))
    requires Closed(h, nill) && node in h && node != nill
    requires AncestorsWithin(h, node, k) && RedHaveParents(h, nill, node)
    decreases k
  {
    var p := h[node].parent;
    match CaseOf(h, nill, node)
    case AtRoot =>
      SetColorKeeps(h, nill, node, Black);
      (SetColor(h, node, Black), node)
    case BlackParent => (h, root)
    case RedUncle =>
      var g := Grandparent(h, nill, node);
      var h' := RecolourUp(h, nill, node);
      RecolourKeepsChains(h, h', nill, node, k);
      PostInsert(h', root, g, nill, k - 2)
    case LeftLeft =>
      var h1 := SetColor(h, p, Black);
      SetColorKeeps(h, nill, p, Black);
      var h2 := SetColor(h1, Grandparent(h1, nill, node), Red);
      SetColorKeeps(h1, nill, Grandparent(h1, nill, node), Red);
      RotateRight(h2, root, p, nill)
    case RightLeft =>
      var h1 := SetColor(h, Grandparent(h, nill, node), Red);
      SetColorKeeps(h, nill, Grandparent(h, nill, node), Red);
      var h2 := SetColor(h1, node, Black);
      SetColorKeeps(h1, nill, node, Black);
      var (h3, root3) := RotateRight(h2, root, node, nill);
      RotateLeft(h3, root3, node, nill)
    case RightRight =>
      var h1 := SetColor(h, Grandparent(h, nill, node), Red);
      SetColorKeeps(h, nill, Grandparent(h, nill, node), Red);
      var h2 := SetColor(h1, p, Black);
      SetColorKeeps(h1, nill, p, Black);
      RotateLeft(h2, root, p, nill)
    case LeftRight =>
      var h1 := SetColor(h, Grandparent(h, nill, node), Red);
      SetColorKeeps(h, nill, Grandparent(h, nill, node), Red);
      var h2 := SetColor(h1, node, Black);
      SetColorKeeps(h1, nill, node, Black);
      var (h3, root3) := RotateLeft(h2, root, node, nill);
      RotateRight(h3, root3, node, nill)
    case NoCase => (h, root)
  }

  /** `SameData` is transitive. */
  lemma SameDataTrans(h: Heap, h1: Heap, h2: Heap)
    requires SameData(h, h1) && SameData(h1, h2)
    ensures SameData(h, h2)
  {
    forall m | m in h ensures h2[m].data == h[m].data {
      assert h1[m].data == h[m].data;
    }
  }

  /** After the red-uncle recolouring the grandparent is a proper argument for the recursive
      call: a real node, with a parent chain two shorter, and the only red node that may lack
      a parent. */
  lemma RecolourKeepsChains(h: Heap, h': Heap, nill: RBNode, node: RBNode, k: nat)
    requires Closed(h, nill) && node in h && node != nill && RedHaveParents(h, nill, node)
    requires CaseOf(h, nill, node) == RedUncle && h' == RecolourUp(h, nill, node)
    requires AncestorsWithin(h, node, k)
    ensures k >= 2
    ensures var g := Grandparent(h, nill, node);
      g != null && g in h' && g != nill && AncestorsWithin(h', g, k - 2) && RedHaveParents(h', nill, g)
  {
    var p := h[node].parent;
    var g := h[p].parent;
    assert AncestorsWithin(h, p, k - 1);
    assert AncestorsWithin(h, g, k - 2);
    AncestorsKeepParents(h, h', g, k - 2);
    var h1 := SetColor(h, p, Black);
    SetColorKeeps(h, nill, p, Black);
    var u := Uncle(h1, nill, node);
    var h2 := SetColor(h1, u, Black);
    assert h' == SetColor(h2, g, Red);
    forall m | m in h' && m != g && m != nill && h'[m].color == Red
      ensures h'[m].parent != null
    {
      assert m != p && m != u;
      assert h[m].color == Red;
    }
  }
}
