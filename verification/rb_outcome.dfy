/** What `do_post_insert(x)` (rbtree/rb_tree.hpp:123-185) does to the heap of a tree in the
    state it expects: the asserted colours hold, the red-uncle case recurses on the
    grandparent, the right-right case and the right-left case on a fresh leaf leave the heap
    of a red-black tree with the same keys in the same order, and every other way the fix-up
    ends leaves one node the child of two parents, a heap that is the heap of no tree. */
module RBOutcome {
  import opened RBNodes
  import opened RBHeap
  import opened RBShape
  import opened RBView
  import opened RBFixup
  import opened RBPostInsert

  // ---------------------------------------------------------------------------------------
  // `PostInsert` case by case

  /** The right-right branch (rb_tree.hpp:169-174): grandparent red, parent black, then
      `rotate_left(parent)`. */
  lemma PostInsertRightRightIs(h: Heap, root: RBNode?, x: RBNode, nill: RBNode, k: nat)
    requires Closed(h, nill) && x in h && x != nill
    requires AncestorsWithin(h, x, k) && RedHaveParents(h, nill, x)
    requires CaseOf(h, nill, x) == RightRight
    ensures h[x].parent != null && Grandparent(h, nill, x) != null
    ensures var p := h[x].parent; var g := Grandparent(h, nill, x);
      p in h && p != nill && g in h &&
      (var h1 := SetColor(h, g, Red);
       Closed(h1, nill) && p in h1 &&
       (var h2 := SetColor(h1, p, Black);
        Closed(h2, nill) && p in h2 &&
        PostInsert(h, root, x, nill, k) == RotateLeft(h2, root, p, nill)))
  {
    var p := h[x].parent;
    var g := Grandparent(h, nill, x);
    SetColorKeeps(h, nill, g, Red);
    SetColorKeeps(SetColor(h, g, Red), nill, p, Black);
  }

  /** The right-left branch (rb_tree.hpp:161-167): grandparent red, node black, then
      `rotate_right(node)` and `rotate_left(node)`. */
  lemma PostInsertRightLeftIs(h: Heap, root: RBNode?, x: RBNode, nill: RBNode, k: nat)
    requires Closed(h, nill) && x in h && x != nill
    requires AncestorsWithin(h, x, k) && RedHaveParents(h, nill, x)
    requires CaseOf(h, nill, x) == RightLeft
    ensures Grandparent(h, nill, x) != null
    ensures var g := Grandparent(h, nill, x);
      g in h &&
      (var h1 := SetColor(h, g, Red);
       Closed(h1, nill) && x in h1 &&
       (var h2 := SetColor(h1, x, Black);
        Closed(h2, nill) && x in h2 &&
        (var r3 := RotateRight(h2, root, x, nill);
         x in r3.0 &&
         PostInsert(h, root, x, nill, k) == RotateLeft(r3.0, r3.1, x, nill))))
  {
    var g := Grandparent(h, nill, x);
    SetColorKeeps(h, nill, g, Red);
    SetColorKeeps(SetColor(h, g, Red), nill, x, Black);
  }

  /** The left-left branch (rb_tree.hpp:154-159): parent black, grandparent red, then
      `rotate_right(parent)`. */
  lemma PostInsertLeftLeftIs(h: Heap, root: RBNode?, x: RBNode, nill: RBNode, k: nat)
    requires Closed(h, nill) && x in h && x != nill
    requires AncestorsWithin(h, x, k) && RedHaveParents(h, nill, x)
    requires CaseOf(h, nill, x) == LeftLeft
    ensures h[x].parent != null && Grandparent(h, nill, x) != null
    ensures var p := h[x].parent; var g := Grandparent(h, nill, x);
      p in h && p != nill && g in h &&
      (var h1 := SetColor(h, p, Black);
       Closed(h1, nill) && g in h1 &&
       (var h2 := SetColor(h1, g, Red);
        Closed(h2, nill) && p in h2 &&
        PostInsert(h, root, x, nill, k) == RotateRight(h2, root, p, nill)))
  {
    var p := h[x].parent;
    var g := Grandparent(h, nill, x);
    SetColorKeeps(h, nill, p, Black);
    SetColorKeeps(SetColor(h, p, Black), nill, g, Red);
  }

  /** The left-right branch (rb_tree.hpp:176-182): grandparent red, node black, then
      `rotate_left(node)` and `rotate_right(node)`. */
  lemma PostInsertLeftRightIs(h: Heap, root: RBNode?, x: RBNode, nill: RBNode, k: nat)
    requires Closed(h, nill) && x in h && x != nill
    requires AncestorsWithin(h, x, k) && RedHaveParents(h, nill, x)
    requires CaseOf(h, nill, x) == LeftRight
    ensures Grandparent(h, nill, x) != null
    ensures var g := Grandparent(h, nill, x);
      g in h &&
      (var h1 := SetColor(h, g, Red);
       Closed(h1, nill) && x in h1 &&
       (var h2 := SetColor(h1, x, Black);
        Closed(h2, nill) && x in h2 &&
        (var r3 := RotateLeft(h2, root, x, nill);
         x in r3.0 &&
         PostInsert(h, root, x, nill, k) == RotateRight(r3.0, r3.1, x, nill))))
  {
    var g := Grandparent(h, nill, x);
    SetColorKeeps(h, nill, g, Red);
    SetColorKeeps(SetColor(h, g, Red), nill, x, Black);
  }

  /** The red-uncle branch (rb_tree.hpp:141-147): recolour, then the same on the
      grandparent. */
  lemma PostInsertRedUncleIs(h: Heap, root: RBNode?, x: RBNode, nill: RBNode, k: nat)
    requires Closed(h, nill) && x in h && x != nill
    requires AncestorsWithin(h, x, k) && RedHaveParents(h, nill, x)
    requires CaseOf(h, nill, x) == RedUncle
    ensures k >= 2
    ensures var g := Grandparent(h, nill, x); var h' := RecolourUp(h, nill, x);
      g != null && g in h' && g != nill && AncestorsWithin(h', g, k - 2) && RedHaveParents(h', nill, g) &&
      PostInsert(h, root, x, nill, k) == PostInsert(h', root, g, nill, k - 2)
  {
    RecolourKeepsChains(h, RecolourUp(h, nill, x), nill, x, k);
  }

  /** The two branches that end at once (rb_tree.hpp:127-136). */
  lemma PostInsertEndsIs(h: Heap, root: RBNode?, x: RBNode, nill: RBNode, k: nat)
    requires Closed(h, nill) && x in h && x != nill
    requires AncestorsWithin(h, x, k) && RedHaveParents(h, nill, x)
    ensures CaseOf(h, nill, x) == AtRoot ==> PostInsert(h, root, x, nill, k) == (SetColor(h, x, Black), x)
    ensures CaseOf(h, nill, x) == BlackParent ==> PostInsert(h, root, x, nill, k) == (h, root)
  {
  }

  /** The fix-up only recolours and relinks: the heap stays closed and every node keeps its
      `data_`. */
  lemma {:induction false} PostInsertKeepsData(h: Heap, root: RBNode?, x: RBNode, nill: RBNode, k: nat)
    requires Closed(h, nill) && x in h && x != nill
    requires AncestorsWithin(h, x, k) && RedHaveParents(h, nill, x)
    ensures var r := PostInsert(h, root, x, nill, k); Closed(r.0, nill) && SameData(h, r.0)
    decreases k
  {
    var cs := CaseOf(h, nill, x);
    if cs == AtRoot || cs == BlackParent {
      PostInsertEndsIs(h, root, x, nill, k);
      SetColorKeeps(h, nill, x, Black);
    } else if cs == RedUncle {
      PostInsertRedUncleIs(h, root, x, nill, k);
      var h' := RecolourUp(h, nill, x);
      PostInsertKeepsData(h', root, Grandparent(h, nill, x), nill, k - 2);
      SameDataTrans(h, h', PostInsert(h, root, x, nill, k).0);
    } else if cs == NoCase {
    } else {
      RotationCaseKeepsData(h, root, x, nill, k);
    }
  }

  /** `PostInsertKeepsData` for the four rotation cases. */
  lemma RotationCaseKeepsData(h: Heap, root: RBNode?, x: RBNode, nill: RBNode, k: nat)
    requires Closed(h, nill) && x in h && x != nill
    requires AncestorsWithin(h, x, k) && RedHaveParents(h, nill, x)
    requires CaseOf(h, nill, x) in {LeftLeft, RightLeft, RightRight, LeftRight}
    ensures var r := PostInsert(h, root, x, nill, k); Closed(r.0, nill) && SameData(h, r.0)
  {
    var r := PostInsert(h, root, x, nill, k);
    var p, g := h[x].parent, Grandparent(h, nill, x);
    match CaseOf(h, nill, x)
    case LeftLeft =>
      PostInsertLeftLeftIs(h, root, x, nill, k);
      var h1 := SetColor(h, p, Black);
      var h2 := SetColor(h1, g, Red);
      SetColorKeeps(h, nill, p, Black);
      SetColorKeeps(h1, nill, g, Red);
      SameDataTrans(h, h1, h2);
      SameDataTrans(h, h2, r.0);
    case RightLeft =>
      PostInsertRightLeftIs(h, root, x, nill, k);
      var h1 := SetColor(h, g, Red);
      var h2 := SetColor(h1, x, Black);
      SetColorKeeps(h, nill, g, Red);
      SetColorKeeps(h1, nill, x, Black);
      var h3 := RotateRight(h2, root, x, nill);
      SameDataTrans(h, h1, h2);
      SameDataTrans(h, h2, h3.0);
      SameDataTrans(h, h3.0, r.0);
    case RightRight =>
      PostInsertRightRightIs(h, root, x, nill, k);
      var h1 := SetColor(h, g, Red);
      var h2 := SetColor(h1, p, Black);
      SetColorKeeps(h, nill, g, Red);
      SetColorKeeps(h1, nill, p, Black);
      SameDataTrans(h, h1, h2);
      SameDataTrans(h, h2, r.0);
    case LeftRight =>
      PostInsertLeftRightIs(h, root, x, nill, k);
      var h1 := SetColor(h, g, Red);
      var h2 := SetColor(h1, x, Black);
      SetColorKeeps(h, nill, g, Red);
      SetColorKeeps(h1, nill, x, Black);
      var h3 := RotateLeft(h2, root, x, nill);
      SameDataTrans(h, h1, h2);
      SameDataTrans(h, h2, h3.0);
      SameDataTrans(h, h3.0, r.0);
  }

  // ---------------------------------------------------------------------------------------
  // Each branch on the heap of a tree

  /** Changing the focus for a subtree with the same root object keeps the root. */
  lemma SameRoot(c: Ctx, t: Tree, t': Tree)
    requires t.Node? && t'.Node? && t.ref == t'.ref
    ensures RootOf(Plug(c, t)) == RootOf(Plug(c, t'))
  {
    if !c.Top? {
      PlugRoot(c, t, t');
    }
  }

  /** Under a red parent the node's subtrees are black with the same black height, so
      either both are empty or neither is. */
  lemma LeafChildren(c: Ctx, s: Tree)
    requires FixInv(c, s) && !c.Top? && c.color == Red
    ensures s.left.Leaf? <==> s.right.Leaf?
  {
    RedParent(c, s);
    assert Balanced(Up(c, s));
    assert Balanced(s);
  }

  /** The right-right branch turns the heap of the tree into the heap of the tree with the
      grandparent's subtree rotated left at the parent. */
  lemma RightRightHeap(h: Heap, root: RBNode?, c: Ctx, s: Tree, nill: RBNode, k: nat)
    requires HeapOf(h, Plug(c, s), nill) && FixInv(c, s) && TreeCase(c, s) == RightRight
    requires root == RootOf(Plug(c, s)) && AncestorsWithin(h, s.ref, k)
    ensures Closed(h, nill) && s.ref in h && s.ref != nill && RedHaveParents(h, nill, s.ref)
    ensures var r := PostInsert(h, root, s.ref, nill, k); var t := Plug(c.up.up, RightRightTree(c, s));
      HeapOf(r.0, t, nill) && r.1 == RootOf(t)
  {
    CaseOfTree(h, c, s, nill);
    RedParentLinks(h, c, s, nill);
    PostInsertRightRightIs(h, root, s.ref, nill, k);
    var cg := c.up.up;
    var g := Up(c.up, Up(c, s));
    var h1 := SetColor(h, c.up.ref, Red);
    SetColorFocus(h, cg, g, Red, nill);
    var cp := InRight(c.up.left, c.up.ref, c.up.key, Red, cg);
    assert Plug(cg, g.(color := Red)) == Plug(cp, Up(c, s));
    var h2 := SetColor(h1, c.ref, Black);
    SetColorFocus(h1, cp, Up(c, s), Black, nill);
    var before := Node(c.up.left, c.up.ref, c.up.key, Red, Node(c.left, c.ref, c.key, Black, s));
    assert Plug(cp, Up(c, s).(color := Black)) == Plug(cg, before);
    SameRoot(cg, g, before);
    RotateLeftView(h2, root, cg, c.up.left, c.up.ref, c.up.key, Red, c.left, c.ref, c.key, Black, s, nill);
  }

  /** The right-left branch on a node whose subtrees are empty, a freshly attached leaf:
      `rotate_right` is then a true right rotation and the two rotations together the double
      rotation. */
  lemma RightLeftHeap(h: Heap, root: RBNode?, c: Ctx, s: Tree, nill: RBNode, k: nat)
    requires HeapOf(h, Plug(c, s), nill) && FixInv(c, s) && TreeCase(c, s) == RightLeft
    requires root == RootOf(Plug(c, s)) && AncestorsWithin(h, s.ref, k) && s.left.Leaf?
    ensures Closed(h, nill) && s.ref in h && s.ref != nill && RedHaveParents(h, nill, s.ref)
    ensures var r := PostInsert(h, root, s.ref, nill, k); var t := Plug(c.up.up, RightLeftTree(c, s));
      HeapOf(r.0, t, nill) && r.1 == RootOf(t)
  {
    CaseOfTree(h, c, s, nill);
    RedParentLinks(h, c, s, nill);
    PostInsertRightLeftIs(h, root, s.ref, nill, k);
    LeafChildren(c, s);
    var cg := c.up.up;
    var g := Up(c.up, Up(c, s));
    var h1 := SetColor(h, c.up.ref, Red);
    SetColorFocus(h, cg, g, Red, nill);
    var cp := InRight(c.up.left, c.up.ref, c.up.key, Red, cg);
    var cx := InLeft(cp, c.ref, c.key, c.color, c.right);
    assert Plug(cg, g.(color := Red)) == Plug(cx, s);
    var h2 := SetColor(h1, s.ref, Black);
    SetColorFocus(h1, cx, s, Black, nill);
    var pre := Node(Node(s.left, s.ref, s.key, Black, s.right), c.ref, c.key, c.color, c.right);
    assert Plug(cx, s.(color := Black)) == Plug(cp, pre);
    SameRoot(cg, g, Node(c.up.left, c.up.ref, c.up.key, Red, pre));
    RotateRightAsWritten(h2, root, cp, s.left, s.ref, s.key, Black, s.right, c.ref, c.key, c.color, c.right, nill);
    MirrorRotateRightView(h2, root, cp, s.left, s.ref, s.key, Black, s.right, c.ref, c.key, c.color, c.right, nill);
    var r3 := RotateRight(h2, root, s.ref, nill);
    var tp := Node(s.right, c.ref, c.key, c.color, c.right);
    assert Plug(cp, Node(s.left, s.ref, s.key, Black, tp)) ==
      Plug(cg, Node(c.up.left, c.up.ref, c.up.key, Red, Node(s.left, s.ref, s.key, Black, tp)));
    RotateLeftView(r3.0, r3.1, cg, c.up.left, c.up.ref, c.up.key, Red, s.left, s.ref, s.key, Black, tp, nill);
  }

  /** The left-left branch leaves the node the left child of both its parent and its
      grandparent: `rotate_right(parent)` keeps `parent->left_` and hands the same node to
      the grandparent. */
  lemma LeftLeftShares(h: Heap, root: RBNode?, c: Ctx, s: Tree, nill: RBNode, k: nat)
    requires HeapOf(h, Plug(c, s), nill) && FixInv(c, s) && TreeCase(c, s) == LeftLeft
    requires root == RootOf(Plug(c, s)) && AncestorsWithin(h, s.ref, k)
    ensures Closed(h, nill) && s.ref in h && s.ref != nill && RedHaveParents(h, nill, s.ref)
    ensures SharedChild(PostInsert(h, root, s.ref, nill, k).0, nill, c.ref, c.up.ref, s.ref)
  {
    CaseOfTree(h, c, s, nill);
    RedParentLinks(h, c, s, nill);
    PostInsertLeftLeftIs(h, root, s.ref, nill, k);
    var cg := c.up.up;
    var h1 := SetColor(h, c.ref, Black);
    SetColorFocus(h, c.up, Up(c, s), Black, nill);
    var p' := Node(s, c.ref, c.key, Black, c.right);
    var h2 := SetColor(h1, c.up.ref, Red);
    SetColorFocus(h1, cg, Up(c.up, p'), Red, nill);
    RotateRightAsWritten(h2, root, cg, s, c.ref, c.key, Black, c.right, c.up.ref, c.up.key, Red, c.up.right, nill);
  }

  /** The left-right branch leaves the parent the left child of both the node and the
      grandparent: after `rotate_left(node)` the parent is `node->left_`, which
      `rotate_right(node)` keeps and hands to the grandparent. */
  lemma LeftRightShares(h: Heap, root: RBNode?, c: Ctx, s: Tree, nill: RBNode, k: nat)
    requires HeapOf(h, Plug(c, s), nill) && FixInv(c, s) && TreeCase(c, s) == LeftRight
    requires root == RootOf(Plug(c, s)) && AncestorsWithin(h, s.ref, k)
    ensures Closed(h, nill) && s.ref in h && s.ref != nill && RedHaveParents(h, nill, s.ref)
    ensures SharedChild(PostInsert(h, root, s.ref, nill, k).0, nill, s.ref, c.up.ref, c.ref)
  {
    CaseOfTree(h, c, s, nill);
    RedParentLinks(h, c, s, nill);
    PostInsertLeftRightIs(h, root, s.ref, nill, k);
    var cg := c.up.up;
    var g := Up(c.up, Up(c, s));
    var h1 := SetColor(h, c.up.ref, Red);
    SetColorFocus(h, cg, g, Red, nill);
    var cp := InLeft(cg, c.up.ref, c.up.key, Red, c.up.right);
    var cx := InRight(c.left, c.ref, c.key, c.color, cp);
    assert Plug(cg, g.(color := Red)) == Plug(cx, s);
    var h2 := SetColor(h1, s.ref, Black);
    SetColorFocus(h1, cx, s, Black, nill);
    var pre := Node(c.left, c.ref, c.key, c.color, Node(s.left, s.ref, s.key, Black, s.right));
    assert Plug(cx, s.(color := Black)) == Plug(cp, pre);
    SameRoot(cg, g, Node(pre, c.up.ref, c.up.key, Red, c.up.right));
    RotateLeftView(h2, root, cp, c.left, c.ref, c.key, c.color, s.left, s.ref, s.key, Black, s.right, nill);
    var r3 := RotateLeft(h2, root, s.ref, nill);
    var a := Node(c.left, c.ref, c.key, c.color, s.left);
    assert Plug(cp, Node(a, s.ref, s.key, Black, s.right)) ==
      Plug(cg, Node(Node(a, s.ref, s.key, Black, s.right), c.up.ref, c.up.key, Red, c.up.right));
    RotateRightAsWritten(r3.0, r3.1, cg, a, s.ref, s.key, Black, s.right, c.up.ref, c.up.key, Red, c.up.right, nill);
  }

  /** The right-left branch on a node with subtrees: `rotate_right(node)` leaves the root of
      the node's left subtree the left child of both the node and the parent, and
      `rotate_left(node)` then hands it from the node to the grandparent. */
  lemma RightLeftShares(h: Heap, root: RBNode?, c: Ctx, s: Tree, nill: RBNode, k: nat)
    requires HeapOf(h, Plug(c, s), nill) && FixInv(c, s) && TreeCase(c, s) == RightLeft
    requires root == RootOf(Plug(c, s)) && AncestorsWithin(h, s.ref, k) && s.left.Node?
    ensures Closed(h, nill) && s.ref in h && s.ref != nill && RedHaveParents(h, nill, s.ref)
    ensures SharedChild(PostInsert(h, root, s.ref, nill, k).0, nill, c.up.ref, c.ref, s.left.ref)
  {
    CaseOfTree(h, c, s, nill);
    RedParentLinks(h, c, s, nill);
    PostInsertRightLeftIs(h, root, s.ref, nill, k);
    var cg := c.up.up;
    var g := Up(c.up, Up(c, s));
    var h1 := SetColor(h, c.up.ref, Red);
    SetColorFocus(h, cg, g, Red, nill);
    var cp := InRight(c.up.left, c.up.ref, c.up.key, Red, cg);
    var cx := InLeft(cp, c.ref, c.key, c.color, c.right);
    assert Plug(cg, g.(color := Red)) == Plug(cx, s);
    var h2 := SetColor(h1, s.ref, Black);
    SetColorFocus(h1, cx, s, Black, nill);
    var pre := Node(Node(s.left, s.ref, s.key, Black, s.right), c.ref, c.key, c.color, c.right);
    assert Plug(cx, s.(color := Black)) == Plug(cp, pre);
    RotateRightFields(h2, root, cp, s.left, s.ref, s.key, Black, s.right, c.ref, c.key, c.color, c.right, nill);
    var r3 := RotateRight(h2, root, s.ref, nill);
    var gp := Node(c.up.left, c.up.ref, c.up.key, Red, pre);
    HeapOfFacts(h2, cg, gp, nill);
    assert s.left.ref in Nodes(s.left);
    assert !cg.Top? ==> cg.ref in CtxNodes(cg);
    RotateLeftWrites(r3.0, r3.1, s.ref, nill, c.up.ref, CtxParent(cg), s.left.ref);
  }

  /** A node without a parent becomes black and `root_` (rb_tree.hpp:127-132). */
  lemma AtRootHeap(h: Heap, root: RBNode?, s: Tree, nill: RBNode, k: nat)
    requires HeapOf(h, s, nill) && FixInv(Top, s) && AncestorsWithin(h, s.ref, k)
    ensures Closed(h, nill) && s.ref in h && s.ref != nill && RedHaveParents(h, nill, s.ref)
    ensures var r := PostInsert(h, root, s.ref, nill, k);
      HeapOf(r.0, s.(color := Black), nill) && r.1 == s.ref
  {
    CaseOfTree(h, Top, s, nill);
    PostInsertEndsIs(h, root, s.ref, nill, k);
    SetColorFocus(h, Top, s, Black, nill);
  }

  /** Under a black parent nothing changes (rb_tree.hpp:135-136). */
  lemma BlackParentHeap(h: Heap, root: RBNode?, c: Ctx, s: Tree, nill: RBNode, k: nat)
    requires HeapOf(h, Plug(c, s), nill) && FixInv(c, s) && TreeCase(c, s) == BlackParent
    requires AncestorsWithin(h, s.ref, k)
    ensures Closed(h, nill) && s.ref in h && s.ref != nill && RedHaveParents(h, nill, s.ref)
    ensures PostInsert(h, root, s.ref, nill, k) == (h, root)
  {
    CaseOfTree(h, c, s, nill);
    PostInsertEndsIs(h, root, s.ref, nill, k);
  }

  /** Under a red parent and a red uncle the fix-up recolours and goes on at the
      grandparent, which is then in the state the fix-up expects, in the same tree
      (rb_tree.hpp:141-147). */
  lemma RedUncleHeap(h: Heap, root: RBNode?, c: Ctx, s: Tree, nill: RBNode, k: nat)
    requires HeapOf(h, Plug(c, s), nill) && FixInv(c, s) && TreeCase(c, s) == RedUncle
    requires root == RootOf(Plug(c, s)) && AncestorsWithin(h, s.ref, k)
    ensures Closed(h, nill) && s.ref in h && s.ref != nill && RedHaveParents(h, nill, s.ref)
    ensures CaseOf(h, nill, s.ref) == RedUncle && k >= 2
    ensures var h' := RecolourUp(h, nill, s.ref); var s' := RecolourTree(c, s);
      HeapOf(h', Plug(c.up.up, s'), nill) && FixInv(c.up.up, s') && root == RootOf(Plug(c.up.up, s')) &&
      s'.ref in h' && s'.ref != nill && Depth(c.up.up) < Depth(c) && AncestorsWithin(h', s'.ref, k - 2) && RedHaveParents(h', nill, s'.ref) &&
      PostInsert(h, root, s.ref, nill, k) == PostInsert(h', root, s'.ref, nill, k - 2)
  {
    RecolourHeap(h, c, s, nill);
    RedParentLinks(h, c, s, nill);
    RecolourFixInv(c, s);
    PostInsertRedUncleIs(h, root, s.ref, nill, k);
    SameRoot(c.up.up, Up(c.up, Up(c, s)), RecolourTree(c, s));
  }

  /** The colours asserted at rb_tree.hpp:151-152 hold whenever the fix-up reaches the
      rotations: the parent red, the uncle (possibly the sentinel) black and the grandparent
      black. */
  lemma RotationCaseColours(h: Heap, c: Ctx, s: Tree, nill: RBNode)
    requires HeapOf(h, Plug(c, s), nill) && FixInv(c, s)
    requires TreeCase(c, s) in {LeftLeft, RightLeft, RightRight, LeftRight}
    ensures Closed(h, nill) && s.ref in h && s.ref != nill
    ensures h[s.ref].parent != null && h[s.ref].parent in h && h[h[s.ref].parent].color == Red
    ensures Uncle(h, nill, s.ref) != null && h[Uncle(h, nill, s.ref)].color == Black
    ensures Grandparent(h, nill, s.ref) != null && h[Grandparent(h, nill, s.ref)].color == Black
  {
    RedParentLinks(h, c, s, nill);
    RedParent(c, s);
    FocusLinks(h, c.up, Up(c, s), nill);
  }

  // ---------------------------------------------------------------------------------------
  // The whole fix-up

  /** The fix-up from `s` in `c` ends in one of the branches that leave a tree: at the root,
      under a black parent, in the right-right case, or in the right-left case on a node
      without subtrees, possibly after red-uncle steps. */
  predicate StopsWell(c: Ctx, s: Tree)
    decreases Depth(c)
  {
    match TreeCase(c, s)
    case AtRoot => true
    case BlackParent => true
    case RightRight => true
    case RightLeft => s.Node? && s.left.Leaf?
    case RedUncle =>
      assert Depth(c) == Depth(c.up) + 1 && Depth(c.up) == Depth(c.up.up) + 1;
      StopsWell(c.up.up, RecolourTree(c, s))
    case LeftLeft => false
    case LeftRight => false
    case NoCase => false
  }

  /** The tree the fix-up leaves when it stops well. */
  function FixTree(c: Ctx, s: Tree): Tree
    requires s.Node? && StopsWell(c, s)
    decreases Depth(c)
  {
    match TreeCase(c, s)
    case AtRoot => s.(color := Black)
    case BlackParent => Plug(c, s)
    case RightRight => Plug(c.up.up, RightRightTree(c, s))
    case RightLeft => Plug(c.up.up, RightLeftTree(c, s))
    case RedUncle =>
      assert Depth(c) == Depth(c.up) + 1 && Depth(c.up) == Depth(c.up.up) + 1;
      FixTree(c.up.up, RecolourTree(c, s))
  }

  /** When it stops well, the fix-up leaves a red-black tree with the same nodes holding the
      same keys in the same order. */
  lemma {:induction false} FixTreeRedBlack(c: Ctx, s: Tree)
    requires FixInv(c, s) && StopsWell(c, s)
    ensures IsRedBlack(FixTree(c, s))
    ensures InOrder(FixTree(c, s)) == InOrder(Plug(c, s))
    ensures Nodes(FixTree(c, s)) == Nodes(Plug(c, s))
    decreases Depth(c)
  {
    match TreeCase(c, s)
    case AtRoot =>
      AtRootRedBlack(s);
    case BlackParent =>
      BlackParentRedBlack(c, s);
    case RightRight =>
      RightRightRedBlack(c, s);
      RedParent(c, s);
      PlugNodes(c.up.up, RightRightTree(c, s));
      PlugNodes(c.up.up, Up(c.up, Up(c, s)));
    case RightLeft =>
      RightLeftRedBlack(c, s);
      RedParent(c, s);
      PlugNodes(c.up.up, RightLeftTree(c, s));
      PlugNodes(c.up.up, Up(c.up, Up(c, s)));
    case RedUncle =>
      RecolourFixInv(c, s);
      RedParent(c, s);
      assert Depth(c) == Depth(c.up) + 1 && Depth(c.up) == Depth(c.up.up) + 1;
      FixTreeRedBlack(c.up.up, RecolourTree(c, s));
      PlugNodes(c.up.up, RecolourTree(c, s));
      PlugNodes(c.up.up, Up(c.up, Up(c, s)));
  }

  /** `do_post_insert(x)` on the heap of a tree in the state it expects, when the fix-up
      stops well: the heap of the red-black tree `FixTree`, with `root_` its root. */
  lemma {:induction false} PostInsertGood(h: Heap, root: RBNode?, c: Ctx, s: Tree, nill: RBNode, k: nat)
    requires HeapOf(h, Plug(c, s), nill) && FixInv(c, s) && StopsWell(c, s)
    requires root == RootOf(Plug(c, s)) && AncestorsWithin(h, s.ref, k)
    ensures Closed(h, nill) && s.ref in h && s.ref != nill && RedHaveParents(h, nill, s.ref)
    ensures var r := PostInsert(h, root, s.ref, nill, k);
      HeapOf(r.0, FixTree(c, s), nill) && r.1 == RootOf(FixTree(c, s))
    decreases Depth(c)
  {
    CaseOfTree(h, c, s, nill);
    match TreeCase(c, s)
    case AtRoot =>
      AtRootHeap(h, root, s, nill, k);
    case BlackParent =>
      BlackParentHeap(h, root, c, s, nill, k);
    case RightRight =>
      RightRightHeap(h, root, c, s, nill, k);
    case RightLeft =>
      RightLeftHeap(h, root, c, s, nill, k);
    case RedUncle =>
      RedUncleHeap(h, root, c, s, nill, k);
      PostInsertGood(RecolourUp(h, nill, s.ref), root, c.up.up, RecolourTree(c, s), nill, k - 2);
  }

  /** `do_post_insert(x)` on the heap of a tree in the state it expects, when the fix-up does
      not stop well: a heap in which two nodes share a child. */
  lemma {:induction false} PostInsertBad(h: Heap, root: RBNode?, c: Ctx, s: Tree, nill: RBNode, k: nat)
    requires HeapOf(h, Plug(c, s), nill) && FixInv(c, s) && !StopsWell(c, s)
    requires root == RootOf(Plug(c, s)) && AncestorsWithin(h, s.ref, k)
    ensures Closed(h, nill) && s.ref in h && s.ref != nill && RedHaveParents(h, nill, s.ref)
    ensures HasSharedChild(PostInsert(h, root, s.ref, nill, k).0, nill)
    decreases Depth(c)
  {
    CaseOfTree(h, c, s, nill);
    var r := PostInsert(h, root, s.ref, nill, k);
    match TreeCase(c, s)
    case RightLeft =>
      RightLeftShares(h, root, c, s, nill, k);
      SharedWitness(r.0, nill, c.up.ref, c.ref, s.left.ref);
    case LeftLeft =>
      LeftLeftShares(h, root, c, s, nill, k);
      SharedWitness(r.0, nill, c.ref, c.up.ref, s.ref);
    case LeftRight =>
      LeftRightShares(h, root, c, s, nill, k);
      SharedWitness(r.0, nill, s.ref, c.up.ref, c.ref);
    case RedUncle =>
      RedUncleHeap(h, root, c, s, nill, k);
      PostInsertBad(RecolourUp(h, nill, s.ref), root, c.up.up, RecolourTree(c, s), nill, k - 2);
  }

  /** When the fix-up does not stop well, what it leaves is the heap of no tree. */
  lemma PostInsertBreaks(h: Heap, root: RBNode?, c: Ctx, s: Tree, nill: RBNode, k: nat, t: Tree)
    requires HeapOf(h, Plug(c, s), nill) && FixInv(c, s) && !StopsWell(c, s)
    requires root == RootOf(Plug(c, s)) && AncestorsWithin(h, s.ref, k)
    ensures Closed(h, nill) && s.ref in h && s.ref != nill && RedHaveParents(h, nill, s.ref)
    ensures !HeapOf(PostInsert(h, root, s.ref, nill, k).0, t, nill)
  {
    PostInsertBad(h, root, c, s, nill, k);
    if HeapOf(PostInsert(h, root, s.ref, nill, k).0, t, nill) {
      HeapOfUnshared(PostInsert(h, root, s.ref, nill, k).0, t, nill);
    }
  }
}
