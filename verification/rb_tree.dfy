/** `RBTree` of rbtree/rb_tree.hpp: the root, the shared sentinel `nill_`, and the operations
    that relink nodes in place.  Every method is proved to leave the fields of the tree's
    objects exactly as the heap functions of `RBHeap` and `RBInsert` say, and through those the
    outcome proved in `RBOutcome` carries over to the objects themselves. */
module RBTrees {
  import opened RBNodes
  import opened RBHeap
  import opened RBShape
  import opened RBView
  import opened RBFixup
  import opened RBPostInsert
  import opened RBOutcome
  import opened RBInsert

  class RBTree {
    var root: RBNode?
    var nill: RBNode
    /** The objects of the tree: its nodes and the sentinel. */
    ghost var Repr: set<RBNode>

    /** The fields of every object of the tree, as a heap value. */
    ghost function Snap(): (h: Heap)
      reads this, Repr
      ensures h.Keys == Repr
    {
      map n | n in Repr :: n.Fields()
    }

    /** `RBTree()` (rb_tree.hpp:70-75): an empty tree whose sentinel is black, holds -1 and has
        no links. */
    constructor ()
      ensures Repr == {nill} && fresh(nill) && root == null
      ensures Snap() == map[nill := Sentinel]
      ensures HeapOf(Snap(), Leaf, nill)
    {
      var s := new RBNode(-1);
      s.color := Black;
      s.left, s.right, s.parent := null, null, null;
      nill := s;
      root := null;
      Repr := {s};
    }

    // The field assignments the operations are made of, one object at a time.

    method AssignRoot(n: RBNode?)
      modifies this
      ensures root == n && Repr == old(Repr) && nill == old(nill) && Snap() == old(Snap())
    {
      root := n;
    }

    method AssignColor(n: RBNode, v: Color)
      requires n in Repr
      modifies n
      ensures Snap() == SetColor(old(Snap()), n, v)
      ensures Repr == old(Repr) && nill == old(nill) && root == old(root)
    {
      n.color := v;
    }

    method AssignLeft(n: RBNode, v: RBNode)
      requires n in Repr
      modifies n
      ensures Snap() == SetLeft(old(Snap()), n, v)
      ensures Repr == old(Repr) && nill == old(nill) && root == old(root)
    {
      n.left := v;
    }

    method AssignRight(n: RBNode, v: RBNode)
      requires n in Repr
      modifies n
      ensures Snap() == SetRight(old(Snap()), n, v)
      ensures Repr == old(Repr) && nill == old(nill) && root == old(root)
    {
      n.right := v;
    }

    method AssignParent(n: RBNode, v: RBNode?)
      requires n in Repr
      modifies n
      ensures Snap() == SetParent(old(Snap()), n, v)
      ensures Repr == old(Repr) && nill == old(nill) && root == old(root)
    {
      n.parent := v;
    }

    /** `fa->right_ = yp; if (yp != nill_) yp->parent_ = fa;` (rb_tree.hpp:201-203). */
    method HandRight(fa: RBNode, y: RBNode)
      requires fa in Repr && y in Repr
      modifies Repr
      ensures Snap() == if y != nill then SetParent(SetRight(old(Snap()), fa, y), y, fa) else SetRight(old(Snap()), fa, y)
      ensures Repr == old(Repr) && nill == old(nill) && root == old(root)
    {
      AssignRight(fa, y);
      if y != nill {
        AssignParent(y, fa);
      }
    }

    /** `fa->left_ = yp; if (yp != nill_) yp->parent_ = fa;` (rb_tree.hpp:235-237). */
    method HandLeft(fa: RBNode, y: RBNode)
      requires fa in Repr && y in Repr
      modifies Repr
      ensures Snap() == if y != nill then SetParent(SetLeft(old(Snap()), fa, y), y, fa) else SetLeft(old(Snap()), fa, y)
      ensures Repr == old(Repr) && nill == old(nill) && root == old(root)
    {
      AssignLeft(fa, y);
      if y != nill {
        AssignParent(y, fa);
      }
    }

    /** The grandparent, if any, takes `node` in place of `fa` (rb_tree.hpp:213-219 and
        247-253). */
    method ReplaceChild(gp: RBNode?, fa: RBNode, node: RBNode)
      requires gp != null ==> gp in Repr
      modifies Repr
      ensures Snap() == if gp == null then old(Snap())
        else if old(Snap())[gp].left == fa then SetLeft(old(Snap()), gp, node)
        else SetRight(old(Snap()), gp, node)
      ensures Repr == old(Repr) && nill == old(nill) && root == old(root)
    {
      if gp != null {
        assert gp.left == Snap()[gp].left;
        if gp.left == fa {
          AssignLeft(gp, node);
        } else {
          AssignRight(gp, node);
        }
      }
    }

    /** `rotate_left(node)` (rb_tree.hpp:188-220). */
    method RotateLeft(node: RBNode)
      requires Closed(Snap(), nill) && node in Repr && node != nill
      modifies this, Repr
      ensures Repr == old(Repr) && nill == old(nill)
      ensures (Snap(), root) == RBHeap.RotateLeft(old(Snap()), old(root), node, nill)
    {
      assert Snap()[node] == node.Fields();
      if node.parent == null {
        AssignRoot(node);
        AssignColor(node, Black);
        return;
      }
      ghost var h := Snap();
      var gp := node.GetGrandparent();
      var fa := node.parent;
      var yp := node.left;
      assert fa == h[node].parent && yp == h[node].left && fa in h && gp == h[fa].parent;
      RotateLeftIs(h, root, node, nill, fa, gp, yp);
      HandRight(fa, yp);
      AssignLeft(node, fa);
      AssignParent(fa, node);
      if root == fa {
        AssignRoot(node);
      }
      AssignParent(node, gp);
      ReplaceChild(gp, fa, node);
    }

    /** `rotate_right(node)` (rb_tree.hpp:222-254), as written: the subtree handed to the old
        parent is `node->left_`. */
    method RotateRight(node: RBNode)
      requires Closed(Snap(), nill) && node in Repr && node != nill
      modifies this, Repr
      ensures Repr == old(Repr) && nill == old(nill)
      ensures (Snap(), root) == RBHeap.RotateRight(old(Snap()), old(root), node, nill)
    {
      assert Snap()[node] == node.Fields();
      if node.parent == null {
        AssignRoot(node);
        AssignColor(node, Black);
        return;
      }
      ghost var h := Snap();
      var gp := node.GetGrandparent();
      var fa := node.parent;
      var yp := node.left;
      assert fa == h[node].parent && yp == h[node].left && fa in h && gp == h[fa].parent;
      RotateRightIs(h, root, node, nill, fa, gp, yp);
      HandLeft(fa, yp);
      AssignRight(node, fa);
      AssignParent(fa, node);
      if root == fa {
        AssignRoot(node);
      }
      AssignParent(node, gp);
      ReplaceChild(gp, fa, node);
    }

    /** `do_post_insert(node)` (rb_tree.hpp:123-185): the fields and `root_` it leaves are those
        of `PostInsert`, whose outcome `RBOutcome` characterises.  `k` bounds the parent chain
        of `node`.  The work of each branch is in the methods below; the assertions of
        rb_tree.hpp:151-152 are not checked here. */
    method DoPostInsert(node: RBNode, ghost k: nat)
      requires Closed(Snap(), nill) && node in Repr && node != nill
      requires AncestorsWithin(Snap(), node, k) && RedHaveParents(Snap(), nill, node)
      modifies this, Repr
      ensures Repr == old(Repr) && nill == old(nill)
      ensures (Snap(), root) == PostInsert(old(Snap()), old(root), node, nill, k)
      decreases k, 1
    {
      ghost var h := Snap();
      PostInsertEndsIs(h, root, node, nill, k);
      assert h[node] == node.Fields();
      if node.parent == null {
        AssignRoot(node);
        AssignColor(node, Black);
        return;
      }
      ghost var p := node.parent;
      assert h[p] == p.Fields();
      if node.parent.color == Black {
        return;
      }
      ghost var g := node.GetGrandparent();
      assert g == Grandparent(h, nill, node) && g != null && h[g] == g.Fields();
      assert node.GetUncle() == Uncle(h, nill, node);
      if node.GetUncle().color == Red {
        FixRedUncle(node, k);
        return;
      }
      if node == node.parent.left && node.parent == node.GetGrandparent().left {
        FixLeftLeft(node, k);
      } else if node == node.parent.left && node.parent == node.GetGrandparent().right {
        FixRightLeft(node, k);
      } else if node == node.parent.right && node.parent == node.GetGrandparent().right {
        FixRightRight(node, k);
      } else if node == node.parent.right && node.parent == node.GetGrandparent().left {
        FixLeftRight(node, k);
      }
    }

    // The branches of `do_post_insert` re-read `node->parent_`, `get_grandparent()` and
    // `get_uncle()` at each use; only colours are written in between, so each is read once.

    /** The red-uncle case (rb_tree.hpp:143-146): recolour, then carry on from the
        grandparent. */
    method FixRedUncle(node: RBNode, ghost k: nat)
      requires Closed(Snap(), nill) && node in Repr && node != nill
      requires AncestorsWithin(Snap(), node, k) && RedHaveParents(Snap(), nill, node)
      requires CaseOf(Snap(), nill, node) == RedUncle
      modifies this, Repr
      ensures Repr == old(Repr) && nill == old(nill)
      ensures (Snap(), root) == PostInsert(old(Snap()), old(root), node, nill, k)
      decreases k, 0
    {
      ghost var h := Snap();
      PostInsertRedUncleIs(h, root, node, nill, k);
      assert h[node] == node.Fields() && h[node.parent] == node.parent.Fields();
      var g := node.GetGrandparent();
      Recolour(node);
      DoPostInsert(g, k - 2);
    }

    /** The recolouring of the red-uncle case (rb_tree.hpp:143-145): parent and uncle black,
        grandparent red. */
    method Recolour(node: RBNode)
      requires Closed(Snap(), nill) && node in Repr && node != nill && RedHaveParents(Snap(), nill, node)
      requires CaseOf(Snap(), nill, node) == RedUncle
      modifies Repr
      ensures Repr == old(Repr) && nill == old(nill) && root == old(root)
      ensures Snap() == RecolourUp(old(Snap()), nill, node)
    {
      ghost var h := Snap();
      assert h[node] == node.Fields() && h[node.parent] == node.parent.Fields();
      var p, g, u := node.parent, node.GetGrandparent(), node.GetUncle();
      assert h[g] == g.Fields();
      RecolourUpIs(h, nill, node, p, u, g);
      AssignColor(p, Black);
      AssignColor(u, Black);
      AssignColor(g, Red);
    }

    /** The left-left case (rb_tree.hpp:154-160). */
    method FixLeftLeft(node: RBNode, ghost k: nat)
      requires Closed(Snap(), nill) && node in Repr && node != nill
      requires AncestorsWithin(Snap(), node, k) && RedHaveParents(Snap(), nill, node)
      requires CaseOf(Snap(), nill, node) == LeftLeft
      modifies this, Repr
      ensures Repr == old(Repr) && nill == old(nill)
      ensures (Snap(), root) == PostInsert(old(Snap()), old(root), node, nill, k)
    {
      ghost var h := Snap();
      PostInsertLeftLeftIs(h, root, node, nill, k);
      assert h[node] == node.Fields() && h[node.parent] == node.parent.Fields();
      var p, g := node.parent, node.GetGrandparent();
      AssignColor(p, Black);
      AssignColor(g, Red);
      RotateRight(p);
    }

    /** The right-left case (rb_tree.hpp:161-168). */
    method FixRightLeft(node: RBNode, ghost k: nat)
      requires Closed(Snap(), nill) && node in Repr && node != nill
      requires AncestorsWithin(Snap(), node, k) && RedHaveParents(Snap(), nill, node)
      requires CaseOf(Snap(), nill, node) == RightLeft
      modifies this, Repr
      ensures Repr == old(Repr) && nill == old(nill)
      ensures (Snap(), root) == PostInsert(old(Snap()), old(root), node, nill, k)
    {
      ghost var h := Snap();
      PostInsertRightLeftIs(h, root, node, nill, k);
      assert h[node] == node.Fields() && h[node.parent] == node.parent.Fields();
      var p, g := node.parent, node.GetGrandparent();
      AssignColor(g, Red);
      AssignColor(node, Black);
      RotateRight(node);
      RotateLeft(node);
    }

    /** The right-right case (rb_tree.hpp:169-175). */
    method FixRightRight(node: RBNode, ghost k: nat)
      requires Closed(Snap(), nill) && node in Repr && node != nill
      requires AncestorsWithin(Snap(), node, k) && RedHaveParents(Snap(), nill, node)
      requires CaseOf(Snap(), nill, node) == RightRight
      modifies this, Repr
      ensures Repr == old(Repr) && nill == old(nill)
      ensures (Snap(), root) == PostInsert(old(Snap()), old(root), node, nill, k)
    {
      ghost var h := Snap();
      PostInsertRightRightIs(h, root, node, nill, k);
      assert h[node] == node.Fields() && h[node.parent] == node.parent.Fields();
      var p, g := node.parent, node.GetGrandparent();
      AssignColor(g, Red);
      AssignColor(p, Black);
      RotateLeft(p);
    }

    /** The left-right case (rb_tree.hpp:176-183). */
    method FixLeftRight(node: RBNode, ghost k: nat)
      requires Closed(Snap(), nill) && node in Repr && node != nill
      requires AncestorsWithin(Snap(), node, k) && RedHaveParents(Snap(), nill, node)
      requires CaseOf(Snap(), nill, node) == LeftRight
      modifies this, Repr
      ensures Repr == old(Repr) && nill == old(nill)
      ensures (Snap(), root) == PostInsert(old(Snap()), old(root), node, nill, k)
    {
      ghost var h := Snap();
      PostInsertLeftRightIs(h, root, node, nill, k);
      assert h[node] == node.Fields() && h[node.parent] == node.parent.Fields();
      var p, g := node.parent, node.GetGrandparent();
      AssignColor(g, Red);
      AssignColor(node, Black);
      RotateLeft(node);
      RotateRight(node);
    }

    /** `insert(data)` (rb_tree.hpp:77-88).  `t` is the tree the objects form, red-black and
        without `data` (the `assert` of rb_tree.hpp:93 stops the program otherwise); `x` is the
        new node.  `InsertOutcome` says what the objects form afterwards. */
    method Insert(data: int, ghost t: Tree) returns (ghost x: RBNode)
      requires HeapOf(Snap(), t, nill) && root == RootOf(t) && IsRedBlack(t)
      requires data !in SearchPath(t, data)
      modifies this, Repr
      ensures fresh(x) && Repr == old(Repr) + {x} && nill == old(nill)
      ensures (Snap(), root) == InsertHeap(old(Snap()), old(root), t, x, data, nill)
    {
      if root == null {
        ghost var h := Snap();
        root := new RBNode(data);
        root.color := Black;
        root.parent := null;
        root.left, root.right := nill, nill;
        Repr := Repr + {root};
        x := root;
        assert Snap() == PlantRoot(h, x, data, nill);
      } else {
        x := InsertAt(root, data, Top, t, t);
      }
    }

    /** `insert(node, data)` (rb_tree.hpp:90-120): the descent from `node`, the focus `s` of
        `t` in context `c`. */
    method InsertAt(node: RBNode, data: int, ghost c: Ctx, ghost s: Tree, ghost t: Tree) returns (ghost x: RBNode)
      requires HeapOf(Snap(), t, nill) && root == RootOf(t) && IsRedBlack(t)
      requires data !in SearchPath(t, data)
      requires t == Plug(c, s) && s.Node? && node == s.ref && AttachCtx(Top, t, data) == AttachCtx(c, s, data)
      modifies this, Repr
      ensures fresh(x) && Repr == old(Repr) + {x} && nill == old(nill)
      ensures (Snap(), root) == InsertHeap(old(Snap()), old(root), t, x, data, nill)
      decreases s
    {
      ghost var h := Snap();
      HeapOfFacts(h, c, s, nill);
      PlugRepresents(h, c, s, nill);
      assert h[node] == node.Fields();
      if data < node.data {
        if node.left != nill {
          x := InsertAt(node.left, data, InLeft(c, node, s.key, s.color, s.right), s.left, t);
        } else {
          x := AddLeaf(node, data, true, c, s, t);
        }
      } else {
        if node.right != nill {
          x := InsertAt(node.right, data, InRight(s.left, node, s.key, s.color, c), s.right, t);
        } else {
          x := AddLeaf(node, data, false, c, s, t);
        }
      }
    }

    /** The two places where the descent reaches the sentinel (rb_tree.hpp:99-105 and
        110-116): a new node, linked as `node`'s left child when `left` holds, else as its
        right child, then `do_post_insert(tmp)` from it. */
    method AddLeaf(node: RBNode, data: int, left: bool, ghost c: Ctx, ghost s: Tree, ghost t: Tree) returns (ghost x: RBNode)
      requires HeapOf(Snap(), t, nill) && root == RootOf(t) && IsRedBlack(t)
      requires data !in SearchPath(t, data)
      requires t == Plug(c, s) && s.Node? && node == s.ref && AttachCtx(Top, t, data) == AttachCtx(c, s, data)
      requires left == (data < s.key) && if left then s.left.Leaf? else s.right.Leaf?
      modifies this, Repr
      ensures fresh(x) && Repr == old(Repr) + {x} && nill == old(nill)
      ensures (Snap(), root) == InsertHeap(old(Snap()), old(root), t, x, data, nill)
    {
      ghost var h := Snap();
      FocusInHeap(h, c, s, nill);
      var tmp := LinkNew(node, data, left);
      x := tmp;
      InsertHeapLeaf(h, root, c, s, t, x, data, nill, left);
      DoPostInsert(tmp, Depth(AttachCtx(Top, t, data)) + 1);
    }

    /** A new node holding `data`, red, with the sentinel as both children and `node` as its
        parent, linked as `node`'s left child when `left` holds, else as its right child. */
    method LinkNew(node: RBNode, data: int, left: bool) returns (tmp: RBNode)
      requires node in Repr
      modifies this, node
      ensures fresh(tmp) && Repr == old(Repr) + {tmp} && nill == old(nill) && root == old(root)
      ensures Snap() == LinkLeaf(old(Snap()), node, tmp, data, nill, left)
    {
      tmp := new RBNode(data);
      tmp.left, tmp.right := nill, nill;
      tmp.parent := node;
      if left {
        node.left := tmp;
      } else {
        node.right := tmp;
      }
      Repr := Repr + {tmp};
    }
  }
}
